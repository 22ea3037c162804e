/** Run queues, sleep timers and the scheduler: proc/thread.c, kernel/scheduler.c and
    drivers/timer.c as a state machine on values.

    Threads are named by number; IDLE is the idle thread. A switch to another thread is the
    assignment of `current`; the time stamp counter is a number given to each call. */
module Sched {
  import opened Machine
  import opened Seqs

  const IDLE := 0
  const MAX_QUANTUM_MS := 200
  const MIN_QUANTUM_MS := 1
  const P_PENALTY := 5
  const MIN_PRIORITY := 20
  const RTC_FREQ := 2048
  /** The runtime that init gives the idle thread, UINT64_MAX. */
  const IDLE_RUNTIME := U64 - 1

  datatype TaskState = Runnable | Interruptible | Stopped

  datatype Thread = Thread(nice: nat, runtime: nat, activated: nat, timeslice: nat, state: TaskState)

  /** `id` is the address of the timer. */
  datatype Timer = Timer(id: nat, expiration: nat, thread: nat)

  datatype State = State(
    threads: map<nat, Thread>,
    running: seq<nat>,
    sleeping: seq<nat>,
    stopped: seq<nat>,
    timers: seq<Timer>,
    tick: nat,
    current: nat)

  // ---------------------------------------------------------------- the three queues

  /** `list_remove(&p->head)`, from whichever queue the thread is in. */
  function Unqueued(s: State, t: nat): State {
    s.(running := Remove(s.running, t), sleeping := Remove(s.sleeping, t), stopped := Remove(s.stopped, t))
  }

  function SetState(s: State, t: nat, st: TaskState): State {
    if t in s.threads then s.(threads := s.threads[t := s.threads[t].(state := st)]) else s
  }

  /** sleep_thread. */
  function Sleep(s: State, t: nat): State {
    if t == IDLE || t !in s.threads then s
    else
      var u := Unqueued(SetState(s, t, Interruptible), t);
      u.(sleeping := [t] + u.sleeping)
  }

  /** stop_thread. */
  function Stop(s: State, t: nat): State {
    if t == IDLE || t !in s.threads then s
    else
      var u := Unqueued(SetState(s, t, TaskState.Stopped), t);
      u.(stopped := [t] + u.stopped)
  }

  /** wake_up_thread. */
  function Wake(s: State, t: nat): State {
    if t !in s.threads then s
    else
      var u := Unqueued(SetState(s, t, Runnable), t);
      u.(running := u.running + [t])
  }

  /** create_kernel_thread, create_user_thread: a new thread, on no queue yet. */
  function Create(s: State, pid: nat, nice: nat): State {
    if pid in s.threads then s else s.(threads := s.threads[pid := Thread(nice, 0, 0, 0, Runnable)])
  }

  // ---------------------------------------------------------------- timers

  /** millis_to_ticks: the product is taken in 32 bits. */
  function MillisToTicks(ms: nat): nat {
    ms * RTC_FREQ % U32 / 1000
  }

  /** The expiration that sleep_ms stores in 32 bits. */
  function Expiration(ms: nat, tick: nat): nat {
    (MillisToTicks(ms) + tick) % U32
  }

  function Expired(timers: seq<Timer>, tick: nat): seq<Timer> {
    if timers == [] then []
    else (if tick >= timers[0].expiration then [timers[0]] else []) + Expired(timers[1..], tick)
  }

  function Unexpired(timers: seq<Timer>, tick: nat): seq<Timer> {
    if timers == [] then []
    else (if tick >= timers[0].expiration then [] else [timers[0]]) + Unexpired(timers[1..], tick)
  }

  /** The loop of wake_up_timers over the timers from one on: `done` are those it has left in place. */
  function WakeLoop(s: State, left: seq<Timer>, rest: seq<Timer>): State
    decreases |rest|
  {
    if rest == [] then s.(timers := left)
    else if s.tick >= rest[0].expiration then WakeLoop(Wake(s, rest[0].thread), left, rest[1..])
    else WakeLoop(s, left + [rest[0]], rest[1..])
  }

  /** wake_up_timers. */
  function WakeUpTimers(s: State): State {
    WakeLoop(s, [], s.timers)
  }

  /** The first part of sleep_ms: a new timer for the current thread, which goes to sleep. */
  function SleepMs(s: State, id: nat, ms: nat): State {
    Sleep(s.(timers := [Timer(id, Expiration(ms, s.tick), s.current)] + s.timers), s.current)
  }

  // ---------------------------------------------------------------- picking

  function RuntimeOf(s: State, t: nat): nat {
    if t in s.threads then s.threads[t].runtime else 0
  }

  function NiceOf(s: State, t: nat): nat {
    if t in s.threads then s.threads[t].nice else 0
  }

  /** Position of the first least runtime among the first `n` of a queue. */
  function FirstMin(s: State, xs: seq<nat>, n: nat): (k: nat)
    requires 1 <= n <= |xs|
    ensures k < n
    ensures forall j :: 0 <= j < n ==> RuntimeOf(s, xs[k]) <= RuntimeOf(s, xs[j])
    ensures forall j :: 0 <= j < k ==> RuntimeOf(s, xs[k]) < RuntimeOf(s, xs[j])
  {
    if n == 1 then 0
    else
      var k := FirstMin(s, xs, n - 1);
      if RuntimeOf(s, xs[n - 1]) < RuntimeOf(s, xs[k]) then n - 1 else k
  }

  function NiceSum(s: State, xs: seq<nat>, n: nat): nat
    requires n <= |xs|
  {
    if n == 0 then 0 else NiceSum(s, xs, n - 1) + NiceOf(s, xs[n - 1])
  }

  /** The quantum of a thread of the given niceness among `n` with this total. */
  function Quantum(n: nat, total: nat, nice: nat): int
    requires n >= 1
  {
    MAX_QUANTUM_MS / n + (total / n - nice) * P_PENALTY
  }

  function Timeslice(n: nat, total: nat, nice: nat): nat
    requires n >= 1
  {
    var q := Quantum(n, total, nice);
    if q <= 0 then MillisToTicks(MIN_QUANTUM_MS) else MillisToTicks(q)
  }

  function SetThread(s: State, t: nat, th: Thread): State {
    s.(threads := s.threads[t := th])
  }

  /** Who pick_next_thread picks. */
  function Next(s: State): nat
    requires s.running != []
  {
    s.running[FirstMin(s, s.running, |s.running|)]
  }

  /** pick_next_thread: it sets the timeslice of the thread it returns. */
  function Pick(s: State): State
    requires s.running != []
  {
    var t := Next(s);
    if t !in s.threads then s
    else
      SetThread(s, t, s.threads[t].(timeslice := Timeslice(|s.running|, NiceSum(s, s.running, |s.running|),
                                                           s.threads[t].nice)))
  }

  // ---------------------------------------------------------------- the timer interrupt

  function Minus1(n: nat): nat {
    if n > 0 then n - 1 else 0
  }

  /** The subtraction and addition of runtimes are those of 64 bits. */
  function Charged(t: Thread, now: nat): nat
    requires t.activated < U64
  {
    (t.runtime + (now + U64 - t.activated) % U64) % U64
  }

  /** The part behind `no_resched`. */
  function KeepRunning(s: State, now: nat): State
    requires s.current in s.threads && s.threads[s.current].activated < U64
  {
    var t := s.threads[s.current];
    SetThread(s, s.current, t.(runtime := if s.current != IDLE then Charged(t, now) else t.runtime,
                               activated := now, timeslice := Minus1(t.timeslice)))
  }

  /** The switch to a thread just picked. */
  function SwitchTo(s: State, next: nat, now: nat): State
    requires s.current in s.threads && next in s.threads && s.threads[s.current].activated < U64
  {
    var n := s.threads[next];
    var u := SetThread(s, next, n.(timeslice := Minus1(n.timeslice), activated := now));
    var c := s.threads[s.current];
    (if s.current != IDLE && s.current != next then SetThread(u, s.current, c.(runtime := Charged(c, now))) else u)
    .(current := next)
  }

  /** scheduler_handler, without pending signals. */
  function Handler(s: State, now: nat): State
    requires CanSchedule(s)
  {
    var u := WakeUpTimers(s.(tick := s.tick + 1));
    if !CanSchedule(u) then u
    else if u.threads[u.current].timeslice > 0 then KeepRunning(u, now)
    else
      var next := Next(u);
      var p := Pick(u);
      if next !in p.threads || p.current !in p.threads || p.threads[p.current].activated >= U64 then p
      else if next == u.current then KeepRunning(p, now) else SwitchTo(p, next, now)
  }

  /** There is a thread to run: what keeps pick_next_thread from dividing by zero. */
  predicate CanSchedule(s: State) {
    s.running != [] && s.current in s.threads && s.threads[s.current].activated < U64
  }

  /** The part of reschedule behind the pick. Its decrement of the timeslice wraps in 32 bits,
      and a thread that picked itself has just had its activation overwritten. */
  function HandOver(p: State, next: nat, now: nat): State
    requires next in p.threads && p.current in p.threads && p.threads[p.current].activated < U64 && now < U64
  {
    var u := SetThread(p, next, p.threads[next].(activated := now));
    var c := u.threads[p.current];
    var d := c.(runtime := Charged(c, now), timeslice := (c.timeslice + U32 - 1) % U32);
    (if p.current != IDLE then SetThread(u, p.current, d) else u)
    .(current := next)
  }

  /** reschedule, without pending signals. */
  function Reschedule(s: State, now: nat): State
    requires CanSchedule(s)
  {
    var p := Pick(s);
    if Next(s) !in p.threads || p.current !in p.threads || p.threads[p.current].activated >= U64 || now >= U64 then p
    else HandOver(p, Next(s), now)
  }

  // ---------------------------------------------------------------- histories

  datatype Op =
    | DoCreate(pid: nat, nice: nat) | DoSleep(t: nat) | DoStop(t: nat) | DoWake(t: nat)
    | DoSleepMs(id: nat, ms: nat, now: nat) | DoReschedule(now: nat) | DoTick(now: nat)

  function Step(s: State, op: Op): State {
    match op
    case DoCreate(pid, nice) => Create(s, pid, nice)
    case DoSleep(t) => Sleep(s, t)
    case DoStop(t) => Stop(s, t)
    case DoWake(t) => Wake(s, t)
    case DoSleepMs(id, ms, now) =>
      var u := SleepMs(s, id, ms);
      if CanSchedule(u) then Reschedule(u, now) else u
    case DoReschedule(now) => if CanSchedule(s) then Reschedule(s, now) else s
    case DoTick(now) => if CanSchedule(s) then Handler(s, now) else s
  }

  function Run(s: State, ops: seq<Op>): State
    decreases |ops|
  {
    if ops == [] then s else Run(Step(s, ops[0]), ops[1..])
  }
}
