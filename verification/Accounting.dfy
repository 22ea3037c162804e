/** Where the processor time goes: what the timer interrupt and reschedule charge to whom, and that
    over every run the runtimes add up to the time in which idle was not running. */
module Accounting {
  import opened Machine
  import opened Seqs
  import opened Sched
  import opened SchedTheorems

  // ---------------------------------------------------------------- one switch

  /** The clock has not gone back since the current thread was activated, and the time since then
      fits into its runtime, unless it is idle. */
  ghost predicate ClockOk(s: State, now: nat) {
    && s.current in s.threads
    && s.threads[s.current].activated <= now < U64
    && (s.current != IDLE ==> s.threads[s.current].runtime + (now - s.threads[s.current].activated) < U64)
  }

  /** Every runtime is as it was, except that the thread that was current has gained `cycles`;
      the idle thread never gains any. */
  ghost predicate OnlyCurrentGains(s: State, t: State, cycles: nat) {
    && t.threads.Keys == s.threads.Keys
    && forall x :: x in s.threads ==>
         t.threads[x].runtime == s.threads[x].runtime + if x == s.current && x != IDLE then cycles else 0
  }

  /** What the current thread is after its charge. */
  function Gained(t: Thread, who: nat, now: nat): Thread
    requires t.activated <= now
  {
    if who == IDLE then t else t.(runtime := t.runtime + (now - t.activated))
  }

  lemma KeepCharges(p: State, now: nat)
    requires ClockOk(p, now)
    ensures var c := p.threads[p.current];
            KeepRunning(p, now)
            == SetThread(p, p.current, Gained(c, p.current, now)
                                       .(activated := now, timeslice := if c.timeslice > 0 then c.timeslice - 1 else 0))
  {
    if p.current != IDLE {
      ChargeExact(p.threads[p.current], now);
    }
    hide Charged;
  }

  lemma SwitchCharges(p: State, next: nat, now: nat)
    requires ClockOk(p, now) && next in p.threads && next != p.current && p.threads[next].timeslice > 0
    ensures var t := SwitchTo(p, next, now);
            && t.current == next && t.threads.Keys == p.threads.Keys
            && t.threads[next] == p.threads[next].(timeslice := p.threads[next].timeslice - 1, activated := now)
            && t.threads[p.current] == Gained(p.threads[p.current], p.current, now)
            && forall x :: x in p.threads && x != next && x != p.current ==> t.threads[x] == p.threads[x]
  {
    if p.current != IDLE {
      ChargeExact(p.threads[p.current], now);
    }
    hide Charged;
  }

  /** Waking by timer changes nothing of a thread but its state. */
  lemma WakeUpSame(s: State)
    requires RunInv(s)
    ensures SameButStates(s, WakeUpTimers(s.(tick := s.tick + 1)))
  {
    hide WakeUpTimers;
    WakeUpTimersEffect(s.(tick := s.tick + 1));
  }

  /** Three ways through the interrupt: the current thread has time left, or is picked again, or
      another is picked. */
  ghost predicate Interrupted(s: State, t: State, u: State, now: nat)
    requires s.running != []
  {
    && t.current in t.threads && t.threads.Keys == s.threads.Keys && s.current in s.threads && Next(s) in u.threads
    && t.threads[t.current].activated == now
    && (if s.threads[s.current].timeslice > 0
        then t.current == s.current && t.threads[t.current].timeslice == s.threads[s.current].timeslice - 1
        else t.current == Next(s) && t.threads[t.current].timeslice == u.threads[Next(s)].timeslice - 1)
    && forall x :: x in s.threads && x != t.current ==>
         t.threads[x].timeslice == s.threads[x].timeslice && t.threads[x].activated == s.threads[x].activated
  }

  /** The part of the interrupt behind the wake-ups. */
  lemma BehindWakeUps(u: State, now: nat)
    requires RunInv(u) && ClockOk(u, now)
    ensures u.running != [] && Next(u) in u.threads
    ensures var next, p := Next(u), Pick(u);
            var t := if u.threads[u.current].timeslice > 0 then KeepRunning(u, now)
                     else if next == u.current then KeepRunning(p, now) else SwitchTo(p, next, now);
            && OnlyCurrentGains(u, t, now - u.threads[u.current].activated)
            && Interrupted(u, t, p, now)
  {
    hide RunInv, Pick, Next, KeepRunning, SwitchTo;
    PickSame(u);
    var next, p := Next(u), Pick(u);
    if u.threads[u.current].timeslice > 0 {
      KeepCharges(u, now);
    } else if next == u.current {
      KeepCharges(p, now);
    } else {
      SwitchCharges(p, next, now);
    }
  }

  /** Every timer interrupt charges the thread that was running, unless it is idle, for exactly the
      time since its activation, and nobody else; whoever runs next starts at this time. The thread
      goes on with one tick less if it has time left, and otherwise the picked one starts with one
      tick less than it is worth. */
  lemma HandlerCharges(s: State, now: nat)
    requires RunInv(s) && ClockOk(s, now)
    ensures CanSchedule(s)
    ensures OnlyCurrentGains(s, Handler(s, now), now - s.threads[s.current].activated)
    ensures var u := WakeUpTimers(s.(tick := s.tick + 1));
            && u.running != [] && u.current == s.current && Interrupted(u, Handler(s, now), Pick(u), now)
  {
    hide RunInv, WakeUpTimers, Pick, Next, KeepRunning, SwitchTo;
    ScheduleReady(s);
    WakeUpSame(s);
    WakeUpRunInv(s);
    var u := WakeUpTimers(s.(tick := s.tick + 1));
    CurrentKnown(u);
    BehindWakeUps(u, now);
    PickSame(u);
  }

  lemma HandOverCharges(p: State, next: nat, now: nat)
    requires ClockOk(p, now) && next in p.threads
    ensures var t := HandOver(p, next, now);
            && t.current == next && t.threads.Keys == p.threads.Keys && t.threads[next].activated == now
            && OnlyCurrentGains(p, t, if next == p.current then 0 else now - p.threads[p.current].activated)
            && (next != p.current ==> t.threads[next].timeslice == p.threads[next].timeslice)
            && forall x :: x in p.threads && x != next && x != p.current ==> t.threads[x] == p.threads[x]
  {
    if p.current != IDLE {
      ChargeExact(p.threads[p.current], now);
      ChargeExact(p.threads[p.current].(activated := now), now);
    }
    hide Charged;
  }

  /** reschedule charges its caller if another thread is picked, and nobody otherwise; the picked
      thread runs from this time on, with the whole of its timeslice if it is another. */
  lemma RescheduleCharges(s: State, now: nat)
    requires RunInv(s) && ClockOk(s, now)
    ensures CanSchedule(s) && Next(s) in s.running
    ensures var t := Reschedule(s, now);
            && t.current == Next(s) && t.current in t.threads && t.threads[t.current].activated == now
            && OnlyCurrentGains(s, t, if Next(s) == s.current then 0 else now - s.threads[s.current].activated)
            && Next(s) in Pick(s).threads
            && (Next(s) != s.current ==> t.threads[t.current].timeslice == Pick(s).threads[Next(s)].timeslice)
            && forall x :: x in s.threads && x != Next(s) && x != s.current ==> t.threads[x] == s.threads[x]
  {
    hide RunInv, Pick, Next, HandOver;
    PickSame(s);
    HandOverCharges(Pick(s), Next(s), now);
  }

  // ---------------------------------------------------------------- every run

  /** The clock value at which the current thread was activated or charged last. */
  function LastClock(s: State): nat {
    if s.current in s.threads then s.threads[s.current].activated else 0
  }

  /** The clock after a call, if it was `clock` before. */
  function ClockOf(op: Op, clock: nat): nat {
    match op
    case DoSleepMs(_, _, now) => now
    case DoReschedule(now) => now
    case DoTick(now) => now
    case _ => clock
  }

  function EndClock(clock: nat, ops: seq<Op>): nat
    decreases |ops|
  {
    if ops == [] then clock else EndClock(ClockOf(ops[0], clock), ops[1..])
  }

  /** The clock does not go back. */
  predicate InOrder(clock: nat, ops: seq<Op>)
    decreases |ops|
  {
    ops == [] || (clock <= ClockOf(ops[0], clock) && InOrder(ClockOf(ops[0], clock), ops[1..]))
  }

  /** The time up to the next reading of the clock. */
  function Elapsed(s: State, op: Op): int {
    ClockOf(op, LastClock(s)) - LastClock(s)
  }

  /** The time in which a thread other than idle was running. */
  function Busy(s: State, ops: seq<Op>): int
    decreases |ops|
  {
    if ops == [] then 0
    else (if s.current != IDLE then Elapsed(s, ops[0]) else 0) + Busy(Step(s, ops[0]), ops[1..])
  }

  /** The time in which idle was running. */
  function IdleTime(s: State, ops: seq<Op>): int
    decreases |ops|
  {
    if ops == [] then 0
    else (if s.current == IDLE then Elapsed(s, ops[0]) else 0) + IdleTime(Step(s, ops[0]), ops[1..])
  }

  /** A call of reschedule that picks its caller again. */
  predicate PicksItself(s: State, op: Op) {
    op.DoReschedule? && s.current != IDLE && s.running != [] && Next(s) == s.current
  }

  /** The time before such calls. */
  function Uncharged(s: State, ops: seq<Op>): int
    decreases |ops|
  {
    if ops == [] then 0
    else (if PicksItself(s, ops[0]) then Elapsed(s, ops[0]) else 0) + Uncharged(Step(s, ops[0]), ops[1..])
  }

  /** The runtimes of the threads numbered below `n`, idle excepted, added up. */
  function Total(s: State, n: nat): nat {
    if n == 0 then 0
    else Total(s, n - 1) + if n - 1 != IDLE && n - 1 in s.threads then s.threads[n - 1].runtime else 0
  }

  lemma {:induction false} TotalGains(s: State, t: State, cycles: nat, n: nat)
    requires OnlyCurrentGains(s, t, cycles) && s.current in s.threads
    ensures Total(t, n) == Total(s, n) + if s.current != IDLE && s.current < n then cycles else 0
  {
    if n > 0 {
      TotalGains(s, t, cycles, n - 1);
    }
  }

  /** A thread without runtime adds nothing. */
  lemma {:induction false} TotalSame(s: State, t: State, n: nat)
    requires forall x :: x in s.threads ==> x in t.threads && t.threads[x].runtime == s.threads[x].runtime
    requires forall x :: x in t.threads && x !in s.threads ==> t.threads[x].runtime == 0
    ensures Total(t, n) == Total(s, n)
  {
    if n > 0 {
      TotalSame(s, t, n - 1);
    }
  }

  lemma {:induction false} RuntimeInTotal(s: State, x: nat, n: nat)
    requires x in s.threads && x != IDLE && x < n
    ensures s.threads[x].runtime <= Total(s, n)
  {
    if n > x + 1 {
      RuntimeInTotal(s, x, n - 1);
    }
  }

  /** All threads, and the one an operation may create, are numbered below `n`. */
  ghost predicate Below(s: State, n: nat) {
    forall x :: x in s.threads ==> x < n
  }

  predicate CreatesBelow(op: Op, n: nat) {
    op.DoCreate? ==> op.pid < n
  }

  /** No runtime of a thread other than idle can wrap around up to clock value `end`. */
  ghost predicate Fits(s: State, n: nat, end: nat) {
    LastClock(s) <= end < U64 && Total(s, n) + (end - LastClock(s)) < U64
  }

  /** The calls that do not look at the clock. */
  predicate Untimed(op: Op) {
    op.DoCreate? || op.DoSleep? || op.DoStop? || op.DoWake?
  }

  lemma UntimedStep(s: State, op: Op, n: nat)
    requires RunInv(s) && OpOk(op) && Untimed(op) && Below(s, n) && CreatesBelow(op, n)
    ensures var t := Step(s, op);
            && Total(t, n) == Total(s, n) && Below(t, n) && LastClock(t) == LastClock(s)
            && IDLE in s.threads && IDLE in t.threads && t.threads[IDLE].runtime == s.threads[IDLE].runtime
  {
    var t := Step(s, op);
    assert IDLE in s.running;
    if op.DoCreate? {
      TotalSame(s, t, n);
    } else {
      var x := if op.DoSleep? || op.DoStop? || op.DoWake? then op.t else 0;
      hide Sleep, Stop, Wake, QueuesOk;
      MovesSame(s, x);
      TotalSame(s, t, n);
    }
  }

  lemma TimedGains(s: State, op: Op)
    requires RunInv(s) && OpOk(op) && !Untimed(op) && ClockOk(s, ClockOf(op, LastClock(s)))
    ensures var t := Step(s, op);
            && OnlyCurrentGains(s, t, if PicksItself(s, op) then 0 else Elapsed(s, op))
            && LastClock(t) == ClockOf(op, LastClock(s))
  {
    hide RunInv, Next, Pick, SleepMs, Handler, Reschedule, WakeUpTimers;
    ScheduleReady(s);
    match op {
      case DoSleepMs(id, ms, now) =>
        SleepMsSame(s, id, ms);
        RescheduleCharges(SleepMs(s, id, ms), now);
      case DoReschedule(now) => RescheduleCharges(s, now);
      case DoTick(now) => HandlerCharges(s, now);
    }
  }

  /** The caller of sleep_ms, unless it is idle, cannot be picked again. */
  lemma SleepMsSame(s: State, id: nat, ms: nat)
    requires RunInv(s)
    ensures var u := SleepMs(s, id, ms);
            && RunInv(u) && CanSchedule(u) && SameButStates(s, u)
            && (s.current != IDLE ==> u.current !in u.running)
  {
    hide Sleep, Distinct;
    SleepMsKeeps(s, id, ms);
    var a := s.(timers := [Timer(id, Expiration(ms, s.tick), s.current)] + s.timers);
    MovesSame(a, a.current);
    assert QueuesOk(a);
    MovesKeep(a, a.current);
  }

  lemma ClockFits(s: State, n: nat, end: nat, now: nat)
    requires RunInv(s) && Below(s, n) && Fits(s, n, end) && LastClock(s) <= now <= end
    ensures ClockOk(s, now)
  {
    hide QueuesOk, Total;
    if s.current != IDLE {
      RuntimeInTotal(s, s.current, n);
    }
  }

  lemma TimedStep(s: State, op: Op, n: nat, end: nat)
    requires RunInv(s) && OpOk(op) && !Untimed(op) && Below(s, n) && Fits(s, n, end)
    requires LastClock(s) <= ClockOf(op, LastClock(s)) <= end
    ensures var t := Step(s, op);
            && Total(t, n) == Total(s, n) + (if s.current != IDLE then Elapsed(s, op) else 0)
                              - (if PicksItself(s, op) then Elapsed(s, op) else 0)
            && Below(t, n) && LastClock(t) == ClockOf(op, LastClock(s))
            && IDLE in s.threads && IDLE in t.threads && t.threads[IDLE].runtime == s.threads[IDLE].runtime
  {
    hide Step, QueuesOk, NicesOk, Next, Total;
    ClockFits(s, n, end, ClockOf(op, LastClock(s)));
    TimedGains(s, op);
    TotalGains(s, Step(s, op), if PicksItself(s, op) then 0 else Elapsed(s, op), n);
    IdleKnown(s);
  }

  lemma IdleKnown(s: State)
    requires RunInv(s)
    ensures IDLE in s.threads
  {
    assert IDLE in s.running;
  }

  lemma {:induction false} EndAfter(clock: nat, ops: seq<Op>)
    requires InOrder(clock, ops)
    ensures EndClock(clock, ops) >= clock
    decreases |ops|
  {
    if ops != [] {
      EndAfter(ClockOf(ops[0], clock), ops[1..]);
    }
  }

  lemma AccountStep(s: State, op: Op, n: nat, end: nat)
    requires RunInv(s) && OpOk(op) && Below(s, n) && CreatesBelow(op, n) && Fits(s, n, end)
    requires LastClock(s) <= ClockOf(op, LastClock(s)) <= end
    ensures var t := Step(s, op);
            && Total(t, n) == Total(s, n) + (if s.current != IDLE then Elapsed(s, op) else 0)
                              - (if PicksItself(s, op) then Elapsed(s, op) else 0)
            && RunInv(t) && Below(t, n) && Fits(t, n, end) && LastClock(t) == ClockOf(op, LastClock(s))
            && IDLE in s.threads && IDLE in t.threads && t.threads[IDLE].runtime == s.threads[IDLE].runtime
  {
    hide RunInv, Step, Next, Total, Below;
    StepKeeps(s, op);
    if Untimed(op) {
      UntimedStep(s, op, n);
    } else {
      TimedStep(s, op, n, end);
    }
  }

  /** Over every run with a clock that does not go back: the runtimes of the threads other than
      idle grow by the time in which idle was not running, less the time before calls of reschedule
      that pick their caller again. The runtime of idle stays, and the time of the run is split
      between idle and the others. */
  lemma {:induction false} TimeAccounted(s: State, ops: seq<Op>, n: nat)
    requires RunInv(s) && Below(s, n) && InOrder(LastClock(s), ops)
    requires forall i :: 0 <= i < |ops| ==> OpOk(ops[i]) && CreatesBelow(ops[i], n)
    requires Fits(s, n, EndClock(LastClock(s), ops))
    ensures Total(Run(s, ops), n) + Uncharged(s, ops) == Total(s, n) + Busy(s, ops)
    ensures Busy(s, ops) + IdleTime(s, ops) == EndClock(LastClock(s), ops) - LastClock(s)
    ensures IDLE in s.threads && IDLE in Run(s, ops).threads
    ensures Run(s, ops).threads[IDLE].runtime == s.threads[IDLE].runtime
    decreases |ops|
  {
    hide RunInv, Step, Below, Fits, Total, OpOk, CreatesBelow, PicksItself;
    IdleKnown(s);
    if ops != [] {
      var clock := ClockOf(ops[0], LastClock(s));
      EndAfter(clock, ops[1..]);
      AccountStep(s, ops[0], n, EndClock(LastClock(s), ops));
      TimeAccounted(Step(s, ops[0]), ops[1..], n);
    }
  }

  lemma {:induction false} NothingUncharged(s: State, ops: seq<Op>)
    requires forall i :: 0 <= i < |ops| ==> !ops[i].DoReschedule?
    ensures Uncharged(s, ops) == 0
    decreases |ops|
  {
    hide Step;
    if ops != [] {
      NothingUncharged(Step(s, ops[0]), ops[1..]);
    }
  }

  /** Without calls of reschedule, in particular over every run of interrupts, the runtimes of the
      threads other than idle grow by exactly the time in which idle was not running. */
  lemma InterruptsAccount(s: State, ops: seq<Op>, n: nat)
    requires RunInv(s) && Below(s, n) && InOrder(LastClock(s), ops)
    requires forall i :: 0 <= i < |ops| ==> OpOk(ops[i]) && CreatesBelow(ops[i], n) && !ops[i].DoReschedule?
    requires Fits(s, n, EndClock(LastClock(s), ops))
    ensures Total(Run(s, ops), n) == Total(s, n) + Busy(s, ops)
  {
    hide RunInv, Run, Below, Fits, Total, OpOk, CreatesBelow, Uncharged;
    TimeAccounted(s, ops, n);
    NothingUncharged(s, ops);
  }
}
