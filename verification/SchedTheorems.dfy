/** What every history of queues, timers and the scheduler satisfies. */
module SchedTheorems {
  import Blocks
  import opened Machine
  import opened Seqs
  import opened Sched

  // ---------------------------------------------------------------- queues

  ghost predicate Apart(xs: seq<nat>, ys: seq<nat>) {
    forall t :: t in xs ==> t !in ys
  }

  /** Every queued thread exists and is in one queue, once; every timer is that of a thread. */
  ghost predicate QueuesOk(s: State) {
    && Distinct(s.running) && Distinct(s.sleeping) && Distinct(s.stopped)
    && Apart(s.running, s.sleeping) && Apart(s.running, s.stopped) && Apart(s.sleeping, s.stopped)
    && (forall t :: t in s.running || t in s.sleeping || t in s.stopped ==> t in s.threads)
    && (forall i :: 0 <= i < |s.timers| ==> s.timers[i].thread in s.threads)
  }

  lemma UnqueuedKeeps(s: State, t: nat)
    requires QueuesOk(s)
    ensures var u := Unqueued(s, t);
            && QueuesOk(u) && t !in u.running && t !in u.sleeping && t !in u.stopped
            && (forall x :: x != t ==> (x in u.running <==> x in s.running))
            && (forall x :: x != t ==> (x in u.sleeping <==> x in s.sleeping))
            && (forall x :: x != t ==> (x in u.stopped <==> x in s.stopped))
  {
    RemoveFacts(s.running, t);
    RemoveFacts(s.sleeping, t);
    RemoveFacts(s.stopped, t);
  }

  lemma SetStateKeeps(s: State, t: nat, st: TaskState)
    requires QueuesOk(s)
    ensures QueuesOk(SetState(s, t, st))
  {
  }

  /** Each move takes the thread out of whichever queue it is in and puts it into one; the
      idle thread cannot be put to sleep or stopped. */
  lemma MovesKeep(s: State, t: nat)
    requires QueuesOk(s)
    ensures QueuesOk(Sleep(s, t)) && QueuesOk(Stop(s, t)) && QueuesOk(Wake(s, t))
    ensures IDLE in s.running ==>
              IDLE in Sleep(s, t).running && IDLE in Stop(s, t).running && IDLE in Wake(s, t).running
    ensures t in s.threads ==> t in Wake(s, t).running
    ensures t in s.threads && t != IDLE ==> t in Sleep(s, t).sleeping && t in Stop(s, t).stopped
  {
    hide Distinct, Remove, SetState;
    SetStateKeeps(s, t, Interruptible);
    SetStateKeeps(s, t, TaskState.Stopped);
    SetStateKeeps(s, t, Runnable);
    StateOnly(s, t, Interruptible);
    StateOnly(s, t, TaskState.Stopped);
    StateOnly(s, t, Runnable);
    var a, b, c := SetState(s, t, Interruptible), SetState(s, t, TaskState.Stopped), SetState(s, t, Runnable);
    UnqueuedKeeps(a, t);
    UnqueuedKeeps(b, t);
    UnqueuedKeeps(c, t);
    DistinctExtended(Unqueued(a, t).sleeping, t);
    DistinctExtended(Unqueued(b, t).stopped, t);
    DistinctExtended(Unqueued(c, t).running, t);
  }

  /** `ys` is `xs` without the thread, in the old order. */
  ghost predicate TakenOut(xs: seq<nat>, ys: seq<nat>, t: nat) {
    if t in xs then exists i :: 0 <= i < |xs| && xs[i] == t && ys == xs[..i] + xs[i + 1..] else ys == xs
  }

  lemma RemoveTakesOut(xs: seq<nat>, t: nat)
    requires Distinct(xs)
    ensures TakenOut(xs, Remove(xs, t), t)
  {
    if t in xs {
      var i: nat :| i < |xs| && xs[i] == t;
      RemoveAtIndex(xs, i);
    } else {
      RemoveAbsent(xs, t);
    }
  }

  /** One thread has got the given state; nothing else differs but the queues. */
  ghost predicate OnlyState(s: State, u: State, t: nat, st: TaskState) {
    && t in s.threads && u.threads == s.threads[t := s.threads[t].(state := st)]
    && u.timers == s.timers && u.tick == s.tick && u.current == s.current
  }

  /** A woken thread is the last of the running queue and runnable; one put to sleep or stopped is
      the first of its queue, in its state. The rest of the three queues keeps its order, nothing
      else changes, and the idle thread is not moved by sleep and stop. */
  lemma MovesExactly(s: State, t: nat)
    requires QueuesOk(s) && t in s.threads
    ensures var u := Wake(s, t);
            && OnlyState(s, u, t, Runnable)
            && u.running != [] && u.running[|u.running| - 1] == t
            && TakenOut(s.running, u.running[..|u.running| - 1], t)
            && TakenOut(s.sleeping, u.sleeping, t) && TakenOut(s.stopped, u.stopped, t)
    ensures t != IDLE ==> var u := Sleep(s, t);
            && OnlyState(s, u, t, Interruptible)
            && u.sleeping != [] && u.sleeping[0] == t && TakenOut(s.sleeping, u.sleeping[1..], t)
            && TakenOut(s.running, u.running, t) && TakenOut(s.stopped, u.stopped, t)
    ensures t != IDLE ==> var u := Stop(s, t);
            && OnlyState(s, u, t, TaskState.Stopped)
            && u.stopped != [] && u.stopped[0] == t && TakenOut(s.stopped, u.stopped[1..], t)
            && TakenOut(s.running, u.running, t) && TakenOut(s.sleeping, u.sleeping, t)
    ensures Sleep(s, IDLE) == s && Stop(s, IDLE) == s
  {
    hide TakenOut, Remove, Distinct;
    RemoveTakesOut(s.running, t);
    RemoveTakesOut(s.sleeping, t);
    RemoveTakesOut(s.stopped, t);
    var r := Remove(s.running, t) + [t];
    assert r[..|r| - 1] == Remove(s.running, t);
    assert ([t] + Remove(s.sleeping, t))[1..] == Remove(s.sleeping, t);
    assert ([t] + Remove(s.stopped, t))[1..] == Remove(s.stopped, t);
  }

  lemma StateOnly(s: State, t: nat, st: TaskState)
    ensures SetState(s, t, st) == s.(threads := SetState(s, t, st).threads)
    ensures SetState(s, t, st).threads.Keys == s.threads.Keys
  {
  }

  // ---------------------------------------------------------------- waking by timer

  /** `xs` without the threads of `ws`. */
  function Drop(xs: seq<nat>, ws: seq<nat>): seq<nat> {
    if xs == [] then [] else (if xs[0] in ws then [] else [xs[0]]) + Drop(xs[1..], ws)
  }

  /** The last occurrence of every member, in order. */
  function Last(ws: seq<nat>): seq<nat> {
    if ws == [] then [] else (if ws[0] in ws[1..] then [] else [ws[0]]) + Last(ws[1..])
  }

  function Threads(timers: seq<Timer>): (r: seq<nat>)
    ensures |r| == |timers| && forall i :: 0 <= i < |r| ==> r[i] == timers[i].thread
  {
    seq(|timers|, i requires 0 <= i < |timers| => timers[i].thread)
  }

  lemma {:induction false} DropAppend(xs: seq<nat>, ys: seq<nat>, ws: seq<nat>)
    ensures Drop(xs + ys, ws) == Drop(xs, ws) + Drop(ys, ws)
  {
    if xs == [] {
      assert xs + ys == ys;
    } else {
      assert (xs + ys)[1..] == xs[1..] + ys;
      DropAppend(xs[1..], ys, ws);
    }
  }

  lemma {:induction false} DropRemoved(xs: seq<nat>, w: nat, ws: seq<nat>)
    requires Distinct(xs)
    ensures Drop(Remove(xs, w), ws) == Drop(xs, [w] + ws)
  {
    if xs != [] {
      DistinctTail(xs);
      if xs[0] == w {
        RemoveAbsent(xs[1..], w);
      }
      DropRemoved(xs[1..], w, ws);
    }
  }

  lemma {:induction false} DropNothing(xs: seq<nat>)
    ensures Drop(xs, []) == xs
  {
    if xs != [] {
      DropNothing(xs[1..]);
    }
  }

  /** What waking the threads `ws` one after the other does to the queues. */
  ghost predicate Awoken(s: State, t: State, ws: seq<nat>) {
    && t.running == Drop(s.running, ws) + Last(ws)
    && t.sleeping == Drop(s.sleeping, ws) && t.stopped == Drop(s.stopped, ws)
    && t.threads.Keys == s.threads.Keys
    && (forall x :: x in s.threads ==> t.threads[x] == if x in ws then s.threads[x].(state := Runnable)
        else s.threads[x])
    && t.tick == s.tick && t.current == s.current
  }

  lemma WakeFirst(s: State, t: State, w: nat, ws: seq<nat>)
    requires QueuesOk(s) && w in s.threads && Awoken(Wake(s, w), t, ws)
    ensures Awoken(s, t, [w] + ws)
  {
    hide Drop;
    DropRemoved(s.running, w, ws);
    DropRemoved(s.sleeping, w, ws);
    DropRemoved(s.stopped, w, ws);
    DropAppend(Remove(s.running, w), [w], ws);
    DropSingle(w, ws);
    var all := [w] + ws;
    assert all[1..] == ws;
    assert Last(all) == (if w in ws then [] else [w]) + Last(ws);
    assert Drop(s.running, all) + (if w in ws then [] else [w]) + Last(ws) == Drop(s.running, all) + Last(all);
  }

  lemma DropSingle(w: nat, ws: seq<nat>)
    ensures Drop([w], ws) == if w in ws then [] else [w]
  {
    assert [w][1..] == [];
  }

  lemma {:induction false} WakeLoopEffect(s: State, left: seq<Timer>, rest: seq<Timer>)
    requires QueuesOk(s) && forall i :: 0 <= i < |rest| ==> rest[i].thread in s.threads
    requires forall i :: 0 <= i < |left| ==> left[i].thread in s.threads
    ensures var t := WakeLoop(s, left, rest);
            && QueuesOk(t) && t.timers == left + Unexpired(rest, s.tick)
            && Awoken(s, t, Threads(Expired(rest, s.tick)))
            && (IDLE in s.running ==> IDLE in t.running)
    decreases |rest|
  {
    hide QueuesOk, Wake, Awoken;
    if rest == [] {
      NothingAwoken(s, left);
    } else if s.tick >= rest[0].expiration {
      var u := Wake(s, rest[0].thread);
      MovesKeep(s, rest[0].thread);
      WakeShape(s, rest[0].thread);
      WakeLoopEffect(u, left, rest[1..]);
      var t := WakeLoop(s, left, rest);
      WakeFirst(s, t, rest[0].thread, Threads(Expired(rest[1..], s.tick)));
      assert Threads(Expired(rest, s.tick)) == [rest[0].thread] + Threads(Expired(rest[1..], s.tick));
    } else {
      WakeLoopEffect(s, left + [rest[0]], rest[1..]);
      assert left + [rest[0]] + Unexpired(rest[1..], s.tick) == left + Unexpired(rest, s.tick);
      assert Expired(rest, s.tick) == Expired(rest[1..], s.tick);
    }
  }

  lemma WakeShape(s: State, t: nat)
    ensures Wake(s, t).threads.Keys == s.threads.Keys && Wake(s, t).tick == s.tick && Wake(s, t).timers == s.timers
  {
  }

  lemma NothingAwoken(s: State, left: seq<Timer>)
    requires QueuesOk(s) && forall i :: 0 <= i < |left| ==> left[i].thread in s.threads
    ensures Awoken(s, s.(timers := left), []) && QueuesOk(s.(timers := left))
    ensures left + [] == left
  {
    DropNothing(s.running);
    DropNothing(s.sleeping);
    DropNothing(s.stopped);
    assert s.running + [] == s.running;
  }

  /** wake_up_timers leaves exactly the timers that are not due, in their old order, and moves
      the threads of the others to the tail of the running queue in the order of the list. */
  lemma WakeUpTimersEffect(s: State)
    requires QueuesOk(s)
    ensures var t := WakeUpTimers(s);
            && QueuesOk(t) && t.timers == Unexpired(s.timers, s.tick)
            && Awoken(s, t, Threads(Expired(s.timers, s.tick)))
            && (IDLE in s.running ==> IDLE in t.running)
  {
    WakeLoopEffect(s, [], s.timers);
    assert [] + Unexpired(s.timers, s.tick) == Unexpired(s.timers, s.tick);
  }

  /** The split is exact: every timer is on one side, and by its own expiration. */
  lemma {:induction false} TimersSplit(timers: seq<Timer>, tick: nat)
    ensures forall x :: x in Expired(timers, tick) <==> x in timers && tick >= x.expiration
    ensures forall x :: x in Unexpired(timers, tick) <==> x in timers && tick < x.expiration
    ensures multiset(timers) == multiset(Expired(timers, tick)) + multiset(Unexpired(timers, tick))
  {
    if timers != [] {
      TimersSplit(timers[1..], tick);
      assert timers == [timers[0]] + timers[1..];
    }
  }

  /** The expiration is the tick `ms` milliseconds ahead exactly when the product and the sum fit
      in 32 bits; otherwise it lies before, so a sleeper is never woken late by its timer, and
      never early under these two conditions only. */
  lemma SleepsLongEnough(ms: nat, tick: nat)
    ensures Expiration(ms, tick) <= tick + ms * RTC_FREQ / 1000
    ensures Expiration(ms, tick) == tick + ms * RTC_FREQ / 1000 <==> ms < 0x20_0000 && tick + ms * RTC_FREQ / 1000 < U32
  {
    var p := ms * RTC_FREQ;
    assert p % U32 <= p;
    if ms >= 0x20_0000 {
      assert p % U32 < U32 <= p;
      assert p >= p % U32 + U32;
      assert p / 1000 > p % U32 / 1000;
    }
  }

  // ---------------------------------------------------------------- timeslices

  /** The largest timeslice, 200 ms in ticks. */
  const MAX_SLICE := 409

  lemma MillisOrder(a: nat, b: nat)
    requires a <= b <= MAX_QUANTUM_MS
    ensures MillisToTicks(a) <= MillisToTicks(b)
  {
  }

  lemma QuotientBound(total: nat, n: nat, bound: nat)
    requires n >= 1 && total <= bound * n
    ensures total / n <= bound
  {
    var q := total / n;
    assert total == q * n + total % n;
    assert (q - bound) * n == q * n - bound * n;
    Blocks.NonzeroMultiple(q - bound, n);
  }

  /** With nicenesses up to 20 every timeslice lies between 1 ms and 200 ms in ticks. */
  lemma TimesliceRange(n: nat, total: nat, nice: nat)
    requires n >= 1 && total <= MIN_PRIORITY * n && nice <= total
    requires n == 1 ==> total == nice
    ensures 2 <= Timeslice(n, total, nice) <= MAX_SLICE
  {
    hide MillisToTicks, Quantum;
    QuantumBound(n, total, nice);
    SliceBound(Quantum(n, total, nice));
  }

  /** At most 200 ms, whatever the nicenesses. */
  lemma QuantumBound(n: nat, total: nat, nice: nat)
    requires n >= 1 && total <= MIN_PRIORITY * n && nice <= total && (n == 1 ==> total == nice)
    ensures Quantum(n, total, nice) <= MAX_QUANTUM_MS
  {
    if n == 1 {
      assert total / n == nice && MAX_QUANTUM_MS / n == 200;
    } else {
      QuotientBound(total, n, MIN_PRIORITY);
      QuotientBound(MAX_QUANTUM_MS, n, 100);
      PenaltyBound(MAX_QUANTUM_MS / n, total / n, nice);
    }
  }

  lemma PenaltyBound(share: nat, average: nat, nice: nat)
    requires share <= 100 && average <= MIN_PRIORITY
    ensures share + (average - nice) * P_PENALTY <= MAX_QUANTUM_MS
  {
  }

  lemma SliceBound(q: int)
    requires q <= MAX_QUANTUM_MS
    ensures 2 <= (if q <= 0 then MillisToTicks(MIN_QUANTUM_MS) else MillisToTicks(q)) <= MAX_SLICE
  {
    if q > 0 {
      MillisOrder(1, q);
      MillisOrder(q, MAX_QUANTUM_MS);
    }
  }

  /** Both ends are reached. */
  lemma TimesliceRangeTight()
    ensures Timeslice(1, 0, 0) == MAX_SLICE && Timeslice(20, 0, 0) == 20 && Timeslice(20, 60, 20) == 2
  {
  }

  ghost predicate NicesOk(s: State) {
    forall t :: t in s.threads ==> s.threads[t].nice <= MIN_PRIORITY
  }

  lemma {:induction false} NiceSumBound(s: State, xs: seq<nat>, n: nat, k: nat)
    requires NicesOk(s) && n <= |xs|
    ensures NiceSum(s, xs, n) <= MIN_PRIORITY * n
    ensures k < n ==> NiceOf(s, xs[k]) <= NiceSum(s, xs, n)
    ensures k < n && n == 1 ==> NiceOf(s, xs[k]) == NiceSum(s, xs, n)
  {
    if n > 0 {
      NiceSumBound(s, xs, n - 1, k);
      assert n == 1 ==> NiceSum(s, xs, n - 1) == 0;
    }
  }

  /** pick_next_thread returns the first thread of least runtime in the running queue and gives
      it a timeslice in range; it changes nothing else. */
  lemma PickEffect(s: State)
    requires s.running != [] && NicesOk(s) && Next(s) in s.threads
    ensures Next(s) in s.running && forall t :: t in s.running ==> RuntimeOf(s, Next(s)) <= RuntimeOf(s, t)
    ensures var slice := Pick(s).threads[Next(s)].timeslice;
            2 <= slice <= MAX_SLICE && Pick(s) == SetThread(s, Next(s), s.threads[Next(s)].(timeslice := slice))
  {
    var n := |s.running|;
    var k := FirstMin(s, s.running, n);
    NiceSumBound(s, s.running, n, k);
    TimesliceRange(n, NiceSum(s, s.running, n), s.threads[Next(s)].nice);
  }

  /** The nicenesses of a queue, added up from its head. */
  function Nicenesses(s: State, xs: seq<nat>): nat {
    if xs == [] then 0 else (if xs[0] in s.threads then s.threads[xs[0]].nice else 0) + Nicenesses(s, xs[1..])
  }

  lemma {:induction false} NicenessesEnd(s: State, xs: seq<nat>, n: nat)
    requires 1 <= n <= |xs|
    ensures Nicenesses(s, xs[..n]) == Nicenesses(s, xs[..n - 1]) + NiceOf(s, xs[n - 1])
  {
    var a, b := xs[..n], xs[..n - 1];
    if n == 1 {
      assert a[1..] == [] && b == [];
    } else {
      assert a[1..] == xs[1..][..n - 1] && b[1..] == xs[1..][..n - 2];
      NicenessesEnd(s, xs[1..], n - 1);
    }
  }

  lemma {:induction false} NicenessesAdded(s: State, xs: seq<nat>, n: nat)
    requires n <= |xs|
    ensures NiceSum(s, xs, n) == Nicenesses(s, xs[..n])
  {
    if n > 0 {
      NicenessesAdded(s, xs, n - 1);
      NicenessesEnd(s, xs, n);
    }
  }

  // ---------------------------------------------------------------- every history

  ghost predicate RunInv(s: State) {
    && QueuesOk(s) && IDLE in s.running && s.current in s.threads && NicesOk(s)
    && (forall t :: t in s.threads ==> s.threads[t].activated < U64)
    && s.threads[s.current].timeslice <= MAX_SLICE
  }

  /** The clock of an operation is a 64-bit number; new threads have a niceness of at most 20. */
  predicate OpOk(op: Op) {
    match op
    case DoCreate(_, nice) => nice <= MIN_PRIORITY
    case DoSleepMs(_, _, now) => now < U64
    case DoReschedule(now) => now < U64
    case DoTick(now) => now < U64
    case _ => true
  }

  /** Only queues and thread states differ. */
  ghost predicate SameButStates(s: State, t: State) {
    && t.threads.Keys == s.threads.Keys && t.current == s.current
    && forall x :: x in s.threads ==> t.threads[x] == s.threads[x].(state := t.threads[x].state)
  }

  lemma MovesSame(s: State, t: nat)
    ensures SameButStates(s, Sleep(s, t)) && SameButStates(s, Stop(s, t)) && SameButStates(s, Wake(s, t))
  {
  }

  lemma MoveRunInv(s: State, t: State)
    requires RunInv(s) && QueuesOk(t) && IDLE in t.running && SameButStates(s, t)
    ensures RunInv(t)
  {
  }

  /** Only timeslices, runtimes and activations differ, and who is current. */
  ghost predicate SameQueues(s: State, t: State) {
    && t.running == s.running && t.sleeping == s.sleeping && t.stopped == s.stopped && t.timers == s.timers
    && t.threads.Keys == s.threads.Keys && t.current in t.threads
    && (forall x :: x in s.threads ==>
          && t.threads[x].nice == s.threads[x].nice && t.threads[x].state == s.threads[x].state
          && t.threads[x].activated < U64)
    && t.threads[t.current].timeslice <= MAX_SLICE
  }

  lemma SwitchRunInv(s: State, t: State)
    requires RunInv(s) && SameQueues(s, t)
    ensures RunInv(t)
  {
  }

  /** What every pick may rely on, and what it leaves. */
  lemma PickSame(s: State)
    requires RunInv(s)
    ensures CanSchedule(s) && Next(s) in s.running && Next(s) in s.threads
    ensures var slice := Pick(s).threads[Next(s)].timeslice;
            2 <= slice <= MAX_SLICE && Pick(s) == SetThread(s, Next(s), s.threads[Next(s)].(timeslice := slice))
  {
    hide Pick, Distinct;
    PickEffect(s);
  }

  // ---------------------------------------------------------------- what a pick is worth

  /** The average niceness of the running queue, rounded down. */
  function Average(s: State): nat
    requires s.running != []
  {
    Nicenesses(s, s.running) / |s.running|
  }

  /** A time in ticks, at 2048 ticks a second; what is not positive counts as one millisecond. */
  function InTicks(ms: int): int {
    if ms <= 0 then 2 else ms * 2048 / 1000
  }

  lemma SliceInTicks(n: nat, total: nat, nice: nat)
    requires n >= 1 && total <= MIN_PRIORITY * n && nice <= total && (n == 1 ==> total == nice)
    ensures Timeslice(n, total, nice) == InTicks(200 / n + 5 * (total / n - nice))
  {
    hide MillisToTicks, InTicks;
    QuantumBound(n, total, nice);
    QuantumTicks(Quantum(n, total, nice));
  }

  lemma QuantumTicks(ms: int)
    requires ms <= 200
    ensures InTicks(ms) == if ms <= 0 then MillisToTicks(MIN_QUANTUM_MS) else MillisToTicks(ms)
  {
  }

  /** Every pick: the thread is the first of least runtime in the running queue. It gets its share
      of 200 ms, and 5 ms for each step by which its niceness is below the average of the queue. */
  lemma PickSlice(s: State)
    requires RunInv(s)
    ensures Next(s) in s.threads
    ensures Pick(s).threads[Next(s)].timeslice
            == InTicks(200 / |s.running| + 5 * (Average(s) - s.threads[Next(s)].nice))
    ensures exists k :: 0 <= k < |s.running| && s.running[k] == Next(s) && FirstLeast(s, k)
  {
    hide QueuesOk, Timeslice, InTicks;
    var n := |s.running|;
    var k := FirstMin(s, s.running, n);
    QueueKnown(s);
    assert FirstLeast(s, k);
    NiceSumBound(s, s.running, n, k);
    NicenessesAdded(s, s.running, n);
    assert s.running[..n] == s.running;
    SliceInTicks(n, NiceSum(s, s.running, n), s.threads[Next(s)].nice);
  }

  lemma QueueKnown(s: State)
    requires RunInv(s)
    ensures s.running != [] && forall i :: 0 <= i < |s.running| ==> s.running[i] in s.threads
  {
  }

  /** At position `k` of the running queue is the first thread of least runtime. */
  ghost predicate FirstLeast(s: State, k: nat) {
    k < |s.running| && forall i {:trigger s.running[i]} :: 0 <= i < |s.running| ==>
      && s.running[k] in s.threads && s.running[i] in s.threads
      && s.threads[s.running[k]].runtime <= s.threads[s.running[i]].runtime
      && (i < k ==> s.threads[s.running[k]].runtime < s.threads[s.running[i]].runtime)
  }

  /** Of two threads picked from queues of the same length and average niceness each step of
      niceness costs exactly 5 ms, down to the minimum of 1 ms; one of average niceness gets its
      plain share of 200 ms. */
  lemma NicenessCosts(s: State, t: State) returns (ms: int)
    requires RunInv(s) && RunInv(t) && |s.running| == |t.running| && Average(s) == Average(t)
    ensures Next(s) in s.threads && Next(t) in t.threads
    ensures Pick(s).threads[Next(s)].timeslice == InTicks(ms)
    ensures Pick(t).threads[Next(t)].timeslice
            == InTicks(ms - 5 * (t.threads[Next(t)].nice - s.threads[Next(s)].nice))
    ensures s.threads[Next(s)].nice == Average(s) ==> ms == 200 / |s.running|
  {
    hide RunInv, Pick, Next, Average, InTicks;
    PickSlice(s);
    PickSlice(t);
    QueueKnown(s);
    ms := 200 / |s.running| + 5 * (Average(s) - s.threads[Next(s)].nice);
  }

  /** A thread whose handicap uses up its share gets 1 ms, and exactly such a thread. */
  lemma HandicapUsesUp(s: State)
    requires RunInv(s)
    ensures Next(s) in s.threads
    ensures Pick(s).threads[Next(s)].timeslice == 2
            <==> 5 * (s.threads[Next(s)].nice - Average(s)) >= 200 / |s.running| - 1
  {
    hide RunInv, Pick, Next, Average;
    PickSlice(s);
    QueueKnown(s);
    TwoTicks(200 / |s.running| + 5 * (Average(s) - s.threads[Next(s)].nice));
  }

  lemma TwoTicks(ms: int)
    ensures InTicks(ms) == 2 <==> ms <= 1
  {
  }

  /** Idle and one thread, with these nicenesses. */
  function Pair(idle: nat, nice: nat): State {
    State(map[IDLE := Thread(idle, IDLE_RUNTIME, 0, 5, Runnable), 1 := Thread(nice, 0, 0, 0, Runnable)],
          [IDLE, 1], [], [], [], 0, IDLE)
  }

  /** Of two threads with nicenesses 10 and 0 the second gets 125 ms, with nicenesses 0 and 20 it
      gets 50 ms. */
  lemma PickInstances()
    ensures RunInv(Pair(10, 0)) && Next(Pair(10, 0)) == 1 && Pick(Pair(10, 0)).threads[1].timeslice == 256
    ensures RunInv(Pair(0, 20)) && Next(Pair(0, 20)) == 1 && Pick(Pair(0, 20)).threads[1].timeslice == 102
  {
    PairSlice(10, 0);
    PairSlice(0, 20);
  }

  lemma PairSlice(idle: nat, nice: nat)
    requires idle <= MIN_PRIORITY && nice <= MIN_PRIORITY
    ensures RunInv(Pair(idle, nice)) && Next(Pair(idle, nice)) == 1
    ensures Pick(Pair(idle, nice)).threads[1].timeslice == InTicks(100 + 5 * ((idle + nice) / 2 - nice))
  {
    hide InTicks;
    var s := Pair(idle, nice);
    PairNext(idle, nice);
    PickSlice(s);
    assert s.running[1..] == [1] && [1][1..] == [];
    assert Nicenesses(s, [1]) == nice;
  }

  lemma PairNext(idle: nat, nice: nat)
    requires idle <= MIN_PRIORITY && nice <= MIN_PRIORITY
    ensures RunInv(Pair(idle, nice)) && Next(Pair(idle, nice)) == 1
  {
    assert FirstMin(Pair(idle, nice), [IDLE, 1], 1) == 0;
  }

  lemma HandOverSame(s: State, next: nat, slice: nat, now: nat)
    requires RunInv(s) && next in s.threads && 2 <= slice <= MAX_SLICE && now < U64
    ensures var p := SetThread(s, next, s.threads[next].(timeslice := slice));
            && next in p.threads && p.current in p.threads && p.threads[p.current].activated < U64
            && SameQueues(s, HandOver(p, next, now)) && HandOver(p, next, now).current == next
  {
    hide QueuesOk, NicesOk, Charged;
  }

  lemma RescheduleSame(s: State, now: nat)
    requires RunInv(s) && CanSchedule(s) && now < U64
    ensures SameQueues(s, Reschedule(s, now)) && Reschedule(s, now).current in s.running
  {
    hide QueuesOk, NicesOk, Pick, Next, HandOver, SameQueues;
    PickSame(s);
    HandOverSame(s, Next(s), Pick(s).threads[Next(s)].timeslice, now);
  }

  // ---------------------------------------------------------------- what reschedule charges

  /** What reschedule leaves of the thread that calls it. */
  lemma CallerAfter(s: State, now: nat)
    requires RunInv(s) && now < U64
    ensures CanSchedule(s) && s.current in Reschedule(s, now).threads
    ensures var c := s.threads[s.current];
            var d := Reschedule(s, now).threads[s.current];
            if s.current == IDLE then d.runtime == c.runtime && d.timeslice <= MAX_SLICE
            else if Next(s) == s.current then d.runtime == c.runtime % U64 && d.timeslice < MAX_SLICE
            else d.runtime == Charged(c, now) && d.timeslice == (c.timeslice + U32 - 1) % U32
  {
    hide QueuesOk, NicesOk, Pick, Next;
    PickSame(s);
  }

  lemma ChargeExact(t: Thread, now: nat)
    requires t.activated < U64 && t.activated <= now < U64 && t.runtime + (now - t.activated) < U64
    ensures Charged(t, now) == t.runtime + (now - t.activated)
  {
  }

  /** When the thread that calls reschedule is charged for the time since its activation: exactly
      if it is not picked again, or no time has passed. A thread that is picked again has its
      activation overwritten before the charge is computed. */
  lemma ChargedExactly(s: State, now: nat)
    requires RunInv(s) && s.current != IDLE && now < U64
    requires var c := s.threads[s.current]; c.activated <= now && c.runtime + (now - c.activated) < U64
    ensures CanSchedule(s) && s.current in Reschedule(s, now).threads
    ensures var c := s.threads[s.current];
            Reschedule(s, now).threads[s.current].runtime == c.runtime + (now - c.activated)
            <==> Next(s) != s.current || now == c.activated
  {
    hide RunInv, Reschedule, Next, Charged;
    CallerAfter(s, now);
    ScheduleReady(s);
    CurrentKnown(s);
    ChargeExact(s.threads[s.current], now);
  }

  lemma CurrentKnown(s: State)
    requires RunInv(s)
    ensures s.current in s.threads && s.threads[s.current].activated < U64
    ensures s.threads[s.current].timeslice <= MAX_SLICE
  {
  }

  /** When its decrement of the timeslice wraps around in 32 bits: exactly if another thread is
      picked while the caller's timeslice is used up. */
  lemma SliceWrapsExactly(s: State, now: nat)
    requires RunInv(s) && now < U64
    ensures CanSchedule(s) && s.current in Reschedule(s, now).threads
    ensures Reschedule(s, now).threads[s.current].timeslice == U32 - 1
            <==> s.current != IDLE && Next(s) != s.current && s.threads[s.current].timeslice == 0
  {
    hide RunInv, Reschedule, Next, Charged;
    CallerAfter(s, now);
    CurrentKnown(s);
  }

  /** Idle and two threads; thread 1 runs, with the given runtime and timeslice. */
  function Three(runtime: nat, timeslice: nat): State {
    State(map[IDLE := Thread(20, IDLE_RUNTIME, 0, 5, Runnable), 1 := Thread(5, runtime, 10, timeslice, Runnable),
              2 := Thread(5, 200, 0, 5, Runnable)],
          [IDLE, 1, 2], [], [], [], 0, 1)
  }

  lemma ThreeRunInv(runtime: nat, timeslice: nat)
    requires timeslice <= MAX_SLICE
    ensures RunInv(Three(runtime, timeslice))
    ensures Next(Three(runtime, timeslice)) == if runtime <= 200 then 1 else 2
  {
    var s := Three(runtime, timeslice);
    assert FirstMin(s, s.running, 1) == 0;
    assert FirstMin(s, s.running, 2) == if runtime < IDLE_RUNTIME then 1 else 0;
  }

  /** Both happen: 40 cycles of a thread that is picked again go uncharged, and a used-up
      timeslice becomes the largest number. */
  lemma ReschedulePeculiar()
    ensures RunInv(Three(100, 5)) && CanSchedule(Three(100, 5))
    ensures Reschedule(Three(100, 5), 50).threads[1].runtime == 100
    ensures RunInv(Three(300, 0)) && CanSchedule(Three(300, 0))
    ensures Reschedule(Three(300, 0), 50).threads[1].timeslice == U32 - 1
  {
    hide RunInv, Reschedule, Next;
    ThreeRunInv(100, 5);
    ThreeRunInv(300, 0);
    CallerAfter(Three(100, 5), 50);
    SliceWrapsExactly(Three(300, 0), 50);
  }

  lemma WakeUpRunInv(s: State)
    requires RunInv(s)
    ensures var u := WakeUpTimers(s.(tick := s.tick + 1)); RunInv(u) && CanSchedule(u)
  {
    hide WakeUpTimers;
    var t := s.(tick := s.tick + 1);
    WakeUpTimersEffect(t);
    MoveRunInv(t, WakeUpTimers(t));
  }

  lemma KeepSame(s: State, next: nat, slice: nat, now: nat)
    requires RunInv(s) && next in s.threads && slice <= MAX_SLICE && now < U64
    ensures var p := SetThread(s, next, s.threads[next].(timeslice := slice));
            && p.current in p.threads && p.threads[p.current].activated < U64
            && SameQueues(s, KeepRunning(p, now)) && KeepRunning(p, now).current == s.current
            && SameQueues(s, SwitchTo(p, next, now)) && SwitchTo(p, next, now).current == next
  {
    hide QueuesOk, NicesOk, Charged;
  }

  /** The interrupt keeps the queues as its wake-ups leave them. */
  lemma HandlerSame(s: State, now: nat)
    requires RunInv(s) && now < U64
    ensures CanSchedule(s) && SameQueues(WakeUpTimers(s.(tick := s.tick + 1)), Handler(s, now))
    ensures var u := WakeUpTimers(s.(tick := s.tick + 1));
            Handler(s, now).current == u.current || Handler(s, now).current in u.running
  {
    hide QueuesOk, NicesOk, WakeUpTimers, Pick, Next, KeepRunning, SwitchTo, SameQueues;
    ScheduleReady(s);
    WakeUpRunInv(s);
    var u := WakeUpTimers(s.(tick := s.tick + 1));
    PickSame(u);
    KeepSame(u, Next(u), Pick(u).threads[Next(u)].timeslice, now);
    KeepSame(u, u.current, u.threads[u.current].timeslice, now);
    assert SetThread(u, u.current, u.threads[u.current].(timeslice := u.threads[u.current].timeslice)) == u;
  }

  /** A new thread is on no queue and changes nothing else. */
  lemma CreateKeeps(s: State, pid: nat, nice: nat)
    requires RunInv(s) && nice <= MIN_PRIORITY
    ensures RunInv(Create(s, pid, nice)) && CanSchedule(Create(s, pid, nice))
    ensures pid !in s.threads ==> forall t :: t in s.running || t in s.sleeping || t in s.stopped ==> t != pid
    ensures Create(s, pid, nice) == s.(threads := Create(s, pid, nice).threads)
    ensures forall t :: t in s.threads ==>
              t in Create(s, pid, nice).threads && Create(s, pid, nice).threads[t] == s.threads[t]
    ensures pid !in s.threads ==> Create(s, pid, nice).threads == s.threads[pid := Thread(nice, 0, 0, 0, Runnable)]
  {
  }

  /** A new thread, once woken, is ready, and from then on no thread that has run is picked before
      one that has not. */
  lemma NewcomerFirst(s: State, pid: nat, nice: nat)
    requires RunInv(s) && nice <= MIN_PRIORITY && pid !in s.threads
    ensures var u := Wake(Create(s, pid, nice), pid);
            && RunInv(u) && pid in u.running && Next(u) in u.threads && u.threads[Next(u)].runtime == 0
  {
    hide QueuesOk, Next, FirstLeast;
    var c := Create(s, pid, nice);
    CreateKeeps(s, pid, nice);
    MovesKeep(c, pid);
    MovesSame(c, pid);
    var u := Wake(c, pid);
    MoveRunInv(c, u);
    PickSlice(u);
    var k :| 0 <= k < |u.running| && u.running[k] == Next(u) && FirstLeast(u, k);
    var j :| 0 <= j < |u.running| && u.running[j] == pid;
    LeastBelow(u, k, j);
  }

  lemma LeastBelow(s: State, k: nat, j: nat)
    requires FirstLeast(s, k) && j < |s.running|
    ensures s.running[k] in s.threads && s.running[j] in s.threads
    ensures s.threads[s.running[k]].runtime <= s.threads[s.running[j]].runtime
  {
  }

  /** Whatever threads are created, sleep, stop, wake each other and are switched to, every thread is in at
      most one queue, idle stays ready to run, so no pick divides by zero, and the thread that
      runs has a timeslice of at most 200 ms. */
  lemma StepKeeps(s: State, op: Op)
    requires RunInv(s) && OpOk(op)
    ensures RunInv(Step(s, op)) && CanSchedule(s) && CanSchedule(Step(s, op))
  {
    hide QueuesOk, Sleep, Stop, Wake, Reschedule, Handler, NicesOk, WakeUpTimers;
    match op {
      case DoCreate(pid, nice) => CreateKeeps(s, pid, nice);
      case DoSleep(t) => MovesKeep(s, t); MovesSame(s, t); MoveRunInv(s, Sleep(s, t));
      case DoStop(t) => MovesKeep(s, t); MovesSame(s, t); MoveRunInv(s, Stop(s, t));
      case DoWake(t) => MovesKeep(s, t); MovesSame(s, t); MoveRunInv(s, Wake(s, t));
      case DoSleepMs(id, ms, now) =>
        SleepMsKeeps(s, id, ms);
        RescheduleSame(SleepMs(s, id, ms), now);
        SwitchRunInv(SleepMs(s, id, ms), Reschedule(SleepMs(s, id, ms), now));
      case DoReschedule(now) => RescheduleSame(s, now); SwitchRunInv(s, Reschedule(s, now));
      case DoTick(now) =>
        HandlerSame(s, now);
        WakeUpRunInv(s);
        SwitchRunInv(WakeUpTimers(s.(tick := s.tick + 1)), Handler(s, now));
    }
  }

  lemma SleepMsKeeps(s: State, id: nat, ms: nat)
    requires RunInv(s)
    ensures RunInv(SleepMs(s, id, ms)) && CanSchedule(SleepMs(s, id, ms))
  {
    hide Sleep;
    var t := s.(timers := [Timer(id, Expiration(ms, s.tick), s.current)] + s.timers);
    assert QueuesOk(t);
    MovesKeep(t, t.current);
    MovesSame(t, t.current);
    MoveRunInv(t, Sleep(t, t.current));
  }

  lemma {:induction false} RunKeeps(s: State, ops: seq<Op>)
    requires RunInv(s) && forall i :: 0 <= i < |ops| ==> OpOk(ops[i])
    ensures RunInv(Run(s, ops)) && CanSchedule(Run(s, ops))
    decreases |ops|
  {
    hide RunInv, Step, OpOk;
    if ops == [] {
      ScheduleReady(s);
    } else {
      StepKeeps(s, ops[0]);
      RunKeeps(Step(s, ops[0]), ops[1..]);
    }
  }

  // ---------------------------------------------------------------- states

  /** The state of a queued thread is that of its queue. */
  ghost predicate StatesMatch(s: State) {
    forall t :: t in s.threads ==>
      && (t in s.running ==> s.threads[t].state == Runnable)
      && (t in s.sleeping ==> s.threads[t].state == Interruptible)
      && (t in s.stopped ==> s.threads[t].state == TaskState.Stopped)
  }

  lemma MovesMatch(s: State, t: nat)
    requires QueuesOk(s) && StatesMatch(s)
    ensures StatesMatch(Sleep(s, t)) && StatesMatch(Stop(s, t)) && StatesMatch(Wake(s, t))
  {
    hide Sleep, Stop, Wake, StatesMatch, TakenOut, OnlyState;
    if t !in s.threads {
      MovesUnknown(s, t);
    } else {
      MovesExactly(s, t);
      MovedMatches(s, Wake(s, t), t, Runnable);
      if t != IDLE {
        MovedMatches(s, Sleep(s, t), t, Interruptible);
        MovedMatches(s, Stop(s, t), t, TaskState.Stopped);
      }
    }
  }

  lemma MovesUnknown(s: State, t: nat)
    requires t !in s.threads
    ensures Sleep(s, t) == s && Stop(s, t) == s && Wake(s, t) == s
  {
  }

  /** The queue `ys` is `xs` without the thread, or with the thread taken out and put at one end. */
  ghost predicate Queued(xs: seq<nat>, ys: seq<nat>, t: nat, at: bool) {
    if at then
      && ys != []
      && ((ys[0] == t && TakenOut(xs, ys[1..], t)) || (ys[|ys| - 1] == t && TakenOut(xs, ys[..|ys| - 1], t)))
    else TakenOut(xs, ys, t)
  }

  lemma QueuedMembers(xs: seq<nat>, ys: seq<nat>, t: nat, at: bool, x: nat)
    requires Distinct(xs) && Queued(xs, ys, t, at) && x in ys
    ensures if x == t then at else x in xs
  {
    if at {
      if ys[0] == t && TakenOut(xs, ys[1..], t) {
        assert x != t ==> x in ys[1..];
      } else {
        assert x != t ==> x in ys[..|ys| - 1];
      }
    }
  }

  lemma MovedMatches(s: State, u: State, t: nat, st: TaskState)
    requires QueuesOk(s) && StatesMatch(s) && OnlyState(s, u, t, st)
    requires Queued(s.running, u.running, t, st == Runnable)
    requires Queued(s.sleeping, u.sleeping, t, st == Interruptible)
    requires Queued(s.stopped, u.stopped, t, st == TaskState.Stopped)
    ensures StatesMatch(u)
  {
    hide Distinct, Queued, TakenOut;
    forall x | x in u.threads
      ensures x in u.running ==> u.threads[x].state == Runnable
      ensures x in u.sleeping ==> u.threads[x].state == Interruptible
      ensures x in u.stopped ==> u.threads[x].state == TaskState.Stopped
    {
      if x in u.running {
        QueuedMembers(s.running, u.running, t, st == Runnable, x);
      }
      if x in u.sleeping {
        QueuedMembers(s.sleeping, u.sleeping, t, st == Interruptible, x);
      }
      if x in u.stopped {
        QueuedMembers(s.stopped, u.stopped, t, st == TaskState.Stopped, x);
      }
    }
  }

  lemma SwitchMatches(s: State, u: State)
    requires StatesMatch(s) && SameQueues(s, u)
    ensures StatesMatch(u)
  {
  }

  lemma WakeUpMatches(s: State)
    requires RunInv(s) && StatesMatch(s)
    ensures StatesMatch(WakeUpTimers(s.(tick := s.tick + 1)))
  {
    hide WakeUpTimers, Drop, Last;
    var t := s.(tick := s.tick + 1);
    WakeUpTimersEffect(t);
    var u, ws := WakeUpTimers(t), Threads(Expired(t.timers, t.tick));
    forall x | x in u.threads
      ensures x in u.running ==> x in ws || x in t.running
      ensures x in u.sleeping ==> x !in ws && x in t.sleeping
      ensures x in u.stopped ==> x !in ws && x in t.stopped
    {
      DropMembers(t.running, ws, x);
      DropMembers(t.sleeping, ws, x);
      DropMembers(t.stopped, ws, x);
      LastMembers(ws, x);
    }
  }

  lemma StepMatches(s: State, op: Op)
    requires RunInv(s) && StatesMatch(s) && OpOk(op)
    ensures StatesMatch(Step(s, op))
  {
    hide RunInv, StatesMatch, Sleep, Stop, Wake, Reschedule, Handler, WakeUpTimers;
    ScheduleReady(s);
    QueuesKnown(s);
    match op {
      case DoCreate(pid, nice) => CreateMatches(s, pid, nice);
      case DoSleep(t) => MovesMatch(s, t);
      case DoStop(t) => MovesMatch(s, t);
      case DoWake(t) => MovesMatch(s, t);
      case DoSleepMs(id, ms, now) =>
        SleepMsKeeps(s, id, ms);
        SleepMsMatches(s, id, ms);
        RescheduleSame(SleepMs(s, id, ms), now);
        SwitchMatches(SleepMs(s, id, ms), Reschedule(SleepMs(s, id, ms), now));
      case DoReschedule(now) =>
        RescheduleSame(s, now);
        SwitchMatches(s, Reschedule(s, now));
      case DoTick(now) =>
        HandlerSame(s, now);
        WakeUpMatches(s);
        SwitchMatches(WakeUpTimers(s.(tick := s.tick + 1)), Handler(s, now));
    }
  }

  lemma QueuesKnown(s: State)
    requires RunInv(s)
    ensures QueuesOk(s)
  {
  }

  lemma CreateMatches(s: State, pid: nat, nice: nat)
    requires RunInv(s) && StatesMatch(s)
    ensures StatesMatch(Create(s, pid, nice))
  {
  }

  lemma SleepMsMatches(s: State, id: nat, ms: nat)
    requires RunInv(s) && StatesMatch(s)
    ensures StatesMatch(SleepMs(s, id, ms))
  {
    hide Sleep;
    var t := s.(timers := [Timer(id, Expiration(ms, s.tick), s.current)] + s.timers);
    assert QueuesOk(t);
    MovesMatch(t, t.current);
  }

  /** Over every run the state of each queued thread names its queue. */
  lemma {:induction false} RunMatches(s: State, ops: seq<Op>)
    requires RunInv(s) && StatesMatch(s) && forall i :: 0 <= i < |ops| ==> OpOk(ops[i])
    ensures StatesMatch(Run(s, ops))
    decreases |ops|
  {
    hide RunInv, StatesMatch, Step, OpOk;
    if ops != [] {
      StepMatches(s, ops[0]);
      StepKeeps(s, ops[0]);
      RunMatches(Step(s, ops[0]), ops[1..]);
    }
  }

  lemma ScheduleReady(s: State)
    requires RunInv(s)
    ensures CanSchedule(s)
  {
  }

  // ---------------------------------------------------------------- sleeping threads

  /** The thread sleeps, is not running, and no timer of its is due before tick `until`. */
  ghost predicate AsleepUntil(s: State, t: nat, until: nat) {
    && t != IDLE && t in s.sleeping && s.current != t
    && forall i :: 0 <= i < |s.timers| && s.timers[i].thread == t ==> s.timers[i].expiration >= until
  }

  /** Nobody else wakes or stops the thread. */
  predicate Quiet(op: Op, t: nat) {
    match op
    case DoWake(x) => x != t
    case DoStop(x) => x != t
    case _ => true
  }

  lemma {:induction false} DropMembers(xs: seq<nat>, ws: seq<nat>, t: nat)
    ensures t in Drop(xs, ws) <==> t in xs && t !in ws
  {
    if xs != [] {
      DropMembers(xs[1..], ws, t);
    }
  }

  lemma {:induction false} LastMembers(ws: seq<nat>, t: nat)
    ensures t in Last(ws) <==> t in ws
  {
    if ws != [] {
      LastMembers(ws[1..], t);
    }
  }

  /** A timer that is due puts its thread into the running queue and is gone. */
  lemma DueTimerWakes(s: State, x: Timer)
    requires QueuesOk(s) && x in s.timers
    ensures var t := WakeUpTimers(s);
            if s.tick >= x.expiration then x.thread in t.running && x !in t.timers else x in t.timers
  {
    hide QueuesOk, WakeUpTimers;
    WakeUpTimersEffect(s);
    TimersSplit(s.timers, s.tick);
    var es := Expired(s.timers, s.tick);
    if s.tick >= x.expiration {
      var k :| 0 <= k < |es| && es[k] == x;
      assert Threads(es)[k] == x.thread;
      LastMembers(Threads(es), x.thread);
    }
  }

  /** Timers not yet due leave the sleeper alone. */
  lemma TimersSpare(s: State, t: nat, until: nat)
    requires RunInv(s) && AsleepUntil(s, t, until) && s.tick < until
    ensures AsleepUntil(WakeUpTimers(s), t, until)
  {
    hide QueuesOk, WakeUpTimers;
    WakeUpTimersEffect(s);
    TimersSplit(s.timers, s.tick);
    var es := Expired(s.timers, s.tick);
    forall k | 0 <= k < |es| ensures Threads(es)[k] != t {
      assert es[k] in s.timers;
    }
    DropMembers(s.sleeping, Threads(es), t);
    var u := WakeUpTimers(s);
    forall i | 0 <= i < |u.timers| && u.timers[i].thread == t ensures u.timers[i].expiration >= until {
      assert u.timers[i] in s.timers;
    }
  }

  lemma MovesSpare(s: State, t: nat, until: nat, x: nat)
    requires QueuesOk(s) && AsleepUntil(s, t, until)
    ensures AsleepUntil(Sleep(s, x), t, until)
    ensures x != t ==> AsleepUntil(Stop(s, x), t, until) && AsleepUntil(Wake(s, x), t, until)
  {
    RemoveFacts(s.sleeping, x);
    hide Remove, Distinct;
  }

  lemma SwitchSpares(s: State, u: State, t: nat, until: nat)
    requires RunInv(s) && AsleepUntil(s, t, until) && SameQueues(s, u)
    requires (u.current == s.current || u.current in s.running)
    ensures AsleepUntil(u, t, until)
  {
  }

  lemma TickSpares(s: State, t: nat, until: nat, now: nat)
    requires RunInv(s) && AsleepUntil(s, t, until) && now < U64 && s.tick + 1 < until
    ensures CanSchedule(s) && AsleepUntil(Handler(s, now), t, until)
  {
    hide Handler, WakeUpTimers;
    HandlerSame(s, now);
    WakeUpRunInv(s);
    TimersSpare(s.(tick := s.tick + 1), t, until);
    SwitchSpares(WakeUpTimers(s.(tick := s.tick + 1)), Handler(s, now), t, until);
  }

  lemma SleepMsSpares(s: State, t: nat, until: nat, id: nat, ms: nat, now: nat)
    requires RunInv(s) && AsleepUntil(s, t, until) && now < U64
    ensures AsleepUntil(Step(s, DoSleepMs(id, ms, now)), t, until)
  {
    hide Reschedule, Sleep;
    SleepMsKeeps(s, id, ms);
    var a := s.(timers := [Timer(id, Expiration(ms, s.tick), s.current)] + s.timers);
    MovesSpare(a, t, until, a.current);
    RescheduleSame(SleepMs(s, id, ms), now);
    SwitchSpares(SleepMs(s, id, ms), Reschedule(SleepMs(s, id, ms), now), t, until);
  }

  function TickCount(ops: seq<Op>): nat {
    if ops == [] then 0 else (if ops[0].DoTick? then 1 else 0) + TickCount(ops[1..])
  }

  lemma StepSpares(s: State, op: Op, t: nat, until: nat)
    requires RunInv(s) && AsleepUntil(s, t, until) && OpOk(op) && Quiet(op, t) && s.tick + TickCount([op]) < until
    ensures AsleepUntil(Step(s, op), t, until) && Step(s, op).tick == s.tick + TickCount([op])
  {
    assert [op][1..] == [];
    TickOf(s, op);
    ScheduleReady(s);
    hide Sleep, Stop, Wake, Reschedule, Handler;
    match op {
      case DoCreate(_, _) =>
      case DoSleep(x) => MovesSpare(s, t, until, x);
      case DoStop(x) => MovesSpare(s, t, until, x);
      case DoWake(x) => MovesSpare(s, t, until, x);
      case DoSleepMs(id, ms, now) => SleepMsSpares(s, t, until, id, ms, now);
      case DoReschedule(now) =>
        RescheduleSame(s, now);
        SwitchSpares(s, Reschedule(s, now), t, until);
      case DoTick(now) => TickSpares(s, t, until, now);
    }
  }

  lemma TickOf(s: State, op: Op)
    requires RunInv(s) && OpOk(op)
    ensures Step(s, op).tick == s.tick + if op.DoTick? then 1 else 0
  {
    hide RunInv, Handler, Reschedule, Sleep, Stop, Wake, Create;
    ScheduleReady(s);
    match op {
      case DoCreate(pid, nice) => CreateTick(s, pid, nice);
      case DoSleep(t) => MoveTick(s, t);
      case DoStop(t) => MoveTick(s, t);
      case DoWake(t) => MoveTick(s, t);
      case DoSleepMs(id, ms, now) =>
        MoveTick(s.(timers := [Timer(id, Expiration(ms, s.tick), s.current)] + s.timers), s.current);
        if CanSchedule(SleepMs(s, id, ms)) {
          RescheduleTick(SleepMs(s, id, ms), now);
        }
      case DoReschedule(now) => RescheduleTick(s, now);
      case DoTick(now) => HandlerTick(s, now);
    }
  }

  lemma CreateTick(s: State, pid: nat, nice: nat)
    ensures Create(s, pid, nice).tick == s.tick
  {
  }

  lemma MoveTick(s: State, t: nat)
    ensures Sleep(s, t).tick == s.tick && Stop(s, t).tick == s.tick && Wake(s, t).tick == s.tick
  {
    hide Remove;
  }

  lemma RescheduleTick(s: State, now: nat)
    requires CanSchedule(s)
    ensures Reschedule(s, now).tick == s.tick
  {
    hide Next, Charged, NiceSum, Timeslice;
  }

  lemma HandlerTick(s: State, now: nat)
    requires RunInv(s)
    ensures CanSchedule(s) && Handler(s, now).tick == s.tick + 1
  {
    hide WakeUpTimers, Next, Charged, NiceSum, Timeslice;
    WakeUpTimersEffect(s.(tick := s.tick + 1));
  }

  /** A sleeper that nobody wakes stays in the sleep queue until the tick its timer was set for. */
  lemma {:induction false} StaysAsleep(s: State, ops: seq<Op>, t: nat, until: nat)
    requires RunInv(s) && AsleepUntil(s, t, until) && s.tick + TickCount(ops) < until
    requires forall i :: 0 <= i < |ops| ==> OpOk(ops[i]) && Quiet(ops[i], t)
    ensures AsleepUntil(Run(s, ops), t, until)
    decreases |ops|
  {
    hide RunInv, AsleepUntil, Step, OpOk, Quiet;
    if ops != [] {
      assert [ops[0]][1..] == [];
      StepSpares(s, ops[0], t, until);
      StepKeeps(s, ops[0]);
      StaysAsleep(Step(s, ops[0]), ops[1..], t, until);
    }
  }

  // ---------------------------------------------------------------- how long sleep_ms sleeps

  /** The tick that a caller of sleep_ms asks for. */
  function Asked(s: State, ms: nat): nat {
    s.tick + ms * RTC_FREQ / 1000
  }

  /** No timer of the thread is due before tick `until`. */
  ghost predicate NoneBefore(timers: seq<Timer>, t: nat, until: nat) {
    forall i :: 0 <= i < |timers| && timers[i].thread == t ==> timers[i].expiration >= until
  }

  /** The caller is asleep, behind its new timer and whatever timers it had. */
  lemma CallerSleeps(s: State, id: nat, ms: nat, now: nat)
    requires RunInv(s) && now < U64 && s.current != IDLE
    ensures var u := Step(s, DoSleepMs(id, ms, now));
            && RunInv(u) && u.tick == s.tick && s.current in u.sleeping && u.current != s.current
            && u.timers == [Timer(id, Expiration(ms, s.tick), s.current)] + s.timers
  {
    hide Reschedule, MillisToTicks;
    StepKeeps(s, DoSleepMs(id, ms, now));
    TickOf(s, DoSleepMs(id, ms, now));
    SleepMsKeeps(s, id, ms);
    var u := SleepMs(s, id, ms);
    assert s.current in u.sleeping;
    RescheduleSame(u, now);
  }

  /** sleep_ms puts its caller to sleep until the tick asked for exactly if product and sum fit in
      32 bits and no earlier timer of the caller is left from a sleep that was cut short. */
  lemma SleepMsSleeps(s: State, id: nat, ms: nat, now: nat)
    requires RunInv(s) && now < U64 && s.current != IDLE
    ensures AsleepUntil(Step(s, DoSleepMs(id, ms, now)), s.current, Asked(s, ms))
            <==> ms < 0x20_0000 && Asked(s, ms) < U32 && NoneBefore(s.timers, s.current, Asked(s, ms))
  {
    hide Step, RunInv, Expiration;
    CallerSleeps(s, id, ms, now);
    SleepsLongEnough(ms, s.tick);
    var u := Step(s, DoSleepMs(id, ms, now));
    assert u.timers[0] == Timer(id, Expiration(ms, s.tick), s.current);
    assert forall i :: 0 <= i < |s.timers| ==> u.timers[i + 1] == s.timers[i];
  }

  /** A timer that is not due stays. */
  lemma TimerStays(s: State, op: Op, x: Timer)
    requires RunInv(s) && OpOk(op) && x in s.timers && s.tick + TickCount([op]) < x.expiration
    ensures x in Step(s, op).timers && Step(s, op).tick == s.tick + TickCount([op])
  {
    assert [op][1..] == [];
    TickOf(s, op);
    ScheduleReady(s);
    hide Reschedule, Handler, Remove, SetState;
    match op {
      case DoSleepMs(id, ms, now) =>
        SleepMsKeeps(s, id, ms);
        RescheduleSame(SleepMs(s, id, ms), now);
      case DoReschedule(now) => RescheduleSame(s, now);
      case DoTick(now) => TickKeepsTimer(s, x, now);
      case _ =>
    }
  }

  lemma TickKeepsTimer(s: State, x: Timer, now: nat)
    requires RunInv(s) && now < U64 && x in s.timers
    ensures CanSchedule(s)
    ensures if s.tick + 1 >= x.expiration then x.thread in Handler(s, now).running else x in Handler(s, now).timers
  {
    hide Handler, WakeUpTimers;
    HandlerSame(s, now);
    var t := s.(tick := s.tick + 1);
    assert QueuesOk(t);
    DueTimerWakes(t, x);
  }

  lemma {:induction false} TimerSurvives(s: State, ops: seq<Op>, x: Timer)
    requires RunInv(s) && x in s.timers && s.tick + TickCount(ops) < x.expiration
    requires forall i :: 0 <= i < |ops| ==> OpOk(ops[i])
    ensures RunInv(Run(s, ops)) && x in Run(s, ops).timers && Run(s, ops).tick == s.tick + TickCount(ops)
    decreases |ops|
  {
    hide RunInv, Step, OpOk;
    if ops != [] {
      assert [ops[0]][1..] == [];
      TimerStays(s, ops[0], x);
      StepKeeps(s, ops[0]);
      TimerSurvives(Step(s, ops[0]), ops[1..], x);
    }
  }

  /** The interrupt at which a timer is due takes its thread out of the sleep queue. */
  lemma TickWakes(s: State, x: Timer, now: nat)
    requires RunInv(s) && now < U64 && x in s.timers && s.tick + 1 >= x.expiration
    ensures var t := Step(s, DoTick(now)); x.thread in t.running && x.thread !in t.sleeping
  {
    hide Handler;
    TickKeepsTimer(s, x, now);
    StepKeeps(s, DoTick(now));
  }

  /** A sleeper with a timer sleeps up to the interrupt before it is due, in every run in which
      nobody wakes it, and the interrupt at which it is due makes it ready. */
  lemma WakesOnTime(s: State, ops: seq<Op>, x: Timer, now: nat)
    requires RunInv(s) && x in s.timers && AsleepUntil(s, x.thread, x.expiration) && now < U64
    requires s.tick + TickCount(ops) + 1 == x.expiration
    requires forall i :: 0 <= i < |ops| ==> OpOk(ops[i]) && Quiet(ops[i], x.thread)
    ensures x.thread in Run(s, ops).sleeping
    ensures x.thread in Step(Run(s, ops), DoTick(now)).running
  {
    hide RunInv, Run, Step;
    StaysAsleep(s, ops, x.thread, x.expiration);
    TimerSurvives(s, ops, x);
    TickWakes(Run(s, ops), x, now);
  }

  /** A caller whose earlier timer is due at the next interrupt is asleep after sleep_ms, and ready
      again one interrupt later, whatever it asked for. */
  lemma CutShort(s: State, id: nat, ms: nat, now: nat, x: Timer, later: nat)
    requires RunInv(s) && now < U64 && later < U64 && s.current != IDLE
    requires x in s.timers && x.thread == s.current && s.tick + 1 >= x.expiration
    ensures var u := Step(s, DoSleepMs(id, ms, now));
            s.current in u.sleeping && s.current in Step(u, DoTick(later)).running
  {
    hide RunInv, Step, Expiration;
    CallerSleeps(s, id, ms, now);
    TickWakes(Step(s, DoSleepMs(id, ms, now)), x, later);
  }

  /** Nobody wakes or stops the thread, and fewer interrupts come than would reach tick `until`. */
  ghost predicate QuietBefore(s: State, ops: seq<Op>, t: nat, until: nat) {
    s.tick + TickCount(ops) < until && forall i :: 0 <= i < |ops| ==> OpOk(ops[i]) && Quiet(ops[i], t)
  }

  ghost predicate SleepsOver(s: State, t: nat, until: nat) {
    forall ops: seq<Op> :: QuietBefore(s, ops, t, until) ==> t in Run(s, ops).sleeping
  }

  function Ticks(n: nat): seq<Op> {
    seq(n, _ => DoTick(0))
  }

  lemma {:induction false} TicksCount(n: nat)
    ensures TickCount(Ticks(n)) == n
  {
    if n > 0 {
      assert Ticks(n)[1..] == Ticks(n - 1);
      TicksCount(n - 1);
    }
  }

  lemma {:induction false} RunLast(s: State, ops: seq<Op>, op: Op)
    ensures Run(s, ops + [op]) == Step(Run(s, ops), op)
    decreases |ops|
  {
    hide Step;
    var all := ops + [op];
    if ops == [] {
      assert all[1..] == [];
    } else {
      assert all[0] == ops[0] && all[1..] == ops[1..] + [op];
      RunLast(Step(s, ops[0]), ops[1..], op);
    }
  }

  /** A timer due before `until` wakes its thread at that time, or at the next interrupt. */
  lemma EarlyTimer(s: State, x: Timer, until: nat)
    requires RunInv(s) && x in s.timers && x.expiration < until && s.tick + 1 < until
    ensures !SleepsOver(s, x.thread, until)
  {
    hide RunInv, Run, Step;
    var k: nat := if x.expiration <= s.tick + 1 then 0 else x.expiration - s.tick - 1;
    TicksCount(k);
    TicksCount(k + 1);
    TimerUntil(s, k, x);
    TickWakes(Run(s, Ticks(k)), x, 0);
    RunLast(s, Ticks(k), DoTick(0));
    assert Ticks(k) + [DoTick(0)] == Ticks(k + 1);
    assert QuietBefore(s, Ticks(k + 1), x.thread, until);
  }

  lemma TimerUntil(s: State, k: nat, x: Timer)
    requires RunInv(s) && x in s.timers && (k > 0 ==> s.tick + k < x.expiration)
    ensures RunInv(Run(s, Ticks(k))) && x in Run(s, Ticks(k)).timers && Run(s, Ticks(k)).tick == s.tick + k
  {
    hide RunInv, Step;
    if k == 0 {
      assert Ticks(0) == [];
    } else {
      TicksCount(k);
      TimerSurvives(s, Ticks(k), x);
    }
  }

  /** How long sleep_ms sleeps, for every caller but idle and every request: in every run in which
      nobody wakes it the caller is still asleep before the tick it asked for, exactly if product and
      sum fit in 32 bits and no timer of its is left that is due before, or no interrupt comes before
      that tick. */
  lemma SleepsExactly(s: State, id: nat, ms: nat, now: nat)
    requires RunInv(s) && now < U64 && s.current != IDLE
    ensures SleepsOver(Step(s, DoSleepMs(id, ms, now)), s.current, Asked(s, ms))
            <==> || Asked(s, ms) <= s.tick + 1
                 || (ms < 0x20_0000 && Asked(s, ms) < U32 && NoneBefore(s.timers, s.current, Asked(s, ms)))
  {
    hide Step, RunInv, Run, Expiration;
    var u, t, until := Step(s, DoSleepMs(id, ms, now)), s.current, Asked(s, ms);
    CallerSleeps(s, id, ms, now);
    SleepMsSleeps(s, id, ms, now);
    if AsleepUntil(u, t, until) {
      forall ops: seq<Op> | QuietBefore(u, ops, t, until) ensures t in Run(u, ops).sleeping {
        StaysAsleep(u, ops, t, until);
      }
    } else if until <= s.tick + 1 {
      forall ops: seq<Op> | QuietBefore(u, ops, t, until) ensures t in Run(u, ops).sleeping {
        NoTicks(u, ops, t);
      }
    } else {
      var i :| 0 <= i < |u.timers| && u.timers[i].thread == t && u.timers[i].expiration < until;
      EarlyTimer(u, u.timers[i], until);
    }
  }

  /** Without an interrupt no timer wakes anybody. */
  lemma {:induction false} NoTicks(s: State, ops: seq<Op>, t: nat)
    requires RunInv(s) && t != IDLE && t in s.sleeping && s.current != t && TickCount(ops) == 0
    requires forall i :: 0 <= i < |ops| ==> OpOk(ops[i]) && Quiet(ops[i], t)
    ensures t in Run(s, ops).sleeping
    decreases |ops|
  {
    hide RunInv, Step, OpOk, Quiet;
    if ops != [] {
      StepNoTick(s, ops[0], t);
      StepKeeps(s, ops[0]);
      NoTicks(Step(s, ops[0]), ops[1..], t);
    }
  }

  lemma StepNoTick(s: State, op: Op, t: nat)
    requires RunInv(s) && t != IDLE && t in s.sleeping && s.current != t && OpOk(op) && Quiet(op, t) && !op.DoTick?
    ensures t in Step(s, op).sleeping && Step(s, op).current != t
  {
    hide Sleep, Stop, Wake, Reschedule;
    ScheduleReady(s);
    match op {
      case DoCreate(_, _) =>
      case DoSleep(x) => MovesLeave(s, t, x);
      case DoStop(x) => MovesLeave(s, t, x);
      case DoWake(x) => MovesLeave(s, t, x);
      case DoSleepMs(id, ms, now) =>
        SleepMsKeeps(s, id, ms);
        MovesLeave(s.(timers := [Timer(id, Expiration(ms, s.tick), s.current)] + s.timers), t, s.current);
        RescheduleSame(SleepMs(s, id, ms), now);
      case DoReschedule(now) => RescheduleSame(s, now);
    }
  }

  /** Moves of others leave a sleeper in the sleep queue, and so does its own way there. */
  lemma MovesLeave(s: State, t: nat, x: nat)
    requires QueuesOk(s) && t in s.sleeping
    ensures t in Sleep(s, x).sleeping && Sleep(s, x).current == s.current
    ensures Stop(s, x).current == s.current && Wake(s, x).current == s.current
    ensures x != t ==> t in Stop(s, x).sleeping && t in Wake(s, x).sleeping
  {
    RemoveFacts(s.sleeping, x);
    hide Remove, Distinct;
  }
}
