/** Bounded waiting: least-runtime-first picking starves nobody.

    The run queue is fixed and only scheduler_handler runs, at increasing clock values; no timer
    is pending and no signal. */
module Fairness {
  import opened Machine
  import opened Sched
  import opened SchedTheorems

  /** Up to clock value `end` no runtime can reach that of the idle thread, even if the thread
      ran all the time. */
  ghost predicate NoWrap(s: State, clock: nat, end: nat) {
    forall t :: t in s.running && t != IDLE ==>
      t in s.threads
      && (if t == s.current then s.threads[t].activated <= end
          && s.threads[t].runtime + (end - s.threads[t].activated) < IDLE_RUNTIME
          else clock <= end && s.threads[t].runtime + (end - clock) < IDLE_RUNTIME)
  }

  ghost predicate Fair(s: State, clock: nat, end: nat) {
    && clock <= end < U64
    && s.timers == [] && s.current in s.running && NicesOk(s)
    && (forall t :: t in s.running ==> t in s.threads)
    && (IDLE in s.threads ==> s.threads[IDLE].runtime == IDLE_RUNTIME)
    && s.threads[s.current].activated <= clock
    && s.threads[s.current].timeslice <= MAX_SLICE
    && NoWrap(s, clock, end)
  }

  /** How many more picks thread `j` can win over thread `i` at most, at one clock tick each. */
  function Gap(s: State, i: nat, j: nat): nat {
    if j == i || j == IDLE then 0
    else
      var lead := RuntimeOf(s, i) + 2 - RuntimeOf(s, j) - if j == s.current then 1 else 0;
      if lead > 0 then lead else 0
  }

  function GapSum(s: State, i: nat, xs: seq<nat>): nat {
    if xs == [] then 0 else Gap(s, i, xs[0]) + GapSum(s, i, xs[1..])
  }

  /** An upper bound on the timer interrupts until thread `i` runs. */
  function WaitBound(s: State, i: nat): nat {
    (MAX_SLICE + 1) * GapSum(s, i, s.running) + if s.current in s.threads then s.threads[s.current].timeslice else 0
  }

  lemma {:induction false} GapSumOrder(s: State, t: State, i: nat, xs: seq<nat>, less: nat)
    requires forall j :: j in xs ==> Gap(t, i, j) <= Gap(s, i, j)
    ensures GapSum(t, i, xs) <= GapSum(s, i, xs)
    ensures less in xs && Gap(t, i, less) < Gap(s, i, less) ==> GapSum(t, i, xs) < GapSum(s, i, xs)
  {
    if xs != [] {
      GapSumOrder(s, t, i, xs[1..], less);
    }
  }

  lemma NoTimers(s: State, now: nat)
    requires s.timers == []
    ensures WakeUpTimers(s.(tick := s.tick + 1)) == s.(tick := s.tick + 1)
  {
  }

  /** The idle thread is never picked while another thread is in the queue. */
  lemma IdleYields(s: State, clock: nat, end: nat, i: nat)
    requires Fair(s, clock, end) && i in s.running && i != IDLE
    ensures s.running != [] && Next(s) != IDLE && Next(s) in s.running && Next(s) in s.threads
    ensures RuntimeOf(s, Next(s)) <= RuntimeOf(s, i)
  {
    PickEffect(s);
  }

  /** The current thread, if it is not idle, is charged at least one cycle. */
  lemma ChargedMore(s: State, clock: nat, end: nat, now: nat)
    requires Fair(s, clock, end) && clock < now <= end && s.current != IDLE
    ensures var c := s.threads[s.current];
            && Charged(c, now) == c.runtime + (now - c.activated) && Charged(c, now) > c.runtime
            && Charged(c, now) + (end - now) < IDLE_RUNTIME
  {
    var c := s.threads[s.current];
    assert c.runtime + (end - c.activated) < IDLE_RUNTIME;
    assert (now + U64 - c.activated) % U64 == now - c.activated;
  }

  lemma KeepFair(s: State, clock: nat, end: nat, now: nat, i: nat)
    requires Fair(s, clock, end) && clock < now <= end && s.running != []
    ensures var t := KeepRunning(s, now);
            && Fair(t, now, end) && t.running == s.running && t.current == s.current
            && (i != s.current && i in s.threads ==> RuntimeOf(t, i) == RuntimeOf(s, i))
            && (s.current != IDLE ==> RuntimeOf(t, s.current) > RuntimeOf(s, s.current))
            && (forall j :: j != s.current ==> RuntimeOf(t, j) == RuntimeOf(s, j))
            && t.threads[t.current].timeslice == Minus1(s.threads[s.current].timeslice)
  {
    if s.current != IDLE {
      ChargedMore(s, clock, end, now);
    }
    hide Charged;
  }

  lemma SwitchFair(s: State, clock: nat, end: nat, now: nat, next: nat)
    requires Fair(s, clock, end) && clock < now <= end
    requires next in s.running && next != IDLE && next != s.current && s.threads[next].timeslice <= MAX_SLICE
    ensures var t := SwitchTo(s, next, now);
            && Fair(t, now, end) && t.running == s.running && t.current == next
            && (s.current != IDLE ==> RuntimeOf(t, s.current) > RuntimeOf(s, s.current))
            && (forall j :: j != s.current ==> RuntimeOf(t, j) == RuntimeOf(s, j))
            && t.threads[t.current].timeslice == Minus1(s.threads[next].timeslice)
  {
    if s.current != IDLE {
      ChargedMore(s, clock, end, now);
    }
    hide Charged;
  }

  /** Picking only sets a timeslice, for the picked thread. */
  lemma PickFair(s: State, clock: nat, end: nat, i: nat)
    requires Fair(s, clock, end) && i in s.running && i != IDLE
    requires Next(s) == s.current || s.threads[s.current].timeslice == 0
    ensures var p := Pick(s);
            && Fair(p, clock, end) && p.running == s.running && p.current == s.current && Next(s) in p.threads
            && (forall j :: RuntimeOf(p, j) == RuntimeOf(s, j))
            && 2 <= p.threads[Next(s)].timeslice <= MAX_SLICE
  {
    IdleYields(s, clock, end, i);
    PickEffect(s);
    hide Pick, Next;
  }

  /** Every timer interrupt either runs the waiting thread or lowers its bound. */
  lemma HandlerProgress(s: State, clock: nat, end: nat, now: nat, i: nat)
    requires Fair(s, clock, end) && clock < now <= end && i in s.running && i != IDLE && i != s.current
    ensures CanSchedule(s)
    ensures var t := Handler(s, now);
            && Fair(t, now, end) && t.running == s.running
            && (t.current == i || WaitBound(t, i) < WaitBound(s, i))
  {
    hide Charged, Next, Pick, KeepRunning, SwitchTo, WakeUpTimers, NicesOk, NoWrap, GapSum;
    NoTimers(s, now);
    var u := s.(tick := s.tick + 1);
    TickFair(s, clock, end);
    var t := Handler(s, now);
    if u.threads[u.current].timeslice > 0 {
      KeepFair(u, clock, end, now, i);
      GapSumOrder(s, t, i, s.running, i);
    } else {
      IdleYields(u, clock, end, i);
      PickFair(u, clock, end, i);
      var next := Next(u);
      var p := Pick(u);
      if next == u.current {
        KeepFair(p, clock, end, now, i);
        GapSumOrder(s, t, i, s.running, next);
      } else {
        SwitchFair(p, clock, end, now, next);
        if next != i {
          GapSumOrder(s, t, i, s.running, next);
        }
      }
    }
  }

  lemma TickFair(s: State, clock: nat, end: nat)
    requires Fair(s, clock, end)
    ensures Fair(s.(tick := s.tick + 1), clock, end) && CanSchedule(s) && CanSchedule(s.(tick := s.tick + 1))
  {
  }

  /** The state after interrupts at the given clock values. */
  function Ticks(s: State, clocks: seq<nat>): State
    decreases |clocks|
  {
    if clocks == [] then s
    else Ticks(if CanSchedule(s) then Handler(s, clocks[0]) else s, clocks[1..])
  }

  /** Clock values that increase strictly from `clock` and stay at or below `end`. */
  predicate Increasing(clock: nat, clocks: seq<nat>, end: nat)
    decreases |clocks|
  {
    clocks == [] || (clock < clocks[0] <= end && Increasing(clocks[0], clocks[1..], end))
  }

  /** A thread in the run queue, other than idle, is run within WaitBound + 1 timer interrupts,
      whatever the clock values. */
  lemma {:induction false} BoundedWaiting(s: State, clock: nat, end: nat, clocks: seq<nat>, i: nat) returns (k: nat)
    requires Fair(s, clock, end) && i in s.running && i != IDLE
    requires Increasing(clock, clocks, end) && |clocks| > WaitBound(s, i)
    ensures k <= WaitBound(s, i) + 1 && k <= |clocks| && Ticks(s, clocks[..k]).current == i
    decreases |clocks|
  {
    hide Fair, Handler, WaitBound;
    if s.current == i {
      k := 0;
      assert clocks[..0] == [];
    } else {
      var now := clocks[0];
      HandlerProgress(s, clock, end, now, i);
      var t := Handler(s, now);
      var k' := 0;
      if t.current != i {
        k' := BoundedWaiting(t, now, end, clocks[1..], i);
      } else {
        assert clocks[1..][..0] == [];
      }
      k := k' + 1;
      assert clocks[..k][0] == now && clocks[..k][1..] == clocks[1..][..k'];
    }
  }
}
