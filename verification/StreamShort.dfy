/** Character devices whose buffer is shorter than what a drain clears: they stop at their first
    drain, so what goes wrong with several readers after a drain cannot happen before it. */
module StreamShort {
  import opened Machine
  import opened Stream

  /** What holds at each statement of the critical section before the first drain. */
  ghost predicate InsideShort(s: State, pc: Pc)
    requires s.last <= |s.got| <= |s.sent|
  {
    var x := Segment(s);
    match pc
    case WMeasure(b) => Rest(s) && b != 0
    case WPut(b, len) => Rest(s) && b != 0 && len == |x|
    case WEnd(len) =>
      && |x| <= |s.buffer| && s.buffer[..|x|] == x && len + 1 == |x| && s.available == Pending(s) - 1
      && forall k :: 0 <= k < |x| ==> x[k] != 0
    case WCount => s.available == Pending(s) - 1 && Holds(s.buffer, x)
    case WOpen => Rest(s) && s.available >= 1
    case RCount => s.available == Pending(s) + 1 && Holds(s.buffer, x) && s.got != []
    case RBranch | RClear => Rest(s) && s.got != []
    case ROpen => Rest(s) && s.available >= 1
    case RReset => false
    case _ => Rest(s)
  }

  /** Nobody has been let through read_lock, nor will be before a writer frees it. */
  ghost predicate Idle(s: State) {
    s.readLocked && forall i :: 0 <= i < |s.threads| ==> !HasToken(s.threads[i])
  }

  /** A reader has taken the last byte and goes on to the drain. */
  ghost predicate Draining(s: State) {
    exists i :: 0 <= i < |s.threads| && (s.threads[i].RBranch? || s.threads[i].RClear?)
  }

  ghost predicate Ready(s: State) {
    s.available >= 1 || Idle(s) || Draining(s)
  }

  ghost predicate OneCritical(s: State) {
    && (forall i, j :: 0 <= i < j < |s.threads| ==> !(Critical(s.threads[i]) && Critical(s.threads[j])))
    && (s.locked <==> exists i :: 0 <= i < |s.threads| && Critical(s.threads[i]))
  }

  /** What does not depend on where threads are. */
  ghost predicate Shared(s: State) {
    1 <= |s.buffer| < CLEARED && !s.fault && s.last == |s.got| && s.got <= s.sent
  }

  /** Before the first drain: whoever may take a byte finds one. */
  ghost predicate Short(s: State) {
    && Shared(s) && OneCritical(s)
    && (forall i :: 0 <= i < |s.threads| && s.threads[i].WGet? ==> s.threads[i].b != 0)
    && (forall i :: 0 <= i < |s.threads| && Critical(s.threads[i]) ==> InsideShort(s, s.threads[i]))
    && (!s.locked ==> Rest(s))
    && Ready(s)
  }

  lemma InitShort(size: nat, readers: nat, writers: nat)
    requires 1 <= size < CLEARED
    ensures Short(Init(size, readers, writers))
  {
    hide Init, Segment, Holds;
    InitShape(size, readers, writers);
  }

  // ---------------------------------------------------------------- the shapes of a step

  lemma StillReady(s: State, t: State, i: nat, pc: Pc)
    requires Ready(s) && i < |s.threads| && t.threads == s.threads[i := pc] && t.available >= s.available
    requires !s.threads[i].RBranch? && !s.threads[i].RClear? && (Idle(s) ==> t.readLocked && !HasToken(pc))
    ensures Ready(t)
  {
    if t.available == 0 && Draining(s) {
      var j :| 0 <= j < |s.threads| && (s.threads[j].RBranch? || s.threads[j].RClear?);
      assert t.threads[j] == s.threads[j];
    }
  }

  /** A step outside the critical section changes only the thread and read_lock. */
  lemma Outside(s: State, t: State, i: nat, pc: Pc)
    requires Short(s) && i < |s.threads| && t == At(s, i, pc).(readLocked := t.readLocked)
    requires !Critical(s.threads[i]) && !Critical(pc) && (pc.WGet? ==> pc.b != 0) && Ready(t)
    ensures Short(t)
  {
    hide Ready, Rest;
    RestSame(s, t);
    forall j | 0 <= j < |t.threads| && Critical(t.threads[j]) ensures InsideShort(t, t.threads[j]) {
      assert t.threads[j] == s.threads[j] && InsideShort(s, s.threads[j]);
    }
    if s.locked {
      var j :| 0 <= j < |s.threads| && Critical(s.threads[j]);
      assert Critical(t.threads[j]);
    }
  }

  lemma Enter(s: State, t: State, i: nat, pc: Pc)
    requires Short(s) && i < |s.threads| && t == At(s, i, pc).(locked := true)
    requires !s.locked && Critical(pc) && InsideShort(t, pc) && Ready(t)
    ensures Short(t)
  {
    hide Ready, Rest;
    assert Critical(t.threads[i]);
  }

  /** A step from one statement of the critical section to another. */
  lemma Inside(s: State, t: State, i: nat, pc: Pc)
    requires Short(s) && i < |s.threads| && t.threads == s.threads[i := pc] && t.locked == s.locked
    requires Critical(s.threads[i]) && Critical(pc) && Shared(t) && InsideShort(t, pc) && Ready(t)
    ensures Short(t)
  {
    hide Ready, Rest;
    assert Critical(t.threads[i]);
  }

  lemma Leave(s: State, t: State, i: nat, pc: Pc)
    requires Short(s) && i < |s.threads| && t == At(s, i, pc).(locked := false)
    requires Critical(s.threads[i]) && !Critical(pc) && !pc.WGet? && Rest(s) && Ready(t)
    ensures Short(t)
  {
    hide Ready, Rest;
    RestSame(s, t);
  }

  lemma RestSame(s: State, t: State)
    requires s.last <= |s.got| <= |s.sent|
    requires t == s.(threads := t.threads, readLocked := t.readLocked, locked := t.locked)
    ensures Rest(t) == Rest(s)
  {
  }

  // ---------------------------------------------------------------- every step keeps it

  lemma Facts(s: State, i: nat)
    requires Short(s) && i < |s.threads|
    ensures Shared(s) && Ready(s) && (!s.locked ==> Rest(s))
    ensures Critical(s.threads[i]) ==> InsideShort(s, s.threads[i]) && s.locked
    ensures s.threads[i].WGet? ==> s.threads[i].b != 0
    ensures HasToken(s.threads[i]) ==> !Idle(s)
    ensures !s.locked ==> !Draining(s)
    ensures Critical(s.threads[i]) && !s.threads[i].RBranch? && !s.threads[i].RClear? ==> !Draining(s)
  {
  }

  /** A writer's step before and behind its append. */
  lemma WriterKeeps(s: State, i: nat, b: Byte)
    requires Short(s) && b != 0 && i < |s.threads|
    requires s.threads[i].WIdle? || s.threads[i].WGet? || s.threads[i].WOpen? || s.threads[i].WLeave?
    ensures Short(Step(s, i, b))
  {
    hide Short, Holds, Idle, Draining, Segment, Rest;
    Facts(s, i);
    var t := Step(s, i, b);
    RestSame(s, t);
    match s.threads[i] {
      case WIdle => StillReady(s, t, i, WGet(b)) by { KeepsIdle(s, i); } Outside(s, t, i, WGet(b));
      case WGet(c) =>
        if !s.locked {
          StillReady(s, t, i, WMeasure(c)) by { KeepsIdle(s, i); }
          Enter(s, t, i, WMeasure(c));
        }
      case WOpen => Inside(s, t, i, WLeave);
      case WLeave => StillReady(s, t, i, WIdle) by { KeepsIdle(s, i); } Leave(s, t, i, WIdle);
    }
  }

  lemma KeepsIdle(s: State, i: nat)
    ensures Idle(s) ==> s.readLocked
  {
  }

  /** append, statement by statement. */
  lemma MeasureKeeps(s: State, i: nat, b: Byte)
    requires Short(s) && i < |s.threads| && s.threads[i].WMeasure?
    ensures Short(Step(s, i, b))
  {
    hide Short, StrLen, Idle, Draining, Holds, Segment;
    Facts(s, i);
    var t := Step(s, i, b);
    var x := Segment(s);
    KeepsIdle(s, i);
    HoldsLength(s.buffer, x);
    StringFits(s.buffer, x);
    SegmentSame(s, t);
    StillReady(s, t, i, WPut(s.threads[i].b, |x|));
    Inside(s, t, i, WPut(s.threads[i].b, |x|));
  }

  lemma PutKeeps(s: State, i: nat, b: Byte)
    requires Short(s) && i < |s.threads| && s.threads[i].WPut?
    ensures Short(Step(s, i, b))
  {
    hide Short, Step, StrLen, Idle, Draining, Holds, Segment;
    Facts(s, i);
    var c := s.threads[i].b;
    var x := Segment(s);
    KeepsIdle(s, i);
    OneLonger(s.buffer, x, c);
    PutShape(s, i, b);
    var t := Step(s, i, b);
    LongerSegment(s, t, c);
    StillReady(s, t, i, WEnd(|x|));
    Inside(s, t, i, WEnd(|x|));
  }

  lemma WriteCounted(s: State, i: nat, b: Byte)
    requires Short(s) && i < |s.threads| && s.threads[i].WCount?
    ensures Short(Step(s, i, b))
  {
    hide Short, Holds, Idle, Draining, Segment;
    Facts(s, i);
    StringFits(s.buffer, Segment(s));
    SegmentLength(s);
    var t := Step(s, i, b);
    SegmentSame(s, t);
    Inside(s, t, i, WOpen);
  }

  /** What a writer finds that has stored its byte. */
  lemma EndFacts(s: State, i: nat)
    requires Short(s) && i < |s.threads| && s.threads[i].WEnd?
    ensures s.last <= |s.got| <= |s.sent|
    ensures var x := Segment(s);
            && s.sent != [] && s.threads[i].len + 1 == |x| <= |s.buffer| && s.available == Pending(s) - 1
            && (|x| < |s.buffer| ==> Holds(s.buffer[|x| := 0], x))
  {
    Facts(s, i);
    hide Short, Holds, Ready;
    var x := Segment(s);
    if |x| < |s.buffer| {
      Terminated(s.buffer, x);
    }
  }

  lemma CountInside(t: State)
    requires t.last <= |t.got| <= |t.sent| && t.available == Pending(t) - 1 && Holds(t.buffer, Segment(t))
    ensures InsideShort(t, WCount)
  {
    hide Holds;
  }

  lemma EndKeeps(s: State, i: nat, b: Byte)
    requires Short(s) && i < |s.threads| && s.threads[i].WEnd?
    ensures var t := Step(s, i, b); if t.fault then t == s.(fault := true) && s.sent != [] else Short(t)
  {
    hide Short, Step, Idle, Draining, Holds, InsideShort, Segment, Rest;
    Facts(s, i);
    EndFacts(s, i);
    EndShape(s, i, b);
    KeepsIdle(s, i);
    var t := Step(s, i, b);
    if !t.fault {
      SegmentSame(s, t);
      CountInside(t);
      StillReady(s, t, i, WCount);
      Inside(s, t, i, WCount);
    }
  }

  /** A reader's way to the critical section and out of it. */
  lemma ReaderKeeps(s: State, i: nat, b: Byte)
    requires Short(s) && i < |s.threads|
    requires s.threads[i] in {RGet, RTest, RBackOff, ROpen, RLeave}
    ensures Short(Step(s, i, b))
  {
    hide Short, Holds, Idle, Draining, Segment, Rest;
    Facts(s, i);
    var t := Step(s, i, b);
    RestSame(s, t);
    KeepsIdle(s, i);
    match s.threads[i] {
      case RGet =>
        if !s.readLocked {
          StillReady(s, t, i, RTest);
          Outside(s, t, i, RTest);
        }
      case RTest =>
        if s.locked {
          StillReady(s, t, i, RBackOff);
          Outside(s, t, i, RBackOff);
        } else {
          StillReady(s, t, i, RTake);
          Enter(s, t, i, RTake);
        }
      case RBackOff => StillReady(s, t, i, RGet); Outside(s, t, i, RGet);
      case ROpen => Inside(s, t, i, RLeave);
      case RLeave => StillReady(s, t, i, RGet); Leave(s, t, i, RGet);
    }
  }

  /** The reader finds a byte, and it is the oldest one not read. */
  lemma TakeShort(s: State, i: nat, b: Byte)
    requires Short(s) && i < |s.threads| && s.threads[i].RTake?
    ensures Short(Step(s, i, b)) && Step(s, i, b).got == s.got + [s.sent[|s.got|]]
  {
    hide Short, Step, Idle, Draining, Holds, Segment;
    Facts(s, i);
    OldestUnread(s);
    TakeShape(s, i, b);
    OneMore(s.got, s.sent);
    var t := Step(s, i, b);
    SegmentTaken(s, t);
    Inside(s, t, i, RCount);
  }

  lemma CountShort(s: State, i: nat, b: Byte)
    requires Short(s) && i < |s.threads| && (s.threads[i].RCount? || s.threads[i].RBranch?)
    ensures Short(Step(s, i, b))
  {
    hide Short, Holds, Idle, Segment;
    Facts(s, i);
    StringFits(s.buffer, Segment(s));
    SegmentLength(s);
    var t := Step(s, i, b);
    SegmentSame(s, t);
    if s.threads[i].RCount? {
      assert t.threads[i].RBranch?;
      Inside(s, t, i, RBranch);
    } else {
      assert s.available <= 0 ==> t.threads[i].RClear?;
      Inside(s, t, i, if s.available <= 0 then RClear else ROpen);
    }
  }

  /** Every step of every thread keeps it, or stops everything, after a first byte. */
  lemma StepKeeps(s: State, i: nat, b: Byte)
    requires Short(s) && b != 0
    ensures var t := Step(s, i, b); if t.fault then t == s.(fault := true) && s.sent != [] else Short(t)
  {
    if i < |s.threads| {
      Facts(s, i);
      hide Short, InsideShort, Ready, Rest;
      match s.threads[i] {
        case WIdle | WGet(_) | WOpen | WLeave => WriterKeeps(s, i, b);
        case WMeasure(_) => MeasureKeeps(s, i, b);
        case WPut(_, _) => PutKeeps(s, i, b);
        case WCount => WriteCounted(s, i, b);
        case WEnd(_) => EndKeeps(s, i, b);
        case RTake => TakeShort(s, i, b);
        case RCount | RBranch => CountShort(s, i, b);
        case RClear => DrainShort(s, i);
        case RReset => assert false by { NoReset(s, i); }
        case _ => ReaderKeeps(s, i, b);
      }
    }
  }

  lemma DrainShort(s: State, i: nat)
    requires Short(s) && i < |s.threads| && s.threads[i].RClear?
    ensures s.sent != []
  {
  }

  lemma NoReset(s: State, i: nat)
    requires Short(s) && i < |s.threads|
    ensures !s.threads[i].RReset?
  {
  }

  lemma Stopped(s: State, sched: seq<(nat, Byte)>)
    requires s.fault
    ensures Run(s, sched) == s
    decreases |sched|
  {
    if sched != [] {
      Stopped(s, sched[1..]);
    }
  }

  /** Over every schedule what was read is a prefix of what was written, for any number of readers,
      and nothing stops before a byte is written. */
  lemma {:induction false} ShortOrder(s: State, sched: seq<(nat, Byte)>)
    requires Short(s) && NoNul(sched)
    ensures Run(s, sched).got <= Run(s, sched).sent
    ensures Run(s, sched).fault ==> Run(s, sched).sent != []
    decreases |sched|
  {
    if sched != [] {
      var t := Step(s, sched[0].0, sched[0].1);
      StepKeeps(s, sched[0].0, sched[0].1);
      if t.fault {
        Stopped(t, sched[1..]);
      } else {
        ShortOrder(t, sched[1..]);
      }
    }
  }

  /** Which devices keep the order over every schedule: those with at most one reader, and those
      that their first drain stops. */
  lemma ReadersExactly(size: nat, readers: nat, writers: nat)
    requires 1 <= size <= MAX_BUFFER && writers >= 1
    ensures OrderKept(size, readers, writers) <==> readers <= 1 || size < CLEARED
  {
    if size < CLEARED {
      forall sched: seq<(nat, Byte)> | NoNul(sched)
        ensures Run(Init(size, readers, writers), sched).got <= Run(Init(size, readers, writers), sched).sent
      {
        InitShort(size, readers, writers);
        ShortOrder(Init(size, readers, writers), sched);
      }
    } else {
      OneReaderExactly(size, readers, writers);
    }
  }
}
