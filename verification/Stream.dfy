/** The character devices of kernel/files.c over the locks of lock/lock.c: one buffer,
    a mutex `lock`, and `read_lock`, which is free while there is something to read.

    Every statement that touches shared state is one step, and the steps of any number
    of threads interleave freely. A thread that finds a lock taken tries again later;
    the queue it would sleep in decides only when. */
module Stream {
  import opened Machine

  /** The bytes that read_byte_stream clears, PAGE_SIZE * 2, and the range of `available`. */
  const CLEARED := 8192
  /** PAGE_SIZE << 10: the largest buffer the page allocator can give. */
  const MAX_BUFFER := 0x40_0000

  /** The next statement of a thread. Writers: get_lock, then the three parts of append,
      `available++`, unlock(read_lock), unlock(lock). Readers: get_lock(read_lock),
      test_lock(lock), the way back when that fails, the critical section. */
  datatype Pc =
    | WIdle | WGet(b: Byte) | WMeasure(b: Byte) | WPut(b: Byte, len: nat) | WEnd(len: nat) | WCount | WOpen | WLeave
    | RGet | RTest | RBackOff | RTake | RCount | RBranch | ROpen | RClear | RReset | RLeave

  /** `sent` and `got` record the bytes stored and the bytes read, in order. `fault` is set,
      and everything stops, by an access outside the buffer. */
  datatype State = State(
    buffer: seq<Byte>,
    last: nat,
    available: nat,
    locked: bool,
    readLocked: bool,
    threads: seq<Pc>,
    sent: seq<Byte>,
    got: seq<Byte>,
    fault: bool)

  // ---------------------------------------------------------------- strings

  /** strlen: the index of the first NUL, or the length of the buffer if there is none. */
  function StrLen(s: seq<Byte>): (n: nat)
    ensures n <= |s| && (n < |s| ==> s[n] == 0)
    ensures forall k :: 0 <= k < n ==> s[k] != 0
  {
    if s == [] || s[0] == 0 then 0
    else
      assert forall k :: 0 < k < |s| ==> s[k] == s[1..][k - 1];
      1 + StrLen(s[1..])
  }

  /** The buffer holds the string `x` and its terminator. */
  ghost predicate Holds(s: seq<Byte>, x: seq<Byte>) {
    && |x| < |s| && s[..|x|] == x && s[|x|] == 0
    && forall k :: 0 <= k < |x| ==> x[k] != 0
  }

  function Appended(s: seq<Byte>, n: Byte): seq<Byte>
    requires StrLen(s) + 1 < |s|
  {
    s[StrLen(s) := n][StrLen(s) + 1 := 0]
  }

  lemma {:induction false} FirstNul(s: seq<Byte>, n: nat)
    requires n < |s| && s[n] == 0 && forall k :: 0 <= k < n ==> s[k] != 0
    ensures StrLen(s) == n
  {
    if n > 0 {
      FirstNul(s[1..], n - 1);
    }
  }

  lemma HoldsLength(s: seq<Byte>, x: seq<Byte>)
    requires Holds(s, x)
    ensures StrLen(s) == |x|
  {
    assert forall k :: 0 <= k < |x| ==> s[k] == s[..|x|][k];
    FirstNul(s, |x|);
  }

  /** append adds a byte to the string in the buffer exactly when the byte is not NUL. */
  lemma AppendIff(s: seq<Byte>, x: seq<Byte>, n: Byte)
    requires Holds(s, x) && |x| + 1 < |s|
    ensures StrLen(s) == |x|
    ensures Holds(Appended(s, n), x + [n]) <==> n != 0
    ensures n == 0 ==> Appended(s, n)[..|x| + 1] == s[..|x| + 1]
  {
    HoldsLength(s, x);
    var t := Appended(s, n);
    assert t[..|x|] == x;
    assert t[..|x| + 1] == x + [n];
    if n == 0 {
      assert (x + [n])[|x|] == 0;
    }
  }

  method Strlen(s: array<Byte>) returns (i: nat)
    requires exists k :: 0 <= k < s.Length && s[k] == 0
    ensures i == StrLen(s[..]) && i < s.Length
  {
    i := 0;
    while s[i] != 0
      invariant i < s.Length && forall k :: 0 <= k < i ==> s[k] != 0
      decreases s.Length - i
    {
      i := i + 1;
    }
    FirstNul(s[..], i);
  }

  method Append(s: array<Byte>, n: Byte)
    requires StrLen(s[..]) + 1 < s.Length
    modifies s
    ensures s[..] == Appended(old(s[..]), n)
  {
    assert s[..][StrLen(s[..])] == 0;
    var len := Strlen(s);
    s[len] := n;
    s[len + 1] := 0;
  }

  // ---------------------------------------------------------------- the steps

  /** memset with the number of bytes read_byte_stream clears. */
  function Cleared(s: seq<Byte>): (t: seq<Byte>)
    requires CLEARED <= |s|
    ensures |t| == |s| && forall k :: 0 <= k < |s| ==> t[k] == if k < CLEARED then 0 else s[k]
  {
    seq(|s|, k requires 0 <= k < |s| => if k < CLEARED then 0 else s[k])
  }

  function Decrement(n: nat): nat {
    (n + U32 - 1) % U32
  }

  /** Thread `i` goes on to `pc`. */
  function At(s: State, i: nat, pc: Pc): State
    requires i < |s.threads|
  {
    s.(threads := s.threads[i := pc])
  }

  /** Thread `i` executes its next statement; an idle writer starts on byte `b`. */
  function Step(s: State, i: nat, b: Byte): State {
    if i >= |s.threads| || s.fault then s
    else match s.threads[i]
      case WIdle => At(s, i, WGet(b))
      case WGet(c) => if s.locked then s else At(s, i, WMeasure(c)).(locked := true)
      case WMeasure(c) => if StrLen(s.buffer) == |s.buffer| then s.(fault := true)
          else At(s, i, WPut(c, StrLen(s.buffer)))
      case WPut(c, len) =>
        if len >= |s.buffer| then s.(fault := true)
        else At(s, i, WEnd(len)).(buffer := s.buffer[len := c], sent := s.sent + [c])
      case WEnd(len) =>
        if len + 1 >= |s.buffer| then s.(fault := true)
        else At(s, i, WCount).(buffer := s.buffer[len + 1 := 0])
      case WCount => At(s, i, WOpen).(available := (s.available + 1) % U32)
      case WOpen => At(s, i, WLeave).(readLocked := false)
      case WLeave => At(s, i, WIdle).(locked := false)
      case RGet => if s.readLocked then s else At(s, i, RTest).(readLocked := true)
      case RTest => if s.locked then At(s, i, RBackOff) else At(s, i, RTake).(locked := true)
      case RBackOff => At(s, i, RGet).(readLocked := false)
      case RTake =>
        if s.last >= |s.buffer| then s.(fault := true)
        else At(s, i, RCount).(last := s.last + 1, got := s.got + [s.buffer[s.last]])
      case RCount => At(s, i, RBranch).(available := Decrement(s.available))
      case RBranch => At(s, i, if s.available <= 0 then RClear else ROpen)
      case RClear => if |s.buffer| < CLEARED then s.(fault := true) else At(s, i, RReset).(buffer := Cleared(s.buffer))
      case RReset => At(s, i, RLeave).(last := 0)
      case ROpen => At(s, i, RLeave).(readLocked := false)
      case RLeave => At(s, i, RGet).(locked := false)
  }

  /** A schedule names the thread of each step. */
  function Run(s: State, sched: seq<(nat, Byte)>): State
    decreases |sched|
  {
    if sched == [] then s else Run(Step(s, sched[0].0, sched[0].1), sched[1..])
  }

  /** create_device with `readers` reader threads, then `writers` writer threads. */
  function Init(size: nat, readers: nat, writers: nat): State {
    State(seq(size, _ => 0), 0, 0, false, true, seq(readers, _ => RGet) + seq(writers, _ => WIdle), [], [], false)
  }

  // ---------------------------------------------------------------- the invariant

  predicate Critical(pc: Pc) {
    pc.WMeasure? || pc.WPut? || pc.WEnd? || pc.WCount? || pc.WOpen? || pc.WLeave?
    || pc.RTake? || pc.RCount? || pc.RBranch? || pc.ROpen? || pc.RClear? || pc.RReset? || pc.RLeave?
  }

  predicate Reading(pc: Pc) {
    pc.RGet? || pc.RTest? || pc.RBackOff? || pc.RTake? || pc.RCount? || pc.RBranch? || pc.ROpen? || pc.RClear?
        || pc.RReset? || pc.RLeave?
  }

  /** The thread was let through read_lock and has not yet counted the byte it may take. */
  predicate HasToken(pc: Pc) {
    pc.RTest? || pc.RBackOff? || pc.RTake? || pc.RCount?
  }

  /** Permissions to take a byte: a free read_lock is one, a reader it let through another. */
  function Tokens(s: State): nat {
    (if s.readLocked then 0 else 1) + if s.threads != [] && HasToken(s.threads[0]) then 1 else 0
  }

  /** The bytes stored since the buffer was last cleared. */
  function Segment(s: State): seq<Byte>
    requires s.last <= |s.got| <= |s.sent|
  {
    s.sent[|s.got| - s.last..]
  }

  function Pending(s: State): int {
    |s.sent| - |s.got|
  }

  ghost predicate Rest(s: State)
    requires s.last <= |s.got| <= |s.sent|
  {
    s.available == Pending(s) && Holds(s.buffer, Segment(s))
  }

  /** What holds at each statement of the critical section. */
  ghost predicate Inside(s: State, pc: Pc)
    requires s.last <= |s.got| <= |s.sent|
  {
    var x := Segment(s);
    match pc
    case WMeasure(b) => Rest(s) && b != 0
    case WPut(b, len) => Rest(s) && b != 0 && len == |x|
    case WEnd(len) =>
      && |x| <= |s.buffer| && s.buffer[..|x|] == x && len + 1 == |x| && s.available == Pending(s) - 1
      && forall k :: 0 <= k < |x| ==> x[k] != 0
    case WCount => s.available == Pending(s) - 1 && Holds(s.buffer, x)
    case WOpen => Rest(s) && s.available >= Tokens(s) + 1
    case RCount => s.available == Pending(s) + 1 && Holds(s.buffer, x)
    case ROpen => Rest(s) && s.available >= 1
    case RClear => Rest(s) && s.available == 0
    case RReset => s.available == 0 == Pending(s) && Holds(s.buffer, []) && |x| < |s.buffer|
    case _ => Rest(s)
  }

  /** Some thread is about to free read_lock, or has been let through it. */
  ghost predicate WakeUpDue(s: State) {
    || !s.readLocked
    || exists i :: 0 <= i < |s.threads| && (HasToken(s.threads[i]) || s.threads[i].WOpen? || s.threads[i].RBranch?
                                            || s.threads[i].ROpen?)
  }

  /** At most one thread is in the critical section, and the mutex says whether one is. */
  ghost predicate Exclusive(s: State) {
    && (forall i :: 0 < i < |s.threads| ==> !Reading(s.threads[i]))
    && (forall i, j :: 0 <= i < j < |s.threads| ==> !(Critical(s.threads[i]) && Critical(s.threads[j])))
    && (s.locked <==> exists i :: 0 <= i < |s.threads| && Critical(s.threads[i]))
  }

  ghost predicate Inv(s: State) {
    && 1 <= |s.buffer| <= MAX_BUFFER && !s.fault
    && Exclusive(s)
    && s.last <= |s.got| && s.got <= s.sent
    && (forall i :: 0 <= i < |s.threads| && s.threads[i].WGet? ==> s.threads[i].b != 0)
    && (forall i :: 0 <= i < |s.threads| && Critical(s.threads[i]) ==> Inside(s, s.threads[i]))
    && (!s.locked ==> Rest(s))
    && s.available >= Tokens(s)
    && (s.available >= 1 ==> WakeUpDue(s))
  }

  // ---------------------------------------------------------------- every step keeps it

  /** The next state has the shared facts that do not depend on where threads are. */
  ghost predicate Sound(t: State) {
    && 1 <= |t.buffer| <= MAX_BUFFER && !t.fault && t.last <= |t.got| && t.got <= t.sent
    && t.available >= Tokens(t) && (t.available >= 1 ==> WakeUpDue(t))
  }

  lemma RestSame(s: State, t: State)
    requires s.last <= |s.got| <= |s.sent| && t == s.(threads := t.threads, readLocked := t.readLocked)
    ensures Rest(t) == Rest(s)
  {
  }

  /** What holds inside the critical section does not depend on where the others are. */
  lemma InsideSame(s: State, t: State, pc: Pc)
    requires s.last <= |s.got| <= |s.sent| && t == s.(threads := t.threads, readLocked := t.readLocked)
    requires Inside(s, pc) && Tokens(t) <= Tokens(s)
    ensures Inside(t, pc)
  {
    hide Holds, Tokens;
  }

  /** A step outside the critical section changes only the thread and read_lock. */
  lemma OutsideKeeps(s: State, t: State, i: nat, pc: Pc)
    requires Inv(s) && i < |s.threads| && t == At(s, i, pc).(readLocked := t.readLocked)
    requires !Critical(s.threads[i]) && !Critical(pc) && Reading(pc) == Reading(s.threads[i])
    requires Tokens(t) <= Tokens(s) && (pc.WGet? ==> pc.b != 0)
    requires t.available >= 1 ==> WakeUpDue(t)
    ensures Inv(t)
  {
    hide Inside, Rest, WakeUpDue, Tokens;
    RestSame(s, t);
    forall j | 0 <= j < |t.threads| && Critical(t.threads[j]) ensures Inside(t, t.threads[j]) {
      assert t.threads[j] == s.threads[j] && Inside(s, s.threads[j]);
      InsideSame(s, t, s.threads[j]);
    }
    if s.locked {
      var j :| 0 <= j < |s.threads| && Critical(s.threads[j]);
      assert Critical(t.threads[j]);
    }
  }

  /** A step from one statement of the critical section to another. */
  lemma InsideKeeps(s: State, t: State, i: nat, pc: Pc)
    requires Inv(s) && i < |s.threads| && t.threads == s.threads[i := pc] && t.locked == s.locked
    requires Critical(s.threads[i]) && Critical(pc) && Reading(pc) == Reading(s.threads[i])
    requires Sound(t) && Inside(t, pc)
    ensures Inv(t)
  {
    assert Critical(t.threads[i]);
  }

  lemma EnterKeeps(s: State, t: State, i: nat, pc: Pc)
    requires Inv(s) && i < |s.threads| && t == At(s, i, pc).(locked := true)
    requires !s.locked && Critical(pc) && Reading(pc) == Reading(s.threads[i])
    requires Sound(t) && Inside(t, pc)
    ensures Inv(t)
  {
    assert Critical(t.threads[i]);
  }

  lemma LeaveKeeps(s: State, t: State, i: nat, pc: Pc)
    requires Inv(s) && i < |s.threads| && t == At(s, i, pc).(locked := false)
    requires Critical(s.threads[i]) && !Critical(pc) && Reading(pc) == Reading(s.threads[i]) && !pc.WGet?
    requires Sound(t) && Rest(s)
    ensures Inv(t)
  {
  }

  /** A pending wake-up of another thread is still pending. */
  lemma StillDue(s: State, t: State, i: nat, pc: Pc)
    requires WakeUpDue(s) && i < |s.threads| && t.threads == s.threads[i := pc]
    requires !t.readLocked || t.readLocked == s.readLocked
    requires var from := s.threads[i]; HasToken(from) || from.WOpen? || from.RBranch? || from.ROpen? ==>
      !t.readLocked || HasToken(pc) || pc.WOpen? || pc.RBranch? || pc.ROpen?
    ensures WakeUpDue(t)
  {
    if t.readLocked {
      var j :| 0 <= j < |s.threads| &&
               (HasToken(s.threads[j]) || s.threads[j].WOpen? || s.threads[j].RBranch? || s.threads[j].ROpen?);
      assert if j == i then t.threads[i] == pc else t.threads[j] == s.threads[j];
    }
  }

  /** What a thread about to take a step may rely on. */
  lemma Facts(s: State, i: nat)
    requires Inv(s) && i < |s.threads|
    ensures Sound(s) && (!s.locked ==> Rest(s))
    ensures Critical(s.threads[i]) ==> Inside(s, s.threads[i])
    ensures Reading(s.threads[i]) ==> i == 0
    ensures s.threads[i].WGet? ==> s.threads[i].b != 0
  {
  }

  // The bytes not cleared, before and after a step.

  lemma LongerSegment(s: State, t: State, c: Byte)
    requires s.last <= |s.got| && s.got <= s.sent && t.sent == s.sent + [c] && t.got == s.got && t.last == s.last
    ensures t.got <= t.sent && Segment(t) == Segment(s) + [c]
  {
  }

  lemma StringFits(buffer: seq<Byte>, x: seq<Byte>)
    requires Holds(buffer, x)
    ensures |x| < |buffer|
  {
  }

  lemma SegmentSame(s: State, t: State)
    requires s.last <= |s.got| <= |s.sent| && t.sent == s.sent && t.got == s.got && t.last == s.last
    ensures Segment(t) == Segment(s)
  {
  }

  lemma SegmentTaken(s: State, t: State)
    requires s.last <= |s.got| < |s.sent| && t.sent == s.sent && |t.got| == |s.got| + 1 && t.last == s.last + 1
    ensures Segment(t) == Segment(s)
  {
  }

  lemma EndShape(s: State, i: nat, b: Byte)
    requires i < |s.threads| && s.threads[i].WEnd? && !s.fault
    ensures var n := s.threads[i].len + 1;
            Step(s, i, b) == if n >= |s.buffer| then s.(fault := true)
                             else At(s, i, WCount).(buffer := s.buffer[n := 0])
  {
  }

  lemma PutShape(s: State, i: nat, b: Byte)
    requires i < |s.threads| && s.threads[i].WPut? && !s.fault && s.threads[i].len < |s.buffer|
    ensures var pc := s.threads[i];
            Step(s, i, b) == At(s, i, WEnd(pc.len)).(buffer := s.buffer[pc.len := pc.b], sent := s.sent + [pc.b])
  {
  }

  /** The bytes not cleared and one more. */
  lemma OneLonger(buffer: seq<Byte>, x: seq<Byte>, c: Byte)
    requires Holds(buffer, x) && c != 0
    ensures |x| < |buffer| && buffer[|x| := c][..|x| + 1] == x + [c]
    ensures forall k :: 0 <= k < |x| + 1 ==> (x + [c])[k] != 0
  {
    assert forall k :: 0 <= k < |x| ==> buffer[..|x|][k] == x[k];
  }

  /** The terminator behind the bytes makes them a string. */
  lemma Terminated(buffer: seq<Byte>, x: seq<Byte>)
    requires |x| < |buffer| && buffer[..|x|] == x && forall k :: 0 <= k < |x| ==> x[k] != 0
    ensures Holds(buffer[|x| := 0], x)
  {
    assert buffer[|x| := 0][..|x|] == buffer[..|x|];
  }

  /** At most as many bytes are unread as have been stored since the last drain. */
  lemma SegmentLength(s: State)
    requires s.last <= |s.got| <= |s.sent|
    ensures |Segment(s)| == |s.sent| - |s.got| + s.last
  {
  }

  lemma StartKeeps(s: State, i: nat, b: Byte)
    requires Inv(s) && i < |s.threads| && b != 0 && (s.threads[i].WIdle? || s.threads[i].WGet?)
    ensures Inv(Step(s, i, b))
  {
    hide Inv, Holds, Segment;
    Facts(s, i);
    var t := Step(s, i, b);
    if t.threads != s.threads {
      SegmentSame(s, t);
      if s.available >= 1 {
        StillDue(s, t, i, t.threads[i]);
      }
      if s.threads[i].WIdle? {
        OutsideKeeps(s, t, i, WGet(b));
      } else {
        EnterKeeps(s, t, i, WMeasure(s.threads[i].b));
      }
    }
  }

  lemma MeasureKeeps(s: State, i: nat, b: Byte)
    requires Inv(s) && i < |s.threads| && s.threads[i].WMeasure?
    ensures Inv(Step(s, i, b))
  {
    hide Inv, StrLen, Holds, Segment;
    Facts(s, i);
    HoldsLength(s.buffer, Segment(s));
    StringFits(s.buffer, Segment(s));
    var t := Step(s, i, b);
    SegmentSame(s, t);
    if s.available >= 1 {
      StillDue(s, t, i, t.threads[i]);
    }
    InsideKeeps(s, t, i, WPut(s.threads[i].b, |Segment(s)|));
  }

  lemma CountKeeps(s: State, i: nat, b: Byte)
    requires Inv(s) && i < |s.threads| && s.threads[i].WCount?
    ensures Inv(Step(s, i, b))
  {
    hide Inv, Holds, Segment;
    Facts(s, i);
    StringFits(s.buffer, Segment(s));
    SegmentLength(s);
    var t := Step(s, i, b);
    SegmentSame(s, t);
    assert t.threads[i].WOpen?;
    InsideKeeps(s, t, i, WOpen);
  }

  lemma UnlockKeeps(s: State, i: nat, b: Byte)
    requires Inv(s) && i < |s.threads| && (s.threads[i].WOpen? || s.threads[i].WLeave?)
    ensures Inv(Step(s, i, b))
  {
    hide Inv, Holds, Segment;
    Facts(s, i);
    var t := Step(s, i, b);
    SegmentSame(s, t);
    if s.threads[i].WOpen? {
      InsideKeeps(s, t, i, WLeave);
    } else {
      if s.available >= 1 {
        StillDue(s, t, i, WIdle);
      }
      LeaveKeeps(s, t, i, WIdle);
    }
  }

  /** append stores the byte behind the string. */
  lemma PutKeeps(s: State, i: nat, b: Byte)
    requires Inv(s) && i < |s.threads| && s.threads[i].WPut?
    ensures Inv(Step(s, i, b))
  {
    hide Inv, Step, StrLen, Holds, Segment;
    Facts(s, i);
    var x, c := Segment(s), s.threads[i].b;
    OneLonger(s.buffer, x, c);
    PutShape(s, i, b);
    var t := Step(s, i, b);
    LongerSegment(s, t, c);
    if s.available >= 1 {
      StillDue(s, t, i, WEnd(|x|));
    }
    InsideKeeps(s, t, i, WEnd(|x|));
  }

  /** Then it stores the terminator. That store leaves the buffer exactly when the bytes not yet
      cleared fill it. */
  lemma EndKeeps(s: State, i: nat, b: Byte)
    requires Inv(s) && i < |s.threads| && s.threads[i].WEnd?
    ensures var t := Step(s, i, b);
            if |Segment(s)| == |s.buffer| then t == s.(fault := true) else Inv(t)
  {
    hide Inv, Step, StrLen, Holds, Segment;
    Facts(s, i);
    EndShape(s, i, b);
    var t := Step(s, i, b);
    if !t.fault {
      if s.available >= 1 {
        StillDue(s, t, i, WCount);
      }
      Terminated(s.buffer, Segment(s));
      SegmentSame(s, t);
      InsideKeeps(s, t, i, WCount);
    }
  }

  lemma AdmitKeeps(s: State, i: nat, b: Byte)
    requires Inv(s) && i < |s.threads| && (s.threads[i].RGet? || s.threads[i].RTest? || s.threads[i].RBackOff?)
    ensures Inv(Step(s, i, b))
  {
    hide Inv, Holds, Segment;
    Facts(s, i);
    var t := Step(s, i, b);
    SegmentSame(s, t);
    if s.threads[i].RGet? {
      if !s.readLocked {
        assert HasToken(t.threads[0]);
        OutsideKeeps(s, t, i, RTest);
      }
    } else if s.threads[i].RTest? {
      assert HasToken(t.threads[0]);
      if s.locked {
        OutsideKeeps(s, t, i, RBackOff);
      } else {
        EnterKeeps(s, t, i, RTake);
      }
    } else {
      OutsideKeeps(s, t, i, RGet);
    }
  }

  lemma ReleaseKeeps(s: State, i: nat, b: Byte)
    requires Inv(s) && i < |s.threads| && (s.threads[i].RCount? || s.threads[i].RBranch?)
    ensures Inv(Step(s, i, b))
  {
    hide Inv, StrLen, Holds, Segment;
    Facts(s, i);
    StringFits(s.buffer, Segment(s));
    SegmentLength(s);
    var t := Step(s, i, b);
    SegmentSame(s, t);
    if s.threads[0].RCount? {
      assert t.threads[0].RBranch?;
      InsideKeeps(s, t, i, RBranch);
    } else {
      assert s.available > 0 ==> t.threads[0].ROpen?;
      InsideKeeps(s, t, i, if s.available <= 0 then RClear else ROpen);
    }
  }

  lemma ExitKeeps(s: State, i: nat, b: Byte)
    requires Inv(s) && i < |s.threads| && (s.threads[i].ROpen? || s.threads[i].RLeave?)
    ensures Inv(Step(s, i, b))
  {
    hide Inv, StrLen, Holds, Segment;
    Facts(s, i);
    var t := Step(s, i, b);
    SegmentSame(s, t);
    if s.threads[0].ROpen? {
      InsideKeeps(s, t, i, RLeave);
    } else {
      if s.available >= 1 {
        StillDue(s, t, i, RGet);
      }
      LeaveKeeps(s, t, i, RGet);
    }
  }

  /** The reader takes the oldest byte not yet read. */
  lemma TakeKeeps(s: State, b: Byte)
    requires Inv(s) && s.threads != [] && s.threads[0].RTake?
    ensures s.available >= 1 && Pending(s) >= 1
    ensures Inv(Step(s, 0, b)) && Step(s, 0, b).got == s.got + [s.sent[|s.got|]]
  {
    hide Inv, Step, StrLen, Holds, Segment;
    Facts(s, 0);
    assert HasToken(s.threads[0]) && Tokens(s) >= 1;
    OldestUnread(s);
    TakeShape(s, 0, b);
    var t := Step(s, 0, b);
    OneMore(s.got, s.sent);
    SegmentTaken(s, t);
    assert HasToken(t.threads[0]);
    hide WakeUpDue;
    InsideKeeps(s, t, 0, RCount);
  }

  /** The byte behind those taken so far is the oldest unread one. */
  lemma OldestUnread(s: State)
    requires s.last <= |s.got| < |s.sent| && Holds(s.buffer, Segment(s))
    ensures s.last < |s.buffer| && s.buffer[s.last] == s.sent[|s.got|]
  {
    var x := Segment(s);
    assert s.buffer[s.last] == s.buffer[..|x|][s.last] == x[s.last];
  }

  lemma OneMore(got: seq<Byte>, sent: seq<Byte>)
    requires got <= sent && |got| < |sent|
    ensures got + [sent[|got|]] == sent[..|got| + 1] && got + [sent[|got|]] <= sent
  {
  }

  lemma TakeShape(s: State, i: nat, b: Byte)
    requires i < |s.threads| && s.threads[i].RTake? && !s.fault && s.last < |s.buffer|
    ensures Step(s, i, b) == At(s, i, RCount).(last := s.last + 1, got := s.got + [s.buffer[s.last]])
  {
  }

  /** Clearing 8192 bytes is enough for every buffer that has as many: the terminator that each
      append writes keeps what is left behind them out of sight. */
  lemma ClearKeeps(s: State, b: Byte)
    requires Inv(s) && s.threads != []
    requires s.threads[0].RReset? || (s.threads[0].RClear? && |s.buffer| >= CLEARED)
    ensures Inv(Step(s, 0, b))
  {
    hide Inv, Step, StrLen, Holds, Cleared, WakeUpDue;
    Facts(s, 0);
    if s.threads[0].RClear? {
      ClearShape(s, b);
      ClearedHolds(s);
      InsideKeeps(s, Step(s, 0, b), 0, RReset);
    } else {
      ResetShape(s, b);
      NothingLeft(s.sent);
      InsideKeeps(s, Step(s, 0, b), 0, RLeave);
    }
  }

  lemma NothingLeft(sent: seq<Byte>)
    ensures sent[|sent|..] == []
  {
  }

  lemma ClearShape(s: State, b: Byte)
    requires s.threads != [] && s.threads[0].RClear? && !s.fault && |s.buffer| >= CLEARED
    ensures Step(s, 0, b) == At(s, 0, RReset).(buffer := Cleared(s.buffer))
  {
  }

  lemma ResetShape(s: State, b: Byte)
    requires s.threads != [] && s.threads[0].RReset? && !s.fault
    ensures Step(s, 0, b) == At(s, 0, RLeave).(last := 0)
  {
  }

  /** A cleared buffer holds the empty string. */
  lemma ClearedHolds(s: State)
    requires s.last <= |s.got| <= |s.sent| && |s.buffer| >= CLEARED && Holds(s.buffer, Segment(s))
    ensures |Cleared(s.buffer)| == |s.buffer| && Holds(Cleared(s.buffer), []) && |Segment(s)| < |s.buffer|
  {
  }

  /** The two ways out of the buffer: a terminator behind a full buffer, and clearing 8192 bytes
      of a buffer that has fewer. */
  ghost predicate Fails(s: State, i: nat)
    requires s.last <= |s.got| <= |s.sent|
  {
    && i < |s.threads|
    && ((s.threads[i].WEnd? && |Segment(s)| == |s.buffer|) || (s.threads[i].RClear? && |s.buffer| < CLEARED))
  }

  /** Every step of every thread keeps the protocol, or is one of those two. */
  lemma StepKeeps(s: State, i: nat, b: Byte)
    requires Inv(s) && b != 0
    ensures s.last <= |s.got| <= |s.sent|
    ensures Step(s, i, b).fault <==> Fails(s, i)
    ensures if Fails(s, i) then Step(s, i, b) == s.(fault := true) else Inv(Step(s, i, b))
  {
    NoFault(s);
    if i < |s.threads| {
      Facts(s, i);
      hide Inv, Inside, Sound;
      match s.threads[i] {
        case WIdle | WGet(_) => StartKeeps(s, i, b);
        case WMeasure(_) => MeasureKeeps(s, i, b);
        case WPut(_, _) => PutKeeps(s, i, b);
        case WEnd(_) => EndKeeps(s, i, b);
        case WCount => CountKeeps(s, i, b);
        case WOpen | WLeave => UnlockKeeps(s, i, b);
        case RGet | RTest | RBackOff => AdmitKeeps(s, i, b);
        case RTake => TakeKeeps(s, b);
        case RClear | RReset => if !Fails(s, i) { ClearKeeps(s, b); }
        case RCount | RBranch => ReleaseKeeps(s, i, b);
        case ROpen | RLeave => ExitKeeps(s, i, b);
      }
      if !Fails(s, i) {
        NoFault(Step(s, i, b));
      }
    }
  }

  lemma NoFault(s: State)
    requires Inv(s)
    ensures !s.fault && s.last <= |s.got| <= |s.sent|
  {
  }

  // ---------------------------------------------------------------- runs

  predicate NoNul(sched: seq<(nat, Byte)>) {
    forall k :: 0 <= k < |sched| ==> sched[k].1 != 0
  }

  /** The protocol holds, or everything stopped at a step that leaves the buffer. */
  ghost predicate Safe(s: State) {
    var t := s.(fault := false);
    Inv(t) && (s.fault ==> exists i :: Fails(t, i))
  }

  lemma InitInv(size: nat, readers: nat, writers: nat)
    requires 1 <= size <= MAX_BUFFER && readers <= 1
    ensures Inv(Init(size, readers, writers))
  {
    hide Init, Segment, Holds;
    InitShape(size, readers, writers);
  }

  /** A new device: nothing written, nothing read, and no thread inside a call. */
  lemma InitShape(size: nat, readers: nat, writers: nat)
    requires size >= 1
    ensures var s := Init(size, readers, writers);
            && |s.buffer| == size && s.available == 0 && s.last == 0 && !s.locked && s.readLocked && !s.fault
            && s.sent == [] && s.got == [] && Segment(s) == [] && Holds(s.buffer, [])
            && |s.threads| == readers + writers
            && forall i :: 0 <= i < |s.threads| ==> s.threads[i] == if i < readers then RGet else WIdle
  {
  }

  lemma {:induction false} RunKeeps(s: State, sched: seq<(nat, Byte)>)
    requires Safe(s) && NoNul(sched)
    ensures Safe(Run(s, sched))
    decreases |sched|
  {
    if sched != [] {
      var (i, b) := sched[0];
      hide Inv;
      if s.fault {
        assert Step(s, i, b) == s;
      } else {
        assert s.(fault := false) == s;
        Unfaulted(s, i, b);
      }
      RunKeeps(Step(s, i, b), sched[1..]);
    }
  }

  lemma Unfaulted(s: State, i: nat, b: Byte)
    requires Inv(s) && b != 0
    ensures Safe(Step(s, i, b))
  {
    hide Inv, Step, Fails;
    StepKeeps(s, i, b);
    NoFault(s);
    var t := Step(s, i, b);
    assert !t.fault ==> t.(fault := false) == t;
    assert t.fault ==> t.(fault := false) == s;
  }

  /** With one reader and any number of writers, for every schedule and every size of buffer:
      what was read is a prefix of what was written, and the reader never takes a byte that is
      not there, so `available` never wraps. Everything stops only when the bytes written since
      the last drain fill the buffer, or at the first drain of a buffer below 8192 bytes. */
  lemma StreamSafe(size: nat, writers: nat, sched: seq<(nat, Byte)>)
    requires 1 <= size <= MAX_BUFFER && NoNul(sched)
    ensures var t := Run(Init(size, 1, writers), sched);
            && t.last <= |t.got| && t.got <= t.sent && t.available <= size
            && (!t.fault && t.threads != [] && t.threads[0].RTake? ==> t.available >= 1 && |t.got| < |t.sent|)
            && (t.fault ==> |Segment(t)| == size || size < CLEARED)
  {
    InitInv(size, 1, writers);
    var s := Init(size, 1, writers);
    assert s.(fault := false) == s;
    RunKeeps(s, sched);
    RunSize(s, sched);
    SafeMeans(Run(s, sched));
  }

  lemma StepSize(s: State, i: nat, b: Byte)
    ensures |Step(s, i, b).buffer| == |s.buffer| && |Step(s, i, b).threads| == |s.threads|
  {
    hide StrLen, Decrement;
    if i < |s.threads| && !s.fault {
      match s.threads[i] {
        case RClear =>
        case WPut(_, _) =>
        case _ =>
      }
    }
  }

  lemma {:induction false} RunSize(s: State, sched: seq<(nat, Byte)>)
    ensures |Run(s, sched).buffer| == |s.buffer| && |Run(s, sched).threads| == |s.threads|
    decreases |sched|
  {
    hide Step;
    if sched != [] {
      StepSize(s, sched[0].0, sched[0].1);
      RunSize(Step(s, sched[0].0, sched[0].1), sched[1..]);
    }
  }

  lemma SafeMeans(t: State)
    requires Safe(t)
    ensures t.last <= |t.got| && t.got <= t.sent && t.available <= |t.buffer|
    ensures !t.fault && t.threads != [] && t.threads[0].RTake? ==> t.available >= 1 && |t.got| < |t.sent|
    ensures t.fault ==> |Segment(t)| == |t.buffer| || |t.buffer| < CLEARED
  {
    var s := t.(fault := false);
    if s.locked {
      var i :| 0 <= i < |s.threads| && Critical(s.threads[i]);
      assert Inside(s, s.threads[i]);
    }
    if s.threads != [] && s.threads[0].RTake? {
      assert Inside(s, s.threads[0]);
    }
  }

  /** When no thread is on its way, the buffer holds exactly the bytes written and not yet
      read, `available` is their number, and read_lock is free if and only if there are any. */
  lemma AtRest(s: State)
    requires Inv(s) && forall i :: 0 <= i < |s.threads| ==> s.threads[i] in {WIdle, RGet}
    ensures s.available == |s.sent| - |s.got| && !s.readLocked == (s.available >= 1)
    ensures s.last <= StrLen(s.buffer) && s.buffer[s.last..StrLen(s.buffer)] == s.sent[|s.got|..]
  {
    HoldsLength(s.buffer, Segment(s));
    assert s.buffer[s.last..StrLen(s.buffer)] == Segment(s)[s.last..];
  }

  // ---------------------------------------------------------------- undisturbed calls

  /** `n` steps of one thread in a row. */
  function Steps(s: State, i: nat, b: Byte, n: nat): State
    decreases n
  {
    if n == 0 then s else Steps(Step(s, i, b), i, b, n - 1)
  }

  function Turns(i: nat, b: Byte, n: nat): seq<(nat, Byte)> {
    seq(n, _ => (i, b))
  }

  lemma {:induction false} RunTurns(s: State, i: nat, b: Byte, n: nat, rest: seq<(nat, Byte)>)
    ensures Run(s, Turns(i, b, n) + rest) == Run(Steps(s, i, b, n), rest)
    decreases n
  {
    hide Step;
    if n == 0 {
      assert Turns(i, b, n) + rest == rest;
    } else {
      var all := Turns(i, b, n) + rest;
      assert all[0] == (i, b) && all[1..] == Turns(i, b, n - 1) + rest;
      RunTurns(Step(s, i, b), i, b, n - 1, rest);
    }
  }

  /** A thread that takes `n` steps ends in the state `ts[n]` of a list of successive states. */
  lemma {:induction false} StepsAlong(ts: seq<State>, i: nat, b: Byte)
    requires ts != [] && forall k :: 0 <= k < |ts| - 1 ==> Step(ts[k], i, b) == ts[k + 1]
    ensures Steps(ts[0], i, b, |ts| - 1) == ts[|ts| - 1]
    decreases |ts|
  {
    hide Step;
    if |ts| > 1 {
      assert forall k :: 0 <= k < |ts[1..]| - 1 ==> Step(ts[1..][k], i, b) == ts[1..][k + 1];
      assert ts[1..][0] == ts[1] == Step(ts[0], i, b);
      StepsAlong(ts[1..], i, b);
    }
  }

  /** A writer that is not disturbed appends its byte and frees read_lock; before the last of
      its eight steps it still holds the mutex. */
  lemma WriteAlone(s: State, i: nat, b: Byte)
    requires i < |s.threads| && s.threads[i] == WIdle && !s.locked && !s.fault
    requires StrLen(s.buffer) + 1 < |s.buffer| && s.available + 1 < U32
    ensures var t := s.(buffer := Appended(s.buffer, b), sent := s.sent + [b], available := s.available + 1,
                        readLocked := false);
            && Steps(s, i, b, 7) == At(t, i, WLeave).(locked := true)
            && Steps(s, i, b, 8) == t
  {
    hide Steps, StrLen, Step;
    AppendAlone(s, i, b);
    var ended := s.(locked := true, buffer := Appended(s.buffer, b), sent := s.sent + [b]);
    var t := ended.(available := s.available + 1, readLocked := false, locked := false);
    StoreAlone(ended, i, b);
    StepsAdd(s, i, b, 5, 2);
    StepsAdd(s, i, b, 7, 1);
    LeaveAlone(Steps(s, i, b, 7), i, b);
    assert At(t, i, WIdle) == t;
  }

  /** The first five steps take the mutex and append the byte. */
  lemma AppendAlone(s: State, i: nat, b: Byte)
    requires i < |s.threads| && s.threads[i] == WIdle && !s.locked && !s.fault
    requires StrLen(s.buffer) + 1 < |s.buffer|
    ensures Steps(s, i, b, 5) == At(s, i, WCount).(locked := true, buffer := Appended(s.buffer, b),
                                                   sent := s.sent + [b])
  {
    hide Steps, StrLen;
    var len := StrLen(s.buffer);
    var l := s.(locked := true);
    var put := l.(buffer := s.buffer[len := b], sent := s.sent + [b]);
    var ended := put.(buffer := Appended(s.buffer, b));
    StepsAlong([s, At(s, i, WGet(b)), At(l, i, WMeasure(b)), At(l, i, WPut(b, len)), At(put, i, WEnd(len)),
                At(ended, i, WCount)], i, b);
  }

  /** The next two count it and free read_lock. */
  lemma StoreAlone(s: State, i: nat, b: Byte)
    requires i < |s.threads| && !s.fault && s.available + 1 < U32
    ensures Steps(At(s, i, WCount), i, b, 2) == At(s, i, WLeave).(available := s.available + 1, readLocked := false)
  {
    hide Steps, StrLen;
    var counted := s.(available := s.available + 1);
    StepsAlong([At(s, i, WCount), At(counted, i, WOpen), At(counted, i, WLeave).(readLocked := false)], i, b);
  }

  lemma {:induction false} StepsAdd(s: State, i: nat, b: Byte, m: nat, n: nat)
    ensures Steps(s, i, b, m + n) == Steps(Steps(s, i, b, m), i, b, n)
    decreases m
  {
    hide Step;
    if m > 0 {
      StepsAdd(Step(s, i, b), i, b, m - 1, n);
    }
  }

  lemma TakeAlone(s: State, i: nat, b: Byte)
    requires i < |s.threads| && s.threads[i] == RTest && !s.locked && !s.fault
    requires s.last < |s.buffer| && 1 <= s.available < U32
    ensures Steps(s, i, b, 3) == At(s, i, RBranch).(locked := true, last := s.last + 1,
                                                    got := s.got + [s.buffer[s.last]], available := s.available - 1)
  {
    var taken := s.(locked := true, last := s.last + 1, got := s.got + [s.buffer[s.last]]);
    var counted := taken.(available := s.available - 1);
    StepsAlong([s, At(s, i, RTake).(locked := true), At(taken, i, RCount), At(counted, i, RBranch)], i, b);
  }

  /** A reader that was let through and finds the mutex free takes one byte. */
  lemma ReadAlone(s: State, i: nat, b: Byte)
    requires i < |s.threads| && s.threads[i] == RTest && !s.locked && !s.fault
    requires s.last < |s.buffer| && 2 <= s.available < U32
    ensures Steps(s, i, b, 6) == At(s, i, RGet).(got := s.got + [s.buffer[s.last]], available := s.available - 1,
                                                 last := s.last + 1, readLocked := false)
  {
    hide StrLen, Decrement, Steps;
    TakeAlone(s, i, b);
    StepsAdd(s, i, b, 3, 3);
    var t := Steps(s, i, b, 3);
    var freed := t.(readLocked := false);
    StepsAlong([t, At(t, i, ROpen), At(freed, i, RLeave), At(freed, i, RGet).(locked := false)], i, b);
  }

  /** The same for the last byte: the buffer is cleared, and read_lock stays taken. */
  lemma ReadLast(s: State, i: nat, b: Byte)
    requires i < |s.threads| && s.threads[i] == RTest && !s.locked && !s.fault
    requires s.last < |s.buffer| && CLEARED <= |s.buffer| && s.available == 1
    ensures Steps(s, i, b, 7) == At(s, i, RGet).(got := s.got + [s.buffer[s.last]], available := 0,
                                                 last := 0, buffer := Cleared(s.buffer))
  {
    hide StrLen, Decrement, Steps;
    TakeAlone(s, i, b);
    StepsAdd(s, i, b, 3, 4);
    var t := Steps(s, i, b, 3);
    var cleared := t.(buffer := Cleared(s.buffer));
    var reset := cleared.(last := 0);
    StepsAlong([t, At(t, i, RClear), At(cleared, i, RReset), At(reset, i, RLeave),
                At(reset, i, RGet).(locked := false)], i, b);
  }

  // ---------------------------------------------------------------- what the protocol needs

  lemma AdmitAlone(s: State, i: nat, b: Byte)
    requires i < |s.threads| && s.threads[i] == RGet && !s.readLocked && !s.fault
    ensures Steps(s, i, b, 1) == At(s, i, RTest).(readLocked := true)
  {
    assert Steps(s, i, b, 1) == Steps(Step(s, i, b), i, b, 0);
  }

  lemma LeaveAlone(s: State, i: nat, b: Byte)
    requires i < |s.threads| && s.threads[i] == WLeave && !s.fault
    ensures Steps(s, i, b, 1) == At(s, i, WIdle).(locked := false)
  {
    assert Steps(s, i, b, 1) == Steps(Step(s, i, b), i, b, 0);
  }

  /** A reader takes whatever is at `last`. */
  lemma GrabAlone(s: State, i: nat, b: Byte)
    requires i < |s.threads| && s.threads[i] == RTest && !s.locked && !s.fault && s.last < |s.buffer|
    ensures Steps(s, i, b, 2) == At(s, i, RCount).(locked := true, last := s.last + 1,
                                                   got := s.got + [s.buffer[s.last]])
  {
    var t := At(s, i, RTake).(locked := true);
    StepsAlong([s, t, At(s, i, RCount).(locked := true, last := s.last + 1, got := s.got + [s.buffer[s.last]])], i, b);
  }

  /** A schedule that lets two readers through while a writer stores two bytes; the first
      reader then takes both. */
  function TwoReaders(w: nat): seq<(nat, Byte)> {
    Turns(w, 1, 8) + (Turns(0, 1, 1) + (Turns(w, 2, 7) + (Turns(1, 1, 1) + (Turns(w, 2, 1) + SecondHalf()))))
  }

  function SecondHalf(): seq<(nat, Byte)> {
    Turns(0, 1, 6) + (Turns(0, 1, 1) + (Turns(0, 1, 7) + (Turns(1, 1, 2) + [])))
  }

  lemma TwoReadersNoNul(w: nat)
    ensures NoNul(TwoReaders(w))
  {
  }

  /** Both readers are past read_lock and two bytes are in the buffer. */
  function BothAdmitted(size: nat, threads: seq<Pc>): State
    requires size >= CLEARED && |threads| >= 2
  {
    State([1, 2] + seq(size - 2, _ => 0), 0, 2, false, true, threads[0 := RTest][1 := RTest], [1, 2], [], false)
  }

  lemma FirstHalfRuns(size: nat, readers: nat, writers: nat)
    requires CLEARED <= size <= MAX_BUFFER && readers >= 2 && writers >= 1
    ensures var s := Init(size, readers, writers);
            Run(s, TwoReaders(readers)) == Run(BothAdmitted(size, s.threads), SecondHalf())
  {
    hide Step, Run, Steps, StrLen, Turns, SecondHalf;
    var w := readers;
    var s0 := Init(size, readers, writers);
    FirstNul(s0.buffer, 0);
    WriteAlone(s0, w, 1);
    var s1 := s0.(buffer := [1] + seq(size - 1, _ => 0), sent := [1], available := 1, readLocked := false);
    assert Steps(s0, w, 1, 8) == s1;
    AdmitAlone(s1, 0, 1);
    var s2 := At(s1, 0, RTest).(readLocked := true);
    FirstNul(s2.buffer, 1);
    WriteAlone(s2, w, 2);
    var s3 := At(s2, w, WLeave).(buffer := [1, 2] + seq(size - 2, _ => 0), sent := [1, 2], available := 2,
                                 readLocked := false, locked := true);
    assert Steps(s2, w, 2, 7) == s3;
    AdmitAlone(s3, 1, 1);
    var s4 := At(s3, 1, RTest).(readLocked := true);
    LeaveAlone(s4, w, 2);
    assert Steps(s4, w, 2, 1) == BothAdmitted(size, s0.threads);
    var r4 := Turns(w, 2, 1) + SecondHalf();
    var r3 := Turns(1, 1, 1) + r4;
    var r2 := Turns(w, 2, 7) + r3;
    RunTurns(s0, w, 1, 8, Turns(0, 1, 1) + r2);
    RunTurns(s1, 0, 1, 1, r2);
    RunTurns(s2, w, 2, 7, r3);
    RunTurns(s3, 1, 1, 1, r4);
    RunTurns(s4, w, 2, 1, SecondHalf());
  }

  lemma SecondHalfRuns(size: nat, threads: seq<Pc>)
    requires CLEARED <= size <= MAX_BUFFER && |threads| >= 2
    ensures var t := Run(BothAdmitted(size, threads), SecondHalf()); t.sent == [1, 2] && t.got == [1, 2, 0]
  {
    hide Step, Steps;
    var s0 := BothAdmitted(size, threads);
    ReadAlone(s0, 0, 1);
    var s1 := Steps(s0, 0, 1, 6);
    AdmitAlone(s1, 0, 1);
    var s2 := Steps(s1, 0, 1, 1);
    ReadLast(s2, 0, 1);
    var s3 := Steps(s2, 0, 1, 7);
    GrabAlone(s3, 1, 1);
    var s4 := Steps(s3, 1, 1, 2);
    RunTurns(s0, 0, 1, 6, Turns(0, 1, 1) + (Turns(0, 1, 7) + (Turns(1, 1, 2) + [])));
    RunTurns(s1, 0, 1, 1, Turns(0, 1, 7) + (Turns(1, 1, 2) + []));
    RunTurns(s2, 0, 1, 7, Turns(1, 1, 2) + []);
    RunTurns(s3, 1, 1, 2, []);
    assert Run(s4, []) == s4;
  }

  /** Every schedule of these threads keeps what is read a prefix of what is written. */
  ghost predicate OrderKept(size: nat, readers: nat, writers: nat) {
    forall sched: seq<(nat, Byte)> :: NoNul(sched) ==>
      Run(Init(size, readers, writers), sched).got <= Run(Init(size, readers, writers), sched).sent
  }

  /** The protocol supports exactly one reader at a time, or none. */
  lemma OneReaderExactly(size: nat, readers: nat, writers: nat)
    requires CLEARED <= size <= MAX_BUFFER && writers >= 1
    ensures OrderKept(size, readers, writers) <==> readers <= 1
  {
    if readers <= 1 {
      forall sched: seq<(nat, Byte)> | NoNul(sched)
        ensures Run(Init(size, readers, writers), sched).got <= Run(Init(size, readers, writers), sched).sent
      {
        var s := Init(size, readers, writers);
        InitInv(size, readers, writers);
        assert s.(fault := false) == s;
        RunKeeps(s, sched);
        SafeMeans(Run(s, sched));
      }
    } else {
      TwoReadersNoNul(readers);
      FirstHalfRuns(size, readers, writers);
      SecondHalfRuns(size, Init(size, readers, writers).threads);
    }
  }

  /** With a NUL among the bytes written the order is lost: the byte after it is stored in its
      place and read first. */
  function NulThenByte(b: Byte): seq<(nat, Byte)> {
    Turns(1, 0, 8) + (Turns(1, b, 8) + (Turns(0, b, 1) + (Turns(0, b, 6) + [])))
  }

  lemma NulBreaksOrder(size: nat, writers: nat, b: Byte)
    requires 2 <= size <= MAX_BUFFER && writers >= 1 && b != 0
    ensures var t := Run(Init(size, 1, writers), NulThenByte(b)); t.sent == [0, b] && t.got == [b]
  {
    hide Step, Steps;
    var s0 := Init(size, 1, writers);
    FirstNul(s0.buffer, 0);
    WriteAlone(s0, 1, 0);
    var s1 := Steps(s0, 1, 0, 8);
    FirstNul(s1.buffer, 0);
    WriteAlone(s1, 1, b);
    var s2 := Steps(s1, 1, b, 8);
    AdmitAlone(s2, 0, b);
    var s3 := Steps(s2, 0, b, 1);
    ReadAlone(s3, 0, b);
    var s4 := Steps(s3, 0, b, 6);
    RunTurns(s0, 1, 0, 8, Turns(1, b, 8) + (Turns(0, b, 1) + (Turns(0, b, 6) + [])));
    RunTurns(s1, 1, b, 8, Turns(0, b, 1) + (Turns(0, b, 6) + []));
    RunTurns(s2, 0, b, 1, Turns(0, b, 6) + []);
    RunTurns(s3, 0, b, 6, []);
    assert Run(s4, []) == s4;
  }

  predicate Uses(sched: seq<(nat, Byte)>, bytes: set<Byte>) {
    forall k :: 0 <= k < |sched| ==> sched[k].1 in bytes
  }

  lemma NulThenByteUses(b: Byte, bytes: set<Byte>)
    requires 0 in bytes && b in bytes
    ensures Uses(NulThenByte(b), bytes)
  {
  }

  /** For writers that use some byte other than NUL, the order is kept by every schedule if
      and only if NUL is not among the bytes they use. */
  lemma NulExactly(size: nat, writers: nat, bytes: set<Byte>, b: Byte)
    requires 2 <= size <= MAX_BUFFER && writers >= 1 && b in bytes && b != 0
    ensures (forall sched: seq<(nat, Byte)> :: Uses(sched, bytes) ==>
               Run(Init(size, 1, writers), sched).got <= Run(Init(size, 1, writers), sched).sent)
            <==> 0 !in bytes
  {
    if 0 in bytes {
      NulBreaksOrder(size, writers, b);
      NulThenByteUses(b, bytes);
      var t := Run(Init(size, 1, writers), NulThenByte(b));
      assert t.got[0] != t.sent[0];
    } else {
      forall sched: seq<(nat, Byte)> | Uses(sched, bytes)
        ensures Run(Init(size, 1, writers), sched).got <= Run(Init(size, 1, writers), sched).sent
      {
        StreamSafe(size, writers, sched);
      }
    }
  }

  /** One byte written and read: the drain that follows clears 8192 bytes. */
  function FirstDrain(): seq<(nat, Byte)> {
    Turns(1, 1, 8) + (Turns(0, 1, 1) + (Turns(0, 1, 3) + (Turns(0, 1, 2) + [])))
  }

  lemma FirstDrainNoNul()
    ensures NoNul(FirstDrain())
    ensures FirstDrain() == Turns(1, 1, 8) + (Turns(0, 1, 1) + (Turns(0, 1, 3) + (Turns(0, 1, 2) + [])))
  {
  }

  /** A buffer of one page, as create_device makes it for a page size of 0, is left by the first
      drain, after a single byte. */
  lemma ShortBufferFails(size: nat, writers: nat)
    requires 2 <= size < CLEARED && writers >= 1
    ensures var t := Run(Init(size, 1, writers), FirstDrain());
            NoNul(FirstDrain()) && t.fault && t.sent == [1] && t.got == [1] && t.last == 1
  {
    hide Step, Steps, NoNul, StrLen, Run, Turns, FirstDrain;
    FirstDrainNoNul();
    var s0 := Init(size, 1, writers);
    FirstNul(s0.buffer, 0);
    WriteAlone(s0, 1, 1);
    var s1 := Steps(s0, 1, 1, 8);
    AdmitAlone(s1, 0, 1);
    var s2 := Steps(s1, 0, 1, 1);
    TakeAlone(s2, 0, 1);
    var s3 := Steps(s2, 0, 1, 3);
    DrainAlone(s3, 0, 1);
    var s4 := Steps(s3, 0, 1, 2);
    RunTurns(s0, 1, 1, 8, Turns(0, 1, 1) + (Turns(0, 1, 3) + (Turns(0, 1, 2) + [])));
    RunTurns(s1, 0, 1, 1, Turns(0, 1, 3) + (Turns(0, 1, 2) + []));
    RunTurns(s2, 0, 1, 3, Turns(0, 1, 2) + []);
    RunTurns(s3, 0, 1, 2, []);
    RunNothing(s4);
  }

  lemma RunNothing(s: State)
    ensures Run(s, []) == s
  {
  }

  lemma DrainAlone(s: State, i: nat, b: Byte)
    requires i < |s.threads| && s.threads[i] == RBranch && !s.fault && s.available == 0 && |s.buffer| < CLEARED
    ensures Steps(s, i, b, 2) == At(s, i, RClear).(fault := true)
  {
    hide Steps, StrLen;
    StepsAlong([s, At(s, i, RClear), At(s, i, RClear).(fault := true)], i, b);
  }

  /** Every schedule stops only when the bytes written since the last drain fill the buffer. */
  ghost predicate StopsOnlyFull(size: nat, writers: nat) {
    forall sched: seq<(nat, Byte)> :: NoNul(sched) ==>
      var t := Run(Init(size, 1, writers), sched);
      t.fault ==> t.last <= |t.got| <= |t.sent| && |Segment(t)| == size
  }

  /** No schedule that writes fewer bytes than the buffer has ever stops. */
  ghost predicate RunsWhileShort(size: nat, writers: nat) {
    forall sched: seq<(nat, Byte)> :: NoNul(sched) ==>
      var t := Run(Init(size, 1, writers), sched);
      |t.sent| < size ==> !t.fault
  }

  /** The device needs the 8192 bytes that a drain clears, and nothing more: with fewer, and only
      then, a schedule stops that has not filled the buffer. */
  lemma BufferSizeExactly(size: nat, writers: nat)
    requires 2 <= size <= MAX_BUFFER && writers >= 1
    ensures StopsOnlyFull(size, writers) <==> size >= CLEARED
    ensures RunsWhileShort(size, writers) <==> size >= CLEARED
  {
    if size >= CLEARED {
      forall sched: seq<(nat, Byte)> | NoNul(sched)
        ensures var t := Run(Init(size, 1, writers), sched);
                t.last <= |t.got| <= |t.sent| && (t.fault ==> |Segment(t)| == size)
      {
        StreamSafe(size, writers, sched);
      }
    } else {
      hide Run;
      ShortBufferFails(size, writers);
      var t := Run(Init(size, 1, writers), FirstDrain());
      assert Segment(t) == [1];
    }
  }

  // ---------------------------------------------------------------- the calls in memory

  /** The `FD` of a character device. */
  class CharDevice {
    const buffer: array<Byte>
    var last: nat
    var available: nat
    var locked: bool
    var readLocked: bool

    /** create_device for a device of `size` bytes. */
    constructor (size: nat)
      requires size >= 1
      ensures Shows(Init(size, 0, 0)) && fresh(buffer)
    {
      buffer := new Byte[size](_ => 0);
      last, available, locked, readLocked := 0, 0, false, true;
    }

    /** The device has the contents and locks of a state of the protocol. */
    ghost predicate Shows(s: State)
      reads this, buffer
    {
      buffer[..] == s.buffer && last == s.last && available == s.available && locked == s.locked
          && readLocked == s.readLocked
    }

    /** write_byte_stream by a thread that nobody disturbs. */
    method WriteByteStream(b: Byte, ghost s: State, ghost i: nat)
      requires Shows(s) && i < |s.threads| && s.threads[i] == WIdle && !s.locked && !s.fault
      requires StrLen(s.buffer) + 1 < buffer.Length && s.available + 1 < U32
      modifies this, buffer
      ensures Shows(Steps(s, i, b, 8))
    {
      hide Steps, Step, StrLen;
      WriteAlone(s, i, b);
      locked := true;
      Append(buffer, b);
      available := (available + 1) % U32;
      readLocked := false;
      locked := false;
    }

    /** read_byte_stream by a thread that nobody disturbs, with a byte to read. */
    method ReadByteStream(ghost s: State, ghost i: nat, ghost b: Byte) returns (out: Byte)
      requires Shows(s) && i < |s.threads| && s.threads[i] == RGet && !s.locked && !s.readLocked && !s.fault
      requires s.last < buffer.Length && 1 <= s.available < U32 && (s.available == 1 ==> CLEARED <= buffer.Length)
      modifies this, buffer
      ensures var t := Steps(s, i, b, if s.available == 1 then 8 else 7);
              Shows(t) && t.got == s.got + [out]
    {
      hide Steps, StrLen, Step;
      AdmitAlone(s, i, b);
      StepsAdd(s, i, b, 1, if s.available == 1 then 7 else 6);
      ghost var admitted := Steps(s, i, b, 1);
      if s.available == 1 {
        ReadLast(admitted, i, b);
      } else {
        ReadAlone(admitted, i, b);
      }
      readLocked := true;
      locked := true;
      out := buffer[last];
      last := last + 1;
      available := Decrement(available);
      if available <= 0 {
        Clear();
        last := 0;
      } else {
        readLocked := false;
      }
      locked := false;
    }

    /** `memset(buffer, 0, PAGE_SIZE * 2)`. */
    method Clear()
      requires CLEARED <= buffer.Length
      modifies buffer
      ensures buffer[..] == Cleared(old(buffer[..]))
    {
      for k := 0 to CLEARED
        invariant forall j :: 0 <= j < buffer.Length ==> buffer[j] == if j < k then 0 else old(buffer[j])
      {
        buffer[k] := 0;
      }
    }
  }
}
