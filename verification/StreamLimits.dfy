/** How much may be written to a character device: runs that reach the limit, and that there is no
    other. */
module StreamLimits {
  import opened Machine
  import opened Stream
  import StreamShort

  /** A device after `k` undisturbed writes of the byte 1. */
  function Filled(size: nat, writers: nat, k: nat): State
    requires k <= size
  {
    State(seq(k, _ => 1) + seq(size - k, _ => 0), 0, k, false, k == 0, [RGet] + seq(writers, _ => WIdle),
          seq(k, _ => 1), [], false)
  }

  /** `n` writes in a row, then the rest of a schedule. */
  function Writes(n: nat, rest: seq<(nat, Byte)>): seq<(nat, Byte)> {
    if n == 0 then rest else Turns(1, 1, 8) + Writes(n - 1, rest)
  }

  lemma {:induction false} WritesNoNul(n: nat, rest: seq<(nat, Byte)>)
    requires NoNul(rest)
    ensures NoNul(Writes(n, rest))
  {
    if n > 0 {
      WritesNoNul(n - 1, rest);
    }
  }

  lemma NothingWritten(size: nat, writers: nat)
    ensures Init(size, 1, writers) == Filled(size, writers, 0)
  {
  }

  lemma FilledString(size: nat, writers: nat, k: nat)
    requires k < size
    ensures StrLen(Filled(size, writers, k).buffer) == k
  {
    FirstNul(Filled(size, writers, k).buffer, k);
  }

  lemma OneMoreWrite(size: nat, writers: nat, k: nat)
    requires k + 1 < size <= MAX_BUFFER && writers >= 1
    ensures Steps(Filled(size, writers, k), 1, 1, 8) == Filled(size, writers, k + 1)
  {
    hide Steps, StrLen;
    FilledString(size, writers, k);
    var s, t := Filled(size, writers, k), Filled(size, writers, k + 1);
    WriteAlone(s, 1, 1);
    assert Appended(s.buffer, 1) == t.buffer;
    assert s.sent + [1] == t.sent;
  }

  lemma {:induction false} WritesRun(size: nat, writers: nat, k: nat, n: nat, rest: seq<(nat, Byte)>)
    requires k + n < size <= MAX_BUFFER && writers >= 1
    ensures Run(Filled(size, writers, k), Writes(n, rest)) == Run(Filled(size, writers, k + n), rest)
    decreases n
  {
    hide Run, Steps, Filled;
    if n > 0 {
      RunTurns(Filled(size, writers, k), 1, 1, 8, Writes(n - 1, rest));
      OneMoreWrite(size, writers, k);
      WritesRun(size, writers, k + 1, n - 1, rest);
    }
  }

  /** The next write finds room for its byte, but none for the terminator. */
  lemma LastWriteStops(size: nat, writers: nat)
    requires size >= 1 && writers >= 1
    ensures var t := Steps(Filled(size, writers, size - 1), 1, 1, 5);
            t.fault && t.sent == seq(size - 1, _ => 1) + [1] && t.got == []
  {
    hide Steps, StrLen;
    var s, len: nat := Filled(size, writers, size - 1), size - 1;
    FilledString(size, writers, len);
    var l := s.(locked := true);
    var put := l.(buffer := s.buffer[len := 1], sent := s.sent + [1]);
    StepsAlong([s, At(s, 1, WGet(1)), At(l, 1, WMeasure(1)), At(l, 1, WPut(1, len)), At(put, 1, WEnd(len)),
                At(put, 1, WEnd(len)).(fault := true)], 1, 1);
  }

  /** A schedule of writes that leaves a buffer of any size. */
  function FillUp(size: nat): seq<(nat, Byte)>
    requires size >= 1
  {
    Writes(size - 1, Turns(1, 1, 5) + [])
  }

  /** As many bytes as the buffer has, written without a drain between them, leave it. */
  lemma FullBufferFails(size: nat, writers: nat)
    requires 1 <= size <= MAX_BUFFER && writers >= 1
    ensures var t := Run(Init(size, 1, writers), FillUp(size));
            NoNul(FillUp(size)) && t.fault && |t.sent| == size && t.got == []
  {
    hide Run, Steps, Filled, Writes;
    WritesNoNul(size - 1, Turns(1, 1, 5) + []);
    NothingWritten(size, writers);
    WritesRun(size, writers, 0, size - 1, Turns(1, 1, 5) + []);
    RunTurns(Filled(size, writers, size - 1), 1, 1, 5, []);
    LastWriteStops(size, writers);
    RunNothing(Steps(Filled(size, writers, size - 1), 1, 1, 5));
  }

  /** No schedule that writes at most `n` bytes in all leaves the buffer. */
  ghost predicate RunsUpTo(size: nat, writers: nat, n: nat) {
    forall sched: seq<(nat, Byte)> :: NoNul(sched) ==>
      var t := Run(Init(size, 1, writers), sched);
      |t.sent| <= n ==> !t.fault
  }

  /** The first number of bytes that can be too many: the size of the buffer, or 1 if it is too
      short for the drain. */
  function Limit(size: nat): nat {
    if size < CLEARED then 1 else size
  }

  /** How many bytes a device takes whatever the schedule: exactly those below its limit. */
  lemma LimitExactly(size: nat, writers: nat, n: nat)
    requires 1 <= size <= MAX_BUFFER && writers >= 1
    ensures RunsUpTo(size, writers, n) <==> n < Limit(size)
  {
    hide Run, NoNul, FillUp, FirstDrain;
    if n < Limit(size) {
      forall sched: seq<(nat, Byte)> | NoNul(sched)
        ensures var t := Run(Init(size, 1, writers), sched); |t.sent| <= n ==> !t.fault
      {
        if size < CLEARED {
          StreamShort.InitShort(size, 1, writers);
          StreamShort.ShortOrder(Init(size, 1, writers), sched);
        } else {
          StreamSafe(size, writers, sched);
        }
      }
    } else if 2 <= size < CLEARED {
      ShortBufferFails(size, writers);
      assert |Run(Init(size, 1, writers), FirstDrain()).sent| == 1;
    } else {
      FullBufferFails(size, writers);
      assert |Run(Init(size, 1, writers), FillUp(size)).sent| == size;
    }
  }
}
