/** Page tables and allocator together: where the frames of tables and directories come from
    (mem/paging.c, kernel/elf.c on top of mem/mem.c), and why they are never in use already. */
module PagingMemory {
  import Blocks
  import Boot
  import opened Machine
  import opened Memory
  import MemoryTheorems
  import Paging
  import PagingHeap

  // ---------------------------------------------------------------- frames and regions

  /** A region of pages that a caller holds, of either zone. */
  predicate HoldsPages(m: Mem, ptr: nat, r: Region) {
    r.Large? && ((ptr in m.owned && m.owned[ptr] == r) || (ptr in m.fastOwned && m.fastOwned[ptr] == r))
  }

  /** The frame lies in the region. */
  predicate On(m: Mem, f: nat, ptr: nat, r: Region) {
    HoldsPages(m, ptr, r) && ptr <= Addr(f) && Addr(f) + PAGE <= ptr + Bytes(r.order)
  }

  ghost predicate FrameBacked(m: Mem, f: nat) {
    exists ptr, r :: On(m, f, ptr, r)
  }

  /** Every directory and table lies in memory that the allocator has handed out. */
  ghost predicate Backed(s: Paging.State, m: Mem) {
    forall f :: f in s.ram ==> FrameBacked(m, f)
  }

  /** The pointer is not that of a region with a directory or table on it. */
  ghost predicate NoTable(s: Paging.State, m: Mem, ptr: nat) {
    forall f, r :: f in s.ram ==> !On(m, f, ptr, r)
  }

  /** Frames that have a virtual address of 32 bits. */
  const FRAMES := (U32 - BASE) / PAGE

  /** The zones are apart and all their frames have addresses. */
  ghost predicate MemOk(m: Mem) {
    MemoryTheorems.Inv(m) && m.kernel.tot <= m.fastOffset && m.fastOffset + m.fast.tot <= FRAMES
  }

  /** What is handed out has an address of 32 bits, so a frame number is one of 20 bits. */
  lemma BackedFits(m: Mem, f: nat)
    requires MemOk(m) && FrameBacked(m, f)
    ensures f < FRAMES && Addr(f) + PAGE <= U32
  {
    hide MemoryTheorems.Inv;
    var ptr, r :| On(m, f, ptr, r);
    if ptr in m.owned && m.owned[ptr] == r {
      MemoryTheorems.HeldInsideBlock(m, ptr);
    } else {
      MemoryTheorems.FastIsBlock(m, ptr);
    }
  }

  /** Two page regions under different pointers have no frame in common. */
  lemma FramesApart(m: Mem, f: nat, ptr: nat, r: Region, g: nat, other: nat, q: Region)
    requires MemOk(m) && On(m, f, ptr, r) && On(m, g, other, q) && ptr != other
    ensures f != g
  {
    hide MemoryTheorems.Inv;
    MemoryTheorems.RegionsDisjoint(m, ptr, Bytes(r.order), other, Bytes(q.order));
  }

  // ---------------------------------------------------------------- what a call leaves alone

  predicate Returns(op: Memory.Op, ptr: nat) {
    op == DoKfree(ptr) || op == DoKfreePage(ptr) || op == DoFfree(ptr)
  }

  /** A call takes away no region but the one it returns. */
  lemma StepHolds(m: Mem, op: Memory.Op, ptr: nat, r: Region)
    requires MemOk(m) && Memory.Step(m, op).Ran? && HoldsPages(m, ptr, r) && !Returns(op, ptr)
    ensures HoldsPages(Memory.Step(m, op).m, ptr, r)
  {
    hide MemoryTheorems.Inv, Memory.Step;
    if ptr in m.owned && m.owned[ptr] == r {
      Boot.StepSpares(m, op, {ptr});
    } else {
      MemoryTheorems.StepSparesFast(m, op, ptr);
    }
  }

  lemma MemStepOk(m: Mem, op: Memory.Op)
    requires MemOk(m) && Memory.Step(m, op).Ran?
    ensures MemOk(Memory.Step(m, op).m)
  {
    hide MemoryTheorems.Inv, Memory.Step;
    MemoryTheorems.StepKeeps(m, op);
    MemoryTheorems.StepZones(m, op);
  }

  /** Tables stay backed by every call that returns no region with a table on it. */
  lemma StepBacks(s: Paging.State, m: Mem, op: Memory.Op)
    requires MemOk(m) && Backed(s, m) && Memory.Step(m, op).Ran?
    requires forall ptr :: Returns(op, ptr) ==> NoTable(s, m, ptr)
    ensures MemOk(Memory.Step(m, op).m) && Backed(s, Memory.Step(m, op).m)
  {
    hide MemoryTheorems.Inv, Memory.Step, HoldsPages, MemOk;
    MemStepOk(m, op);
    forall f | f in s.ram ensures FrameBacked(Memory.Step(m, op).m, f) {
      assert FrameBacked(m, f);
      var ptr, r :| On(m, f, ptr, r);
      StepHolds(m, op, ptr, r);
      assert On(Memory.Step(m, op).m, f, ptr, r);
    }
  }

  /** A call that hands out a page as a new region: the page holds no directory or table yet. */
  lemma NewPage(s: Paging.State, m: Mem, op: Memory.Op, frame: nat, q: Region)
    requires MemOk(m) && Backed(s, m) && Memory.Step(m, op).Ran? && (forall ptr :: !Returns(op, ptr))
    requires On(Memory.Step(m, op).m, frame, Addr(frame), q) && (forall r :: !HoldsPages(m, Addr(frame), r))
    ensures frame !in s.ram
    ensures forall t: Paging.State :: t.ram.Keys <= s.ram.Keys + {frame} ==> Backed(t, Memory.Step(m, op).m)
  {
    hide MemoryTheorems.Inv, Memory.Step, HoldsPages, MemOk;
    StepBacks(s, m, op);
    if frame in s.ram {
      assert FrameBacked(m, frame);
      var ptr, r :| On(m, frame, ptr, r);
      StepHolds(m, op, ptr, r);
      FramesApart(Memory.Step(m, op).m, frame, ptr, r, frame, Addr(frame), q);
    }
    assert FrameBacked(Memory.Step(m, op).m, frame);
  }

  /** kalloc_page for a directory or a kernel table. */
  lemma KallocGivesNewFrame(s: Paging.State, m: Mem)
    requires MemOk(m) && Backed(s, m) && KallocPage(m, 0, PAGE).Ran?
    ensures var r := KallocPage(m, 0, PAGE);
            var frame := FrameAt(r.ptr);
            && r.ptr == Addr(frame) && frame !in s.ram && frame < m.kernel.tot && MemOk(r.m)
            && r.m.kernel.tot == m.kernel.tot && r.m.fastOffset == m.fastOffset
            && (forall t: Paging.State :: t.ram.Keys <= s.ram.Keys + {frame} ==> Backed(t, r.m))
  {
    hide MemoryTheorems.Inv, HoldsPages, KallocPage;
    MemoryTheorems.PageIsOne();
    MemoryTheorems.KallocKeeps(m, 0, PAGE);
    var op := DoKallocPage(0);
    var r := KallocPage(m, 0, PAGE);
    var frame := FrameAt(r.ptr);
    MemStepOk(m, op);
    MemoryTheorems.PageZones(m, 0, PAGE, 0);
    MemoryTheorems.HeldInsideBlock(r.m, r.ptr);
    NewRegion(m, r.m, frame, Large(frame, 0, PAGE));
    NewPage(s, m, op, frame, Large(frame, 0, PAGE));
  }

  /** A kernel page that nobody held is no region of the fast zone either. */
  lemma NewRegion(m: Mem, t: Mem, frame: nat, q: Region)
    requires MemOk(m) && frame < m.kernel.tot && Addr(frame) !in m.owned
    requires q == Large(frame, 0, PAGE) && t.owned == m.owned[Addr(frame) := q]
    ensures On(t, frame, Addr(frame), q) && forall r :: !HoldsPages(m, Addr(frame), r)
  {
    hide MemoryTheorems.Inv;
    MemoryTheorems.PageIsOne();
    if Addr(frame) in m.fastOwned {
      MemoryTheorems.FastIsBlock(m, Addr(frame));
    }
  }

  /** fmalloc for a table of a process. */
  lemma FmallocGivesNewFrame(s: Paging.State, m: Mem)
    requires MemOk(m) && Backed(s, m) && Fmalloc(m, PAGE).Ran?
    ensures var r := Fmalloc(m, PAGE);
            var frame := FrameAt(r.ptr);
            && r.ptr == Addr(frame) && frame !in s.ram && MemOk(r.m)
            && (forall t: Paging.State :: t.ram.Keys <= s.ram.Keys + {frame} ==> Backed(t, r.m))
  {
    hide MemoryTheorems.Inv, HoldsPages, Fmalloc;
    MemoryTheorems.FmallocKeeps(m, PAGE);
    var op := DoFmalloc(PAGE);
    var r := Fmalloc(m, PAGE);
    MemStepOk(m, op);
    MemoryTheorems.FastZones(m, PAGE, 0);
    MemoryTheorems.FastIsBlock(r.m, r.ptr);
    var q := r.m.fastOwned[r.ptr];
    MemoryTheorems.AddrFacts(r.m.fastOffset + q.pfn, 0);
    NewFastRegion(m, r.m, FrameAt(r.ptr), q);
    NewPage(s, m, op, FrameAt(r.ptr), q);
  }

  lemma NewFastRegion(m: Mem, t: Mem, frame: nat, q: Region)
    requires MemOk(m) && Addr(frame) !in m.fastOwned && frame >= m.fastOffset
    requires q.Large? && q.asked == PAGE <= Bytes(q.order) && Addr(frame) in t.fastOwned
    requires t.fastOwned[Addr(frame)] == q
    ensures On(t, frame, Addr(frame), q) && forall r :: !HoldsPages(m, Addr(frame), r)
  {
    hide MemoryTheorems.Inv;
    if Addr(frame) in m.owned && m.owned[Addr(frame)].Large? {
      MemoryTheorems.HeldInsideBlock(m, Addr(frame));
      assert false;
    }
  }

  // ---------------------------------------------------------------- the two machines together

  datatype System = System(mem: Mem, tabs: Paging.State)

  /** Any call of the allocator, a fault in user mode, or a new process with its directory. */
  datatype Op =
    | Call(op: Memory.Op)
    | Fault(pid: nat, va: nat, violation: bool)
    | Fork(pid: nat, areas: seq<Paging.Area>)

  datatype Result = Halted | Next(y: System)

  /** The handler reaches its fmalloc. */
  predicate NeedsTable(s: Paging.State, pid: nat, va: nat, violation: bool) {
    && Paging.UserFault(s, pid, va, violation, 0).Done?
    && !Paging.IsPresent(s.ram[s.procs[pid].dir][Paging.Row(va)])
  }

  function Step(y: System, op: Op): Result {
    match op
    case Call(op) =>
      (match Memory.Step(y.mem, op) case Stopped => Halted case Ran(t, _) => Next(System(t, y.tabs)))
    case Fault(pid, va, violation) =>
      if NeedsTable(y.tabs, pid, va, violation) then
        match Fmalloc(y.mem, PAGE)
        case Stopped => Halted
        case Ran(t, ptr) => Next(System(t, Served(y.tabs, pid, va, violation, FrameAt(ptr))))
      else Next(System(y.mem, Served(y.tabs, pid, va, violation, 0)))
    case Fork(pid, areas) =>
      if y.tabs.kdir !in y.tabs.ram then Halted
      else
        match KallocPage(y.mem, 0, PAGE)
        case Stopped => Halted
        case Ran(t, ptr) => Next(System(t, Paging.Spawn(y.tabs, pid, FrameAt(ptr), areas)))
  }

  /** The tables after a fault; a killed process changes none. */
  function Served(s: Paging.State, pid: nat, va: nat, violation: bool, frame: nat): Paging.State {
    Paging.Step(s, Paging.Fault(pid, va, violation, frame))
  }

  /** Callers return no region with a table on it; process numbers are not reused. */
  ghost predicate Legal(y: System, op: Op) {
    match op
    case Call(op) => forall ptr :: Returns(op, ptr) ==> NoTable(y.tabs, y.mem, ptr)
    case Fault(_, _, _) => true
    case Fork(pid, _) => pid !in y.tabs.procs
  }

  ghost predicate Inv(y: System) {
    MemOk(y.mem) && Paging.Inv(y.tabs) && Backed(y.tabs, y.mem)
  }

  /** The steps of the paging machine behind a step of both. */
  function Shadow(y: System, op: Op): seq<Paging.Op> {
    match op
    case Call(_) => []
    case Fault(pid, va, violation) =>
      if !Paging.UserFault(y.tabs, pid, va, violation, 0).Done? then []
      else if NeedsTable(y.tabs, pid, va, violation) then
        match Fmalloc(y.mem, PAGE)
        case Stopped => []
        case Ran(_, ptr) => [Paging.Fault(pid, va, violation, FrameAt(ptr))]
      else [Paging.Fault(pid, va, violation, 0)]
    case Fork(pid, areas) =>
      match KallocPage(y.mem, 0, PAGE)
      case Stopped => []
      case Ran(_, ptr) => [Paging.Fork(pid, FrameAt(ptr), areas)]
  }

  /** Each step is one of the paging machine, or none: the frames it uses are new because the
      allocator hands them out. */
  lemma StepShadowed(y: System, op: Op)
    requires Inv(y) && Legal(y, op) && Step(y, op).Next?
    ensures Inv(Step(y, op).y) && Paging.LegalRun(y.tabs, Shadow(y, op))
    ensures Step(y, op).y.tabs == Paging.Run(y.tabs, Shadow(y, op))
  {
    hide MemOk, Paging.Inv, Paging.Spawn, Paging.UserFault, Fmalloc, KallocPage, Memory.Step;
    match op {
      case Call(c) => StepBacks(y.tabs, y.mem, c);
      case Fault(pid, va, violation) => FaultShadowed(y, pid, va, violation);
      case Fork(pid, areas) =>
        KallocGivesNewFrame(y.tabs, y.mem);
        var frame := FrameAt(KallocPage(y.mem, 0, PAGE).ptr);
        SpawnFrames(y.tabs, pid, frame, areas);
        OneStep(y.tabs, Paging.Fork(pid, frame, areas));
    }
  }

  lemma SpawnFrames(s: Paging.State, pid: nat, frame: nat, areas: seq<Paging.Area>)
    requires Paging.Inv(s) && frame !in s.ram && pid !in s.procs
    ensures s.kdir in s.ram && Paging.Inv(Paging.Spawn(s, pid, frame, areas))
    ensures Paging.Spawn(s, pid, frame, areas).ram.Keys == s.ram.Keys + {frame}
  {
    Paging.SpawnKeeps(s, pid, frame, areas);
  }

  lemma FaultShadowed(y: System, pid: nat, va: nat, violation: bool)
    requires Inv(y) && Step(y, Fault(pid, va, violation)).Next?
    ensures var op := Fault(pid, va, violation);
            && Inv(Step(y, op).y) && Paging.LegalRun(y.tabs, Shadow(y, op))
            && Step(y, op).y.tabs == Paging.Run(y.tabs, Shadow(y, op))
  {
    hide MemOk, Paging.Inv, Fmalloc, Paging.CalcPfn, Paging.UserPte, Paging.With;
    if NeedsTable(y.tabs, pid, va, violation) {
      FmallocGivesNewFrame(y.tabs, y.mem);
      var frame := FrameAt(Fmalloc(y.mem, PAGE).ptr);
      FaultFrames(y.tabs, pid, va, violation, frame);
      OneStep(y.tabs, Paging.Fault(pid, va, violation, frame));
    } else if Paging.UserFault(y.tabs, pid, va, violation, 0).Done? {
      FaultFrames(y.tabs, pid, va, violation, 0);
      OneStep(y.tabs, Paging.Fault(pid, va, violation, 0));
    }
  }

  /** A fault adds at most the frame it is given, and none if the row has its table. */
  lemma FaultFrames(s: Paging.State, pid: nat, va: nat, violation: bool, frame: nat)
    requires Paging.Inv(s) && Paging.UserFault(s, pid, va, violation, 0).Done?
    requires NeedsTable(s, pid, va, violation) ==> frame !in s.ram
    ensures var t := Served(s, pid, va, violation, frame);
            && Paging.NewFrame(s, pid, va, frame) && Paging.UserFault(s, pid, va, violation, frame).Done?
            && Paging.Inv(t) && t.ram.Keys <= s.ram.Keys + {frame}
            && (!NeedsTable(s, pid, va, violation) ==> t.ram.Keys == s.ram.Keys)
  {
    hide Paging.Inv, Paging.CalcPfn, Paging.UserPte, Paging.With;
    Paging.FaultKeeps(s, pid, va, violation, frame);
  }

  lemma OneStep(s: Paging.State, op: Paging.Op)
    ensures Paging.Run(s, [op]) == Paging.Step(s, op)
    ensures Paging.LegalRun(s, [op]) <==> Paging.Legal(s, op)
  {
    hide Paging.Step, Paging.Legal;
    assert [op][1..] == [];
    assert Paging.Run(Paging.Step(s, op), []) == Paging.Step(s, op);
  }

  ghost predicate LegalRun(y: System, ops: seq<Op>)
    decreases |ops|
  {
    ops == [] || (Legal(y, ops[0]) && (Step(y, ops[0]).Next? ==> LegalRun(Step(y, ops[0]).y, ops[1..])))
  }

  function Run(y: System, ops: seq<Op>): Result
    decreases |ops|
  {
    if ops == [] then Next(y)
    else match Step(y, ops[0])
      case Halted => Halted
      case Next(z) => Run(z, ops[1..])
  }

  function Shadows(y: System, ops: seq<Op>): seq<Paging.Op>
    decreases |ops|
  {
    if ops == [] || Step(y, ops[0]).Halted? then []
    else Shadow(y, ops[0]) + Shadows(Step(y, ops[0]).y, ops[1..])
  }

  /** Any run of allocator calls, faults and new processes is, on its tables, a legal run of the
      paging machine: what is proved there of frames that are new holds of the frames that the
      allocator hands out. */
  lemma {:induction false} RunShadowed(y: System, ops: seq<Op>)
    requires Inv(y) && LegalRun(y, ops) && Run(y, ops).Next?
    ensures Inv(Run(y, ops).y) && Paging.LegalRun(y.tabs, Shadows(y, ops))
    ensures Run(y, ops).y.tabs == Paging.Run(y.tabs, Shadows(y, ops))
    decreases |ops|
  {
    hide Inv, Step, Legal, Shadow, Paging.Step, Paging.Legal;
    if ops != [] {
      StepShadowed(y, ops[0]);
      var z := Step(y, ops[0]).y;
      RunShadowed(z, ops[1..]);
      Paging.RunJoins(y.tabs, Shadow(y, ops[0]), Shadows(z, ops[1..]));
    }
  }

  /** The entries that a page walk reads are numbers of 32 bits, in every directory. */
  lemma EntriesFit(y: System, d: nat, va: nat)
    requires Inv(y) && Paging.Directory(y.tabs, d) && va < U32
    ensures d in y.tabs.ram && Paging.Row(va) < |y.tabs.ram[d]|
    ensures var e := y.tabs.ram[d][Paging.Row(va)];
            && e < U32
            && (e != 0 ==>
                  && e / PAGE in y.tabs.ram && Paging.Slot(va) < |y.tabs.ram[e / PAGE]|
                  && y.tabs.ram[e / PAGE][Paging.Slot(va)] < U32)
  {
    hide MemOk, FrameBacked, Paging.Inv;
    Paging.RowAndSlot(va);
    Paging.DirectoryRow(y.tabs, d, Paging.Row(va));
    var e := y.tabs.ram[d][Paging.Row(va)];
    if e != 0 {
      BackedFits(y.mem, e / PAGE);
      Paging.TableEntryFits(y.tabs, d, va);
    }
  }

  // ---------------------------------------------------------------- boot

  /** Whatever the kernel does between the setup of its memory and that of paging, short of
      freeing the reservations, its directory, which lies in its image, stays backed. */
  lemma ImageBacked(total: nat, free: nat, kdir: nat, ops: seq<Memory.Op>)
    requires total <= Boot.MAX_PAGES && free >= BASE && Addr(kdir) < free
    requires Boot.Reservations(free) <= Boot.KernelZone(total).blocks
    requires var n := Boot.Reservations(free);
             && Memory.Run(Boot.Booted(total, n), ops).Ran?
             && forall i :: 0 <= i < |ops| ==> Boot.Spares(ops[i], Boot.Starts(n))
    ensures var m := Memory.Run(Boot.Booted(total, Boot.Reservations(free)), ops).m;
            MemOk(m) && FrameBacked(m, kdir)
  {
    hide MemoryTheorems.Inv, Boot.KernelZone, Boot.FastZone, Boot.Booted, Memory.Run, Boot.Spares;
    var n := Boot.Reservations(free);
    var m := Memory.Run(Boot.Booted(total, n), ops).m;
    Boot.AfterBoot(total, n, ops);
    FramesFit(total);
    Boot.BootedInv(total, n);
    Boot.StartsHeld(total, n);
    Boot.RunSpares(Boot.Booted(total, n), ops, Boot.Starts(n));
    Boot.ReservationsCover(free, Addr(kdir));
    MemoryTheorems.AddrFacts(kdir, 0);
    var k: nat := kdir / Blocks.TOP;
    var s := Addr(k * Blocks.TOP);
    assert s in Boot.Starts(n);
    Boot.TopBytes();
    assert On(m, kdir, s, m.owned[s]);
  }

  lemma FramesFit(total: nat)
    requires total <= Boot.MAX_PAGES
    ensures Boot.End(Boot.FastZone(total)) <= FRAMES
  {
    Boot.AddressesFit(total, Boot.End(Boot.FastZone(total)) - 1);
  }

  datatype Taken = TakenNone | Taken(m: Mem, frames: seq<nat>)

  /** `n` pages requested one after the other. */
  function TakePages(m: Mem, n: nat): Taken {
    if n == 0 then Taken(m, [])
    else match TakePages(m, n - 1)
      case TakenNone => TakenNone
      case Taken(t, fs) =>
        match KallocPage(t, 0, PAGE)
        case Stopped => TakenNone
        case Ran(u, ptr) => Taken(u, fs + [FrameAt(ptr)])
  }

  /** The pages that init_kernel_paging gets are new and different from each other, and they lie
      in the kernel zone. */
  lemma {:induction false} KernelTablesNew(s: Paging.State, m: Mem, n: nat)
    requires MemOk(m) && Backed(s, m) && TakePages(m, n).Taken?
    ensures var r := TakePages(m, n);
            && MemOk(r.m) && |r.frames| == n && r.m.kernel.tot == m.kernel.tot
            && (forall i :: 0 <= i < n ==> r.frames[i] !in s.ram && r.frames[i] < m.kernel.tot)
            && (forall i, j :: 0 <= i < j < n ==> r.frames[i] != r.frames[j])
            && (forall t: Paging.State :: t.ram.Keys <= s.ram.Keys + (set f | f in r.frames) ==> Backed(t, r.m))
  {
    hide MemOk, FrameBacked, KallocPage;
    if n > 0 {
      KernelTablesNew(s, m, n - 1);
      var before := TakePages(m, n - 1);
      var u := WithFrames(s, before.frames);
      KallocGivesNewFrame(u, before.m);
      var r := TakePages(m, n);
      var f := r.frames[n - 1];
      assert r.frames == before.frames + [f];
      assert forall i :: 0 <= i < n - 1 ==> r.frames[i] == before.frames[i] && r.frames[i] in u.ram;
      forall t: Paging.State | t.ram.Keys <= s.ram.Keys + (set f | f in r.frames) ensures Backed(t, r.m) {
        assert t.ram.Keys <= u.ram.Keys + {f};
      }
    }
  }

  lemma FramesBound(m: Mem)
    requires MemOk(m)
    ensures m.kernel.tot <= FRAMES
  {
    hide MemoryTheorems.Inv;
  }

  /** Which of the pages each row of the kernel directory gets. */
  function RowFrames(frames: seq<nat>): (r: seq<nat>)
    requires |frames| == KERNEL_TABLES
    ensures |r| == Paging.ROWS
    ensures forall i :: 0 <= i < Paging.ROWS && Paging.KernelRow(i) ==>
              r[i] == frames[if i == 0 then 0 else i - Paging.KERNEL_ROW + 1]
  {
    seq(Paging.ROWS, i requires 0 <= i < Paging.ROWS =>
      if i == 0 then frames[0] else if i < Paging.KERNEL_ROW then 0 else frames[i - Paging.KERNEL_ROW + 1])
  }

  /** One table for the first 4 MiB, 256 for the kernel half. */
  const KERNEL_TABLES := 257

  /** init_kernel_paging with the pages the allocator hands out: the two machines start in
      agreement, so every run from there keeps them so. */
  method InitPaging(ghost m: Mem, kdir: nat, ghost taken: Taken, frames: seq<nat>) returns (t: PagingHeap.PageTables)
    requires MemOk(m) && FrameBacked(m, kdir)
    requires taken == TakePages(m, KERNEL_TABLES) && taken.Taken?
    requires |taken.frames| == KERNEL_TABLES && frames == RowFrames(taken.frames)
    ensures Inv(System(taken.m, t.View())) && t.View().procs == map[]
  {
    hide MemOk, FrameBacked, TakePages, Paging.Inv;
    t := new PagingHeap.PageTables(kdir);
    KernelTablesNew(t.View(), m, KERNEL_TABLES);
    FramesBound(m);
    t.InitKernelPaging(frames);
    assert t.View().ram.Keys <= {kdir} + (set f | f in taken.frames);
  }

  /** The same state with more frames in use. */
  function WithFrames(s: Paging.State, frames: seq<nat>): (t: Paging.State)
    ensures t.ram.Keys == s.ram.Keys + (set f | f in frames)
  {
    var keys := s.ram.Keys + (set f | f in frames);
    s.(ram := map f | f in keys :: [])
  }
}
