/** Demand paging: mem/paging.c, mem/page.h and mem/vma.c on the two-level page tables of
    32-bit paging (section 4.3 of the Intel SDM, volume 3A).

    Physical memory is seen through the frames that hold page directories and page tables,
    1024 entries of 32 bits each. Every such frame has one owner, recorded when it is allocated. */
module Paging {
  import Blocks
  import opened Machine

  const ROWS := 1024
  /** KERNEL_LOWEST_PDIR, the directory row of BASE. */
  const KERNEL_ROW := 768
  /** Bytes below one directory row. */
  const ROW_BYTES := 0x40_0000

  datatype Owner = KernelDir | KernelTable(row: nat) | Dir(pid: nat) | Table(pid: nat, row: nat)

  /** A `VMArea`: virtual bytes from `start` up to, not including, `end`. */
  datatype Area = Area(start: nat, end: nat, physStart: nat)

  datatype Proc = Proc(dir: nat, areas: seq<Area>)

  datatype State = State(ram: map<nat, seq<nat>>, owner: map<nat, Owner>, kdir: nat, procs: map<nat, Proc>)

  datatype Outcome = Killed | Done(s: State)

  // ---------------------------------------------------------------- entries

  predicate IsPresent(x: nat) {
    x % 2 == 1
  }

  predicate IsWritable(x: nat) {
    x / 2 % 2 == 1
  }

  predicate IsUser(x: nat) {
    x / 4 % 2 == 1
  }

  function SetPresent(x: nat): (y: nat)
    ensures IsPresent(y) && y / 2 == x / 2
  {
    if IsPresent(x) then x else x + 1
  }

  function SetReadWrite(x: nat): (y: nat)
    ensures IsWritable(y) && y / 4 == x / 4 && y % 2 == x % 2
  {
    if IsWritable(x) then x else x + 2
  }

  function SetUsermode(x: nat): (y: nat)
    ensures IsUser(y) && y / 8 == x / 8 && y % 4 == x % 4
  {
    if IsUser(x) then x else x + 4
  }

  /** The low twelve bits stay; the frame number is cut to the twenty bits above them. */
  function SetPfn(x: nat, pfn: nat): (y: nat)
    ensures y / PAGE == pfn % 0x10_0000 && y % PAGE == x % PAGE
  {
    x % PAGE + pfn % 0x10_0000 * PAGE
  }

  // ---------------------------------------------------------------- the hardware's view

  function Row(va: nat): nat { va / ROW_BYTES }

  function Slot(va: nat): nat { va / PAGE % ROWS }

  lemma RowAndSlot(va: nat)
    requires va < U32
    ensures Row(va) < ROWS && Slot(va) < ROWS && va / PAGE == Row(va) * ROWS + Slot(va)
  {
  }

  datatype Translation = Unmapped | Mapped(phys: nat, user: bool, writable: bool)

  /** The page walk from a directory. */
  function Walk(s: State, dir: nat, va: nat): Translation {
    if dir !in s.ram || Row(va) >= |s.ram[dir]| then Unmapped
    else
      var pde := s.ram[dir][Row(va)];
      if !IsPresent(pde) then Unmapped
      else
        var t := pde / PAGE;
        if t !in s.ram || Slot(va) >= |s.ram[t]| then Unmapped
        else
          var pte := s.ram[t][Slot(va)];
          if !IsPresent(pte) then Unmapped
          else Mapped(pte / PAGE * PAGE + va % PAGE, IsUser(pde) && IsUser(pte), IsWritable(pde) && IsWritable(pte))
  }

  // ---------------------------------------------------------------- areas

  predicate InArea(a: Area, va: nat) {
    a.start <= va < a.end
  }

  /** is_valid_va. */
  predicate Valid(areas: seq<Area>, va: nat) {
    exists k :: 0 <= k < |areas| && InArea(areas[k], va)
  }

  /** Where an area says its byte `va` is, with the wrap-around of 32-bit addition. */
  function PhysOf(a: Area, va: nat): nat
    requires InArea(a, va)
  {
    (a.physStart + (va - a.start)) % U32
  }

  /** The first byte of an area is at its physical start, and every next byte at the next address. */
  lemma PlaceSteps(a: Area, va: nat)
    requires InArea(a, va)
    ensures va == a.start ==> PhysOf(a, va) == a.physStart % 0x1_0000_0000
    ensures va > a.start ==> PhysOf(a, va) == (PhysOf(a, va - 1) + 1) % 0x1_0000_0000
  {
    if va > a.start {
      var n := a.physStart + (va - 1 - a.start);
      assert n == n / U32 * U32 + n % U32;
    }
  }

  /** calc_pfn: the first area that holds the address decides; -1 if none does. */
  function CalcPfn(areas: seq<Area>, va: nat): nat {
    if areas == [] then U32 - 1
    else if InArea(areas[0], va) then PhysOf(areas[0], va) / PAGE
    else CalcPfn(areas[1..], va)
  }

  /** Area `k` has the page of the address to itself: no other area has an address there. */
  ghost predicate Alone(areas: seq<Area>, k: nat, va: nat) {
    && k < |areas| && InArea(areas[k], va)
    && forall l, v: nat :: 0 <= l < |areas| && InArea(areas[l], v) && v / PAGE == va / PAGE ==> l == k
  }

  /** The first area that holds the address is the deciding one, whatever the others are. */
  lemma {:induction false} CalcPfnFirst(areas: seq<Area>, k: nat, va: nat)
    requires k < |areas| && InArea(areas[k], va) && forall l :: 0 <= l < k ==> !InArea(areas[l], va)
    ensures CalcPfn(areas, va) == PhysOf(areas[k], va) / PAGE
  {
    if k > 0 {
      CalcPfnFirst(areas[1..], k - 1, va);
    }
  }

  /** An address in no area gets -1. */
  lemma {:induction false} CalcPfnNone(areas: seq<Area>, va: nat)
    requires forall k :: 0 <= k < |areas| ==> !InArea(areas[k], va)
    ensures CalcPfn(areas, va) == 0xFFFF_FFFF
  {
    if areas != [] {
      CalcPfnNone(areas[1..], va);
    }
  }

  /** In a page that an area has to itself, that area decides for every address. */
  lemma CalcPfnOf(areas: seq<Area>, k: nat, va: nat, v: nat)
    requires Alone(areas, k, va) && Valid(areas, v) && v / PAGE == va / PAGE
    ensures InArea(areas[k], v) && CalcPfn(areas, v) == PhysOf(areas[k], v) / PAGE
  {
    var l :| 0 <= l < |areas| && InArea(areas[l], v);
    assert l == k;
    CalcPfnFirst(areas, k, v);
  }

  // ---------------------------------------------------------------- user-mode faults

  /** An entry for a user page, from what was in its place. */
  function UserPte(entry: nat, pfn: nat): nat {
    SetUsermode(SetReadWrite(SetPresent(SetPfn(entry, pfn))))
  }

  /** A table with one entry written. */
  function With(t: seq<nat>, j: nat, x: nat): (r: seq<nat>)
    ensures |r| == |t| && forall k :: 0 <= k < |t| ==> r[k] == if k == j then x else t[k]
  {
    if j < |t| then t[j := x] else t
  }

  function ZeroTable(): (t: seq<nat>)
    ensures |t| == ROWS && forall j :: 0 <= j < ROWS ==> t[j] == 0
  {
    seq(ROWS, _ => 0)
  }

  /** The frame for the table of a row is not in use, or the row has its table already. */
  predicate NewFrame(s: State, pid: nat, va: nat, frame: nat) {
    || frame !in s.ram
    || (pid in s.procs && s.procs[pid].dir in s.ram && Row(va) < |s.ram[s.procs[pid].dir]|
        && IsPresent(s.ram[s.procs[pid].dir][Row(va)]))
  }

  /** pageFaultHandler for a fault in user mode; `frame` is what fmalloc hands out if asked. */
  function UserFault(s: State, pid: nat, va: nat, violation: bool, frame: nat): Outcome {
    if pid !in s.procs || s.procs[pid].dir !in s.ram || Row(va) >= |s.ram[s.procs[pid].dir]| then Killed
    else
      var p := s.procs[pid];
      if violation || va >= BASE || !Valid(p.areas, va) then Killed
      else
        var pfn := CalcPfn(p.areas, va);
        var pde := s.ram[p.dir][Row(va)];
        if IsPresent(pde) then
          var t := pde / PAGE;
          if t !in s.ram || Slot(va) >= |s.ram[t]| || IsPresent(s.ram[t][Slot(va)]) then Done(s)
          else Done(s.(ram := s.ram[t := With(s.ram[t], Slot(va), UserPte(s.ram[t][Slot(va)], pfn))]))
        else
          var row := With(s.ram[p.dir], Row(va), SetUsermode(SetPresent(SetReadWrite(frame * PAGE))));
          Done(s.(ram := s.ram[frame := With(ZeroTable(), Slot(va), UserPte(0, pfn))][p.dir := row],
                  owner := s.owner[frame := Table(pid, Row(va))]))
  }

  // ---------------------------------------------------------------- invariant

  /** Rows of the kernel's own tables: the first 4 MiB and the kernel half. */
  predicate KernelRow(i: nat) {
    i == 0 || i >= KERNEL_ROW
  }

  /** The frame that a kernel row starts with. */
  function FirstFrame(i: nat): nat {
    if i < KERNEL_ROW then i * ROWS else (i - KERNEL_ROW) * ROWS
  }

  /** A present, writable, supervisor entry. */
  function KernelEntry(frame: nat): nat {
    frame * PAGE + 3
  }

  /** A present, writable, user entry. */
  function UserEntry(frame: nat): nat {
    frame * PAGE + 7
  }

  ghost predicate KernelTableOk(t: seq<nat>, i: nat) {
    |t| == ROWS && forall j :: 0 <= j < ROWS ==> t[j] == KernelEntry(FirstFrame(i) + j)
  }

  /** The row of the kernel directory is empty or points at the finished table of the row. */
  ghost predicate KernelRowOk(s: State, i: nat)
    requires s.kdir in s.ram && i < |s.ram[s.kdir]|
  {
    var e := s.ram[s.kdir][i];
    if KernelRow(i) then
      var t := e / PAGE;
      e == KernelEntry(t) && t in s.ram && t in s.owner && s.owner[t] == KernelTable(i) && KernelTableOk(s.ram[t], i)
    else e == 0
  }

  /** The entry is empty or maps what the areas say about some address of the page. */
  ghost predicate PteOk(areas: seq<Area>, page: nat, e: nat) {
    e == 0 || exists va: nat :: Valid(areas, va) && va / PAGE == page && e == UserEntry(CalcPfn(areas, va))
  }

  ghost predicate TableOk(areas: seq<Area>, i: nat, t: seq<nat>) {
    |t| == ROWS && forall j :: 0 <= j < ROWS ==> PteOk(areas, i * ROWS + j, t[j])
  }

  ghost predicate RowOk(s: State, pid: nat, i: nat)
    requires pid in s.procs && s.procs[pid].dir in s.ram && i < |s.ram[s.procs[pid].dir]|
    requires s.kdir in s.ram && i < |s.ram[s.kdir]|
  {
    var e := s.ram[s.procs[pid].dir][i];
    if KernelRow(i) then e == s.ram[s.kdir][i]
    else
      var t := e / PAGE;
      || e == 0
      || (e == UserEntry(t) && t in s.ram && t in s.owner && s.owner[t] == Table(pid, i)
          && TableOk(s.procs[pid].areas, i, s.ram[t]))
  }

  ghost predicate ProcOk(s: State, pid: nat)
    requires pid in s.procs && s.kdir in s.ram && |s.ram[s.kdir]| == ROWS
  {
    var p := s.procs[pid];
    && p.dir in s.ram && |s.ram[p.dir]| == ROWS && p.dir in s.owner && s.owner[p.dir] == Dir(pid)
    && forall i: nat :: i < ROWS ==> RowOk(s, pid, i)
  }

  ghost predicate KernelOk(s: State) {
    && s.kdir in s.ram && |s.ram[s.kdir]| == ROWS && s.kdir in s.owner && s.owner[s.kdir] == KernelDir
    && forall i: nat :: i < ROWS ==> KernelRowOk(s, i)
  }

  ghost predicate Inv(s: State) {
    && s.ram.Keys == s.owner.Keys
    && KernelOk(s)
    && forall pid :: pid in s.procs ==> ProcOk(s, pid)
  }

  // ---------------------------------------------------------------- what the tables say

  lemma WalkRows(s: State, dir: nat, va: nat)
    requires va < U32 && dir in s.ram && |s.ram[dir]| == ROWS
    ensures Row(va) < ROWS && Slot(va) < ROWS
    ensures s.ram[dir][Row(va)] == 0 ==> Walk(s, dir, va) == Unmapped
    ensures forall t: nat :: t in s.ram && |s.ram[t]| == ROWS && s.ram[dir][Row(va)] == KernelEntry(t) ==>
              var e := s.ram[t][Slot(va)];
              Walk(s, dir, va) == if IsPresent(e) then Mapped(e / PAGE * PAGE + va % PAGE, false, IsWritable(e))
                  else Unmapped
    ensures forall t: nat :: t in s.ram && |s.ram[t]| == ROWS && s.ram[dir][Row(va)] == UserEntry(t) ==>
              var e := s.ram[t][Slot(va)];
              Walk(s, dir, va) == if IsPresent(e) then Mapped(e / PAGE * PAGE + va % PAGE, IsUser(e), IsWritable(e))
                  else Unmapped
  {
    RowAndSlot(va);
    forall t: nat | true
      ensures IsPresent(KernelEntry(t)) && KernelEntry(t) / PAGE == t && !IsUser(KernelEntry(t))
      ensures IsWritable(KernelEntry(t))
      ensures IsPresent(UserEntry(t)) && UserEntry(t) / PAGE == t && IsUser(UserEntry(t)) && IsWritable(UserEntry(t))
    {
      EntryBits(t);
    }
  }

  lemma EntryBits(t: nat)
    ensures IsPresent(KernelEntry(t)) && KernelEntry(t) / PAGE == t && !IsUser(KernelEntry(t))
    ensures IsWritable(KernelEntry(t))
    ensures IsPresent(UserEntry(t)) && UserEntry(t) / PAGE == t && IsUser(UserEntry(t)) && IsWritable(UserEntry(t))
  {
    LowBits(t, 3);
    LowBits(t, 7);
  }

  /** The low twelve bits of an entry do not reach the frame number, nor it them. */
  lemma LowBits(t: nat, low: nat)
    requires low < 8
    ensures (t * PAGE + low) / PAGE == t && (t * PAGE + low) % PAGE == low
    ensures (t * PAGE + low) % 2 == low % 2
    ensures (t * PAGE + low) / 2 % 2 == low / 2 % 2
    ensures (t * PAGE + low) / 4 % 2 == low / 4 % 2
  {
    var x := t * PAGE + low;
    Divided(x, 2, t * 2048 + low / 2, low % 2);
    Divided(x, 4, t * 1024 + low / 4, low % 4);
    Divided(x, PAGE, t, low);
    Divided(x / 2, 2, t * 1024 + low / 2 / 2, low / 2 % 2);
    Divided(x / 4, 2, t * 512 + low / 4 / 2, low / 4 % 2);
  }

  lemma Divided(x: nat, d: nat, q: nat, r: nat)
    requires r < d && x == q * d + r
    ensures x / d == q && x % d == r
  {
    Blocks.QuotientUnique(x, d, q, r);
  }

  /** The kernel's directory and every process's directory translate the kernel half and the
      first 4 MiB alike, for the supervisor only. */
  lemma KernelHalf(s: State, dir: nat, va: nat)
    requires Inv(s) && va < U32 && (dir == s.kdir || exists pid :: pid in s.procs && s.procs[pid].dir == dir)
    ensures va >= BASE ==> Walk(s, dir, va) == Mapped(va - BASE, false, true)
    ensures va < ROW_BYTES ==> Walk(s, dir, va) == Mapped(va, false, true)
  {
    RowAndSlot(va);
    var i := Row(va);
    assert KernelRowOk(s, i);
    if dir != s.kdir {
      var pid :| pid in s.procs && s.procs[pid].dir == dir;
      assert ProcOk(s, pid) && RowOk(s, pid, i);
    }
    WalkRows(s, dir, va);
    if va >= BASE || va < ROW_BYTES {
      var t := s.ram[dir][i] / PAGE;
      var frame := FirstFrame(i) + Slot(va);
      assert s.ram[t][Slot(va)] == KernelEntry(frame);
      EntryBits(frame);
    }
  }

  lemma PhysSamePage(a: Area, va: nat, va': nat)
    requires InArea(a, va) && InArea(a, va') && va / PAGE == va' / PAGE && a.physStart % PAGE == a.start % PAGE
    ensures PhysOf(a, va) / PAGE == PhysOf(a, va') / PAGE
    ensures PhysOf(a, va) / PAGE * PAGE + va % PAGE == PhysOf(a, va)
  {
    var n := a.physStart + (va - a.start) - va % PAGE;
    assert n % PAGE == 0;
    assert a.physStart + (va' - a.start) == n + va' % PAGE;
    SplitPhys(n, va % PAGE);
    SplitPhys(n, va' % PAGE);
  }

  lemma SplitPhys(n: nat, r: nat)
    requires n % PAGE == 0 && r < PAGE
    ensures (n + r) % U32 == n % U32 + r && n % U32 % PAGE == 0
    ensures (n + r) % U32 / PAGE * PAGE == n % U32
  {
  }

  lemma CalcPfnFits(areas: seq<Area>, va: nat)
    requires Valid(areas, va)
    ensures CalcPfn(areas, va) < 0x10_0000
  {
    if InArea(areas[0], va) {
    } else {
      var k :| 0 <= k < |areas| && InArea(areas[k], va);
      assert InArea(areas[1..][k - 1], va);
      CalcPfnFits(areas[1..], va);
    }
  }

  /** A user address of a process with an entry behind it. */
  lemma UserWalk(s: State, pid: nat, va: nat)
    requires Inv(s) && pid in s.procs && ROW_BYTES <= va < BASE
    ensures var dir := s.procs[pid].dir;
            || Walk(s, dir, va) == Unmapped
            || exists v: nat :: Valid(s.procs[pid].areas, v) && v / PAGE == va / PAGE
                 && Walk(s, dir, va) == Mapped(CalcPfn(s.procs[pid].areas, v) * PAGE + va % PAGE, true, true)
  {
    var p := s.procs[pid];
    RowAndSlot(va);
    assert ProcOk(s, pid) && RowOk(s, pid, Row(va));
    WalkRows(s, p.dir, va);
    var e := s.ram[p.dir][Row(va)];
    if e != 0 {
      var t := e / PAGE;
      var x := s.ram[t][Slot(va)];
      assert PteOk(p.areas, va / PAGE, x);
      if x != 0 {
        var v: nat :| Valid(p.areas, v) && v / PAGE == va / PAGE && x == UserEntry(CalcPfn(p.areas, v));
        EntryBits(CalcPfn(p.areas, v));
        assert Walk(s, p.dir, va) == Mapped(CalcPfn(p.areas, v) * PAGE + va % PAGE, true, true);
      }
    }
  }

  /** The tables never contradict the areas: between the first 4 MiB and the kernel half an
      address of an area is unmapped or maps to its place in the area, provided the area keeps
      offsets within pages and has the page to itself. */
  lemma TablesAgree(s: State, pid: nat, k: nat, va: nat)
    requires Inv(s) && pid in s.procs && Alone(s.procs[pid].areas, k, va) && ROW_BYTES <= va < BASE
    requires var a := s.procs[pid].areas[k]; a.physStart % PAGE == a.start % PAGE
    ensures var w := Walk(s, s.procs[pid].dir, va);
            w == Unmapped || w == Mapped(PhysOf(s.procs[pid].areas[k], va), true, true)
  {
    hide Inv, Alone;
    var p := s.procs[pid];
    UserWalk(s, pid, va);
    if Walk(s, p.dir, va) != Unmapped {
      var v: nat :| Valid(p.areas, v) && v / PAGE == va / PAGE
                    && Walk(s, p.dir, va) == Mapped(CalcPfn(p.areas, v) * PAGE + va % PAGE, true, true);
      CalcPfnOf(p.areas, k, va, v);
      HoldsIt(p.areas, k, va);
      PhysSamePage(p.areas[k], va, v);
    }
  }

  lemma HoldsIt(areas: seq<Area>, k: nat, va: nat)
    requires Alone(areas, k, va)
    ensures k < |areas| && InArea(areas[k], va) && Valid(areas, va)
  {
  }

  /** Whatever is mapped for user mode lies in a page of some area. */
  lemma UserMappedInAreas(s: State, pid: nat, va: nat)
    requires Inv(s) && pid in s.procs && va < U32
    requires var w := Walk(s, s.procs[pid].dir, va); w.Mapped? && w.user
    ensures exists v: nat :: Valid(s.procs[pid].areas, v) && v / PAGE == va / PAGE
  {
    if va >= BASE || va < ROW_BYTES {
      KernelHalf(s, s.procs[pid].dir, va);
    } else {
      UserWalk(s, pid, va);
    }
  }

  // ---------------------------------------------------------------- faults

  /** The row of a user address belongs to the process. */
  lemma FaultRow(s: State, pid: nat, va: nat)
    requires Inv(s) && pid in s.procs && ROW_BYTES <= va < BASE
    ensures Row(va) < ROWS && Slot(va) < ROWS && !KernelRow(Row(va))
    ensures va / PAGE == Row(va) * ROWS + Slot(va)
    ensures s.procs[pid].dir in s.ram && |s.ram[s.procs[pid].dir]| == ROWS
    ensures RowOk(s, pid, Row(va))
  {
    assert ProcOk(s, pid);
    RowAndSlot(va);
  }

  /** What the handler writes, and where. */
  lemma FaultShape(s: State, pid: nat, va: nat, frame: nat)
    requires Inv(s) && pid in s.procs && Valid(s.procs[pid].areas, va) && ROW_BYTES <= va < BASE
    ensures var p := s.procs[pid];
            var e := s.ram[p.dir][Row(va)];
            var x := UserEntry(CalcPfn(p.areas, va));
            if e == 0 then
              UserFault(s, pid, va, false, frame) ==
                Done(s.(ram := s.ram[frame := With(ZeroTable(), Slot(va), x)]
                                    [p.dir := With(s.ram[p.dir], Row(va), UserEntry(frame))],
                        owner := s.owner[frame := Table(pid, Row(va))]))
            else
              var t := e / PAGE;
              && t in s.ram && Slot(va) < |s.ram[t]|
              && UserFault(s, pid, va, false, frame) ==
                   if s.ram[t][Slot(va)] == 0 then Done(s.(ram := s.ram[t := With(s.ram[t], Slot(va), x)])) else Done(s)
  {
    var p := s.procs[pid];
    FaultRow(s, pid, va);
    CalcPfnFits(p.areas, va);
    FreshEntry(CalcPfn(p.areas, va));
    EntryBits(frame);
    FreshPde(frame);
    var e := s.ram[p.dir][Row(va)];
    if e != 0 {
      var t := e / PAGE;
      EntryBits(t);
      var x := s.ram[t][Slot(va)];
      assert PteOk(p.areas, va / PAGE, x);
      if x != 0 {
        var v: nat :| Valid(p.areas, v) && v / PAGE == va / PAGE && x == UserEntry(CalcPfn(p.areas, v));
        EntryBits(CalcPfn(p.areas, v));
      }
    }
  }

  lemma FreshEntry(pfn: nat)
    requires pfn < 0x10_0000
    ensures UserPte(0, pfn) == UserEntry(pfn)
  {
    SetBits(SetPfn(0, pfn), pfn);
  }

  lemma FreshPde(frame: nat)
    ensures SetUsermode(SetPresent(SetReadWrite(frame * PAGE))) == UserEntry(frame)
  {
    LowBits(frame, 0);
    LowBits(frame, 2);
    LowBits(frame, 3);
  }

  lemma SetBits(x: nat, pfn: nat)
    requires x == pfn * PAGE
    ensures SetUsermode(SetReadWrite(SetPresent(x))) == UserEntry(pfn)
  {
    LowBits(pfn, 0);
    LowBits(pfn, 1);
    LowBits(pfn, 3);
  }

  /** Writing a process's own table, in agreement with its areas, keeps everything else. */
  lemma FillKeeps(s: State, pid: nat, i: nat, f: nat, r: seq<nat>)
    requires Inv(s) && pid in s.procs && f in s.owner && s.owner[f] == Table(pid, i)
    requires TableOk(s.procs[pid].areas, i, r)
    ensures Inv(s.(ram := s.ram[f := r]))
  {
    hide TableOk;
    var t := s.(ram := s.ram[f := r]);
    forall k: nat | k < ROWS ensures KernelRowOk(t, k) {
      assert KernelRowOk(s, k);
    }
    forall q | q in t.procs ensures ProcOk(t, q) {
      assert ProcOk(s, q);
      forall k: nat | k < ROWS ensures RowOk(t, q, k) {
        assert RowOk(s, q, k);
      }
    }
  }

  /** So does giving an empty row of its directory a new table. */
  lemma NewTableKeeps(s: State, pid: nat, i: nat, frame: nat, r: seq<nat>)
    requires Inv(s) && pid in s.procs && frame !in s.ram && i < ROWS && !KernelRow(i)
    requires TableOk(s.procs[pid].areas, i, r)
    requires s.procs[pid].dir in s.ram && |s.ram[s.procs[pid].dir]| == ROWS
    ensures var dir := s.procs[pid].dir;
            Inv(s.(ram := s.ram[frame := r][dir := With(s.ram[dir], i, UserEntry(frame))],
                   owner := s.owner[frame := Table(pid, i)]))
  {
    hide TableOk;
    EntryBits(frame);
    var dir := s.procs[pid].dir;
    var t := s.(ram := s.ram[frame := r][dir := With(s.ram[dir], i, UserEntry(frame))],
                owner := s.owner[frame := Table(pid, i)]);
    assert ProcOk(s, pid);
    forall k: nat | k < ROWS ensures KernelRowOk(t, k) {
      assert KernelRowOk(s, k);
    }
    forall q | q in t.procs ensures ProcOk(t, q) {
      assert ProcOk(s, q);
      forall k: nat | k < ROWS ensures RowOk(t, q, k) {
        assert RowOk(s, q, k);
      }
    }
  }

  lemma EntryAgrees(areas: seq<Area>, va: nat, t: seq<nat>)
    requires va < U32 && Valid(areas, va) && TableOk(areas, Row(va), t)
    ensures TableOk(areas, Row(va), With(t, Slot(va), UserEntry(CalcPfn(areas, va))))
  {
    RowAndSlot(va);
    var x := UserEntry(CalcPfn(areas, va));
    var r := With(t, Slot(va), x);
    assert PteOk(areas, va / PAGE, x);
    forall j | 0 <= j < ROWS ensures PteOk(areas, Row(va) * ROWS + j, r[j]) {
      assert j != Slot(va) ==> PteOk(areas, Row(va) * ROWS + j, t[j]);
    }
  }

  lemma EmptyTableOk(areas: seq<Area>, i: nat)
    ensures TableOk(areas, i, ZeroTable())
  {
  }

  /** Below 4 MiB the kernel's own mapping of the address is in the way: the fault changes nothing,
      and user mode still has no access. */
  lemma LowAreaNotServed(s: State, pid: nat, va: nat, frame: nat)
    requires Inv(s) && pid in s.procs && va < ROW_BYTES && Valid(s.procs[pid].areas, va)
    ensures UserFault(s, pid, va, false, frame) == Done(s)
    ensures Walk(s, s.procs[pid].dir, va) == Mapped(va, false, true)
  {
    KernelHalf(s, s.procs[pid].dir, va);
    RowAndSlot(va);
    assert KernelRowOk(s, 0) && ProcOk(s, pid) && RowOk(s, pid, 0);
    var t := s.ram[s.kdir][0] / PAGE;
    EntryBits(t);
    assert s.ram[t][Slot(va)] == KernelEntry(Slot(va));
    EntryBits(Slot(va));
  }

  /** Every fault keeps the tables of the kernel and of all processes in agreement with their areas. */
  lemma FaultKeeps(s: State, pid: nat, va: nat, violation: bool, frame: nat)
    requires Inv(s) && NewFrame(s, pid, va, frame) && UserFault(s, pid, va, violation, frame).Done?
    ensures var t := UserFault(s, pid, va, violation, frame).s;
            Inv(t) && t.procs == s.procs && t.kdir == s.kdir
  {
    if va < ROW_BYTES {
      LowAreaNotServed(s, pid, va, frame);
    } else {
      UserFaultKeeps(s, pid, va, frame);
    }
  }

  lemma UserFaultKeeps(s: State, pid: nat, va: nat, frame: nat)
    requires Inv(s) && NewFrame(s, pid, va, frame) && pid in s.procs && Valid(s.procs[pid].areas, va)
    requires ROW_BYTES <= va < BASE
    ensures UserFault(s, pid, va, false, frame).Done?
    ensures var t := UserFault(s, pid, va, false, frame).s;
            Inv(t) && t.procs == s.procs && t.kdir == s.kdir
  {
    FaultRow(s, pid, va);
    FaultShape(s, pid, va, frame);
    hide Inv, UserFault, TableOk;
    var p := s.procs[pid];
    var e := s.ram[p.dir][Row(va)];
    if e == 0 {
      EmptyTableOk(p.areas, Row(va));
      EntryAgrees(p.areas, va, ZeroTable());
      NewTableKeeps(s, pid, Row(va), frame, With(ZeroTable(), Slot(va), UserEntry(CalcPfn(p.areas, va))));
    } else {
      var t := e / PAGE;
      EntryAgrees(p.areas, va, s.ram[t]);
      FillKeeps(s, pid, Row(va), t, With(s.ram[t], Slot(va), UserEntry(CalcPfn(p.areas, va))));
    }
  }

  /** A served fault leaves the address mapped for user mode, and mapped to its place in the
      deciding area exactly when the area keeps offsets within pages. */
  lemma FaultServes(s: State, pid: nat, va: nat, frame: nat, k: nat)
    requires Inv(s) && NewFrame(s, pid, va, frame) && pid in s.procs && va < U32
    requires k < |s.procs[pid].areas| && InArea(s.procs[pid].areas[k], va)
    requires forall l :: 0 <= l < k ==> !InArea(s.procs[pid].areas[l], va)
    requires Walk(s, s.procs[pid].dir, va) == Unmapped
    ensures var a := s.procs[pid].areas[k];
            var r := UserFault(s, pid, va, false, frame);
            && r.Done?
            && Walk(r.s, s.procs[pid].dir, va) == Mapped(PhysOf(a, va) / PAGE * PAGE + va % PAGE, true, true)
            && (Walk(r.s, s.procs[pid].dir, va) == Mapped(PhysOf(a, va), true, true)
                <==> a.physStart % PAGE == a.start % PAGE)
  {
    hide UserFault, Inv, Walk, PhysOf;
    UnmappedIsUser(s, pid, va);
    CalcPfnFirst(s.procs[pid].areas, k, va);
    Remainder(s.procs[pid].areas[k], va);
    WalkAfter(s, pid, va, frame);
  }

  /** What is not mapped lies between the kernel's own mappings. */
  lemma UnmappedIsUser(s: State, pid: nat, va: nat)
    requires Inv(s) && pid in s.procs && va < U32 && Walk(s, s.procs[pid].dir, va) == Unmapped
    ensures ROW_BYTES <= va < BASE
  {
    KernelHalf(s, s.procs[pid].dir, va);
  }

  /** When the handler serves an address of an area, for every area a program file may ask for:
      exactly if the address lies between the first 4 MiB and the kernel half and the area keeps
      offsets within pages. */
  lemma ServedExactly(s: State, pid: nat, va: nat, frame: nat, k: nat)
    requires Inv(s) && NewFrame(s, pid, va, frame) && pid in s.procs && va < U32 && Alone(s.procs[pid].areas, k, va)
    ensures var a := s.procs[pid].areas[k];
            var r := UserFault(s, pid, va, false, frame);
            (r.Done? && Walk(r.s, s.procs[pid].dir, va) == Mapped(PhysOf(a, va), true, true))
            <==> (ROW_BYTES <= va < BASE && a.physStart % PAGE == a.start % PAGE)
  {
    hide Inv, Walk, Alone, PhysOf;
    var p := s.procs[pid];
    HoldsIt(p.areas, k, va);
    AloneIsFirst(p.areas, k, va);
    if va >= BASE {
    } else if va < ROW_BYTES {
      LowAreaNotServed(s, pid, va, frame);
    } else if Walk(s, p.dir, va) == Unmapped {
      FaultServes(s, pid, va, frame, k);
    } else {
      AlreadyServed(s, pid, va, frame, k);
    }
  }

  lemma AloneIsFirst(areas: seq<Area>, k: nat, va: nat)
    requires Alone(areas, k, va)
    ensures forall l :: 0 <= l < k ==> !InArea(areas[l], va)
  {
  }

  /** A fault on a page that is mapped already changes nothing. */
  lemma AlreadyServed(s: State, pid: nat, va: nat, frame: nat, k: nat)
    requires Inv(s) && pid in s.procs && ROW_BYTES <= va < BASE && Alone(s.procs[pid].areas, k, va)
    requires Walk(s, s.procs[pid].dir, va) != Unmapped
    ensures var a := s.procs[pid].areas[k];
            && UserFault(s, pid, va, false, frame) == Done(s)
            && (Walk(s, s.procs[pid].dir, va) == Mapped(PhysOf(a, va), true, true)
                <==> a.physStart % PAGE == a.start % PAGE)
  {
    hide Inv, Alone, UserFault, CalcPfn, PhysOf;
    var p := s.procs[pid];
    HoldsIt(p.areas, k, va);
    MappedMeansFilled(s, pid, va, va);
    FaultShape(s, pid, va, frame);
    UserWalk(s, pid, va);
    if p.areas[k].physStart % PAGE == p.areas[k].start % PAGE {
      TablesAgree(s, pid, k, va);
    } else {
      OddPlace(p.areas[k], va, va % PAGE);
    }
  }

  /** An area that shifts offsets within pages puts no address at its own offset. */
  lemma OddPlace(a: Area, va: nat, offset: nat)
    requires InArea(a, va) && a.physStart % PAGE != a.start % PAGE && offset == va % PAGE
    ensures forall pfn: nat :: pfn * PAGE + offset != PhysOf(a, va)
  {
    hide PhysOf;
    Remainder(a, va);
    forall pfn: nat | true ensures pfn * PAGE + offset != PhysOf(a, va) {
      Divided(pfn * PAGE + offset, PAGE, pfn, offset);
    }
  }

  /** Two areas that share a page get in each other's way: once an address of one has been
      served, an address of the other in the same page is at its place exactly if both areas
      agree on the frame of the page. */
  lemma SharedPage(s: State, pid: nat, k: nat, va: nat, l: nat, v: nat, frame: nat)
    requires Inv(s) && NewFrame(s, pid, v, frame) && pid in s.procs && ROW_BYTES <= v < BASE && v / PAGE == va / PAGE
    requires var areas := s.procs[pid].areas;
             && k < |areas| && InArea(areas[k], va) && areas[k].physStart % PAGE == areas[k].start % PAGE
             && l < |areas| && InArea(areas[l], v) && forall i :: 0 <= i < l ==> !InArea(areas[i], v)
    requires Walk(s, s.procs[pid].dir, v) == Unmapped
    ensures var areas := s.procs[pid].areas;
            var r := UserFault(s, pid, v, false, frame);
            && r.Done?
            && (Walk(r.s, s.procs[pid].dir, va) == Mapped(PhysOf(areas[k], va), true, true)
                <==> PhysOf(areas[l], v) / PAGE == PhysOf(areas[k], va) / PAGE)
  {
    hide Inv, UserFault, Walk, PhysOf;
    var areas := s.procs[pid].areas;
    var r := UserFault(s, pid, v, false, frame);
    CalcPfnFirst(areas, l, v);
    WalkAfter(s, pid, v, frame);
    SamePageWalk(r.s, s.procs[pid].dir, v, va);
    Remainder(areas[k], va);
  }

  /** The page walk of two addresses of one page differs in the offset only. */
  lemma SamePageWalk(s: State, dir: nat, v: nat, va: nat)
    requires v / PAGE == va / PAGE && Walk(s, dir, v).Mapped?
    ensures Row(v) == Row(va) && Slot(v) == Slot(va)
    ensures var w := Walk(s, dir, v);
            Walk(s, dir, va) == w.(phys := w.phys - v % PAGE + va % PAGE)
  {
    assert forall x: nat :: Row(x) == x / PAGE / ROWS;
  }

  lemma Remainder(a: Area, va: nat)
    requires InArea(a, va)
    ensures PhysOf(a, va) / PAGE * PAGE + va % PAGE == PhysOf(a, va) <==> a.physStart % PAGE == a.start % PAGE
  {
    var n: nat := a.physStart + (va - a.start);
    var p := n % U32;
    InnerResidue(n);
    ShiftedResidue(a.physStart, a.start, va);
    assert p / PAGE * PAGE + p % PAGE == p;
  }

  /** Cutting a number to 32 bits keeps its low twelve. */
  lemma InnerResidue(n: nat)
    ensures n % U32 % PAGE == n % PAGE
  {
    var q, r := n / U32, n % U32;
    Divided(n, PAGE, q * 0x10_0000 + r / PAGE, r % PAGE);
  }

  lemma ShiftedResidue(p: nat, start: nat, va: nat)
    requires start <= va
    ensures (p + (va - start)) % PAGE == va % PAGE <==> p % PAGE == start % PAGE
  {
    var d := p - start;
    assert p + (va - start) == va + d;
    SameResidue(va + d, va);
    SameResidue(p, start);
  }

  /** Two numbers have the same low twelve bits exactly if they differ by whole pages. */
  lemma SameResidue(x: nat, y: nat)
    ensures x % PAGE == y % PAGE <==> (x - y) % PAGE == 0
  {
  }

  /** An unmapped address of an area has an empty row, or an empty slot in the table of its row. */
  lemma UnmappedMeansEmpty(s: State, pid: nat, va: nat)
    requires Inv(s) && pid in s.procs && Valid(s.procs[pid].areas, va) && ROW_BYTES <= va < BASE
    requires Walk(s, s.procs[pid].dir, va) == Unmapped
    ensures var dir := s.procs[pid].dir;
            && dir in s.ram && |s.ram[dir]| == ROWS && Row(va) < ROWS && Slot(va) < ROWS && va < U32
               && dir in s.owner && s.owner[dir] == Dir(pid)
            && var e := s.ram[dir][Row(va)];
               var t := e / PAGE;
               || e == 0
               || (e == UserEntry(t) && t in s.ram && t != dir && |s.ram[t]| == ROWS && s.ram[t][Slot(va)] == 0)
  {
    hide Walk, CalcPfn;
    assert ProcOk(s, pid);
    FaultRow(s, pid, va);
    WalkRows(s, s.procs[pid].dir, va);
    var e := s.ram[s.procs[pid].dir][Row(va)];
    if e != 0 {
      var t := e / PAGE;
      var x := s.ram[t][Slot(va)];
      assert PteOk(s.procs[pid].areas, va / PAGE, x);
      if x != 0 {
        var v: nat :| Valid(s.procs[pid].areas, v) && v / PAGE == va / PAGE
            && x == UserEntry(CalcPfn(s.procs[pid].areas, v));
        EntryBits(CalcPfn(s.procs[pid].areas, v));
        assert false;
      }
    }
  }

  lemma WalkAfter(s: State, pid: nat, va: nat, frame: nat)
    requires Inv(s) && NewFrame(s, pid, va, frame) && pid in s.procs && Valid(s.procs[pid].areas, va)
    requires ROW_BYTES <= va < BASE
    requires Walk(s, s.procs[pid].dir, va) == Unmapped
    ensures var p := s.procs[pid];
            var r := UserFault(s, pid, va, false, frame);
            r.Done? && Walk(r.s, p.dir, va) == Mapped(CalcPfn(p.areas, va) * PAGE + va % PAGE, true, true)
  {
    hide Inv, UserFault, Walk, CalcPfn, Row, Slot, Valid;
    UnmappedMeansEmpty(s, pid, va);
    FaultShape(s, pid, va, frame);
    var p := s.procs[pid];
    EntryBits(CalcPfn(p.areas, va));
    var t := UserFault(s, pid, va, false, frame).s;
    WalkRows(t, p.dir, va);
  }

  /** The kernel's directory or that of a process. */
  ghost predicate Directory(s: State, d: nat) {
    d == s.kdir || exists q :: q in s.procs && s.procs[q].dir == d
  }

  /** A row of any directory other than the one a process's table was made for does not lead
      to that table. */
  lemma TableOwned(s: State, d: nat, i: nat, f: nat, pid: nat, row: nat)
    requires Inv(s) && Directory(s, d) && i < ROWS && pid in s.procs
    requires f in s.owner && s.owner[f] == Table(pid, row)
    ensures d in s.ram && |s.ram[d]| == ROWS && d != f
    ensures var e := s.ram[d][i];
            || e == 0
            || (e / PAGE in s.ram && |s.ram[e / PAGE]| == ROWS
                && (e == KernelEntry(e / PAGE) || e == UserEntry(e / PAGE))
                && (e / PAGE == f ==> d == s.procs[pid].dir && i == row))
  {
    if d == s.kdir {
      assert KernelRowOk(s, i);
    } else {
      var q :| q in s.procs && s.procs[q].dir == d;
      assert ProcOk(s, q) && RowOk(s, q, i) && KernelRowOk(s, i);
      assert ProcOk(s, pid);
    }
  }

  /** Writing one entry of one table changes the walk of one page of one process. */
  lemma FillElsewhere(s: State, pid: nat, row: nat, f: nat, j: nat, x: nat, d: nat, va: nat)
    requires Inv(s) && pid in s.procs && f in s.owner && s.owner[f] == Table(pid, row) && f in s.ram
    requires Directory(s, d) && va < U32 && (d == s.procs[pid].dir ==> Row(va) != row || Slot(va) != j)
    ensures Walk(s.(ram := s.ram[f := With(s.ram[f], j, x)]), d, va) == Walk(s, d, va)
  {
    RowAndSlot(va);
    TableOwned(s, d, Row(va), f, pid, row);
    var t := s.(ram := s.ram[f := With(s.ram[f], j, x)]);
    assert t.ram[d] == s.ram[d];
  }

  /** So does a new table in an empty row. */
  lemma NewTableElsewhere(s: State, pid: nat, row: nat, frame: nat, j: nat, x: nat, d: nat, va: nat)
    requires Inv(s) && pid in s.procs && frame !in s.ram && s.procs[pid].dir in s.ram && row < |s.ram[s.procs[pid].dir]|
    requires s.ram[s.procs[pid].dir][row] == 0
    requires Directory(s, d) && va < U32 && (d == s.procs[pid].dir ==> Row(va) != row || Slot(va) != j)
    ensures var dir := s.procs[pid].dir;
            var t := s.(ram := s.ram[frame := With(ZeroTable(), j, x)][dir := With(s.ram[dir], row, UserEntry(frame))],
                        owner := s.owner[frame := Table(pid, row)]);
            Walk(t, d, va) == Walk(s, d, va)
  {
    RowAndSlot(va);
    var dir := s.procs[pid].dir;
    assert ProcOk(s, pid);
    DirectoryRow(s, d, Row(va));
    EntryBits(frame);
    DirsDiffer(s, d, pid);
    var t := s.(ram := s.ram[frame := With(ZeroTable(), j, x)][dir := With(s.ram[dir], row, UserEntry(frame))],
                owner := s.owner[frame := Table(pid, row)]);
    var e := s.ram[d][Row(va)];
    assert d != dir ==> t.ram[d] == s.ram[d];
    if e != 0 {
      assert e / PAGE != dir && e / PAGE != frame;
      EntryBits(e / PAGE);
    }
  }

  /** An entry of a directory is empty or leads to a table, which is no directory. */
  lemma DirectoryRow(s: State, d: nat, i: nat)
    requires Inv(s) && Directory(s, d) && i < ROWS
    ensures d in s.ram && |s.ram[d]| == ROWS
    ensures var e := s.ram[d][i];
            || e == 0
            || (e / PAGE in s.ram && |s.ram[e / PAGE]| == ROWS
                && (e == KernelEntry(e / PAGE) || e == UserEntry(e / PAGE))
                && e / PAGE in s.owner && (s.owner[e / PAGE].KernelTable? || s.owner[e / PAGE].Table?))
  {
    assert KernelRowOk(s, i);
    if d != s.kdir {
      var q :| q in s.procs && s.procs[q].dir == d;
      assert ProcOk(s, q) && RowOk(s, q, i);
    }
  }

  /** Behind a directory entry is a table whose entries are numbers of 32 bits. */
  lemma TableEntryFits(s: State, d: nat, va: nat)
    requires Inv(s) && Directory(s, d) && va < U32 && d in s.ram && Row(va) < |s.ram[d]| && s.ram[d][Row(va)] != 0
    ensures var t := s.ram[d][Row(va)] / PAGE;
            t in s.ram && Slot(va) < |s.ram[t]| && s.ram[t][Slot(va)] < U32
  {
    RowAndSlot(va);
    DirectoryRow(s, d, Row(va));
    assert KernelRowOk(s, Row(va));
    var t := s.ram[d][Row(va)] / PAGE;
    if KernelRow(Row(va)) {
      if d != s.kdir {
        var q :| q in s.procs && s.procs[q].dir == d;
        assert ProcOk(s, q) && RowOk(s, q, Row(va));
      }
      assert s.ram[t][Slot(va)] == KernelEntry(FirstFrame(Row(va)) + Slot(va));
    } else {
      var q :| q in s.procs && s.procs[q].dir == d;
      assert ProcOk(s, q) && RowOk(s, q, Row(va));
      var x := s.ram[t][Slot(va)];
      assert PteOk(s.procs[q].areas, va / PAGE, x);
      if x != 0 {
        var v: nat :| Valid(s.procs[q].areas, v) && x == UserEntry(CalcPfn(s.procs[q].areas, v));
        CalcPfnFits(s.procs[q].areas, v);
        UserEntryFits(CalcPfn(s.procs[q].areas, v));
      }
    }
  }

  lemma UserEntryFits(pfn: nat)
    requires pfn < 0x10_0000
    ensures UserEntry(pfn) < U32
  {
  }

  lemma DirsDiffer(s: State, d: nat, pid: nat)
    requires Inv(s) && Directory(s, d) && pid in s.procs
    ensures s.procs[pid].dir in s.owner && s.owner[s.procs[pid].dir] == Dir(pid) && d in s.ram
  {
    assert ProcOk(s, pid);
    if d != s.kdir {
      var q :| q in s.procs && s.procs[q].dir == d;
      assert ProcOk(s, q);
    }
  }

  lemma MappedMeansFilled(s: State, pid: nat, va: nat, other: nat)
    requires Inv(s) && pid in s.procs && ROW_BYTES <= va < BASE && other < U32 && other / PAGE == va / PAGE
    requires Walk(s, s.procs[pid].dir, other) != Unmapped
    ensures var dir := s.procs[pid].dir;
            && dir in s.ram && |s.ram[dir]| == ROWS && Row(va) < ROWS && Slot(va) < ROWS
            && s.ram[dir][Row(va)] != 0
            && var t := s.ram[dir][Row(va)] / PAGE; t in s.ram && |s.ram[t]| == ROWS && s.ram[t][Slot(va)] != 0
  {
    FaultRow(s, pid, va);
    WalkRows(s, s.procs[pid].dir, other);
    RowAndSlot(other);
    assert Row(other) == Row(va) && Slot(other) == Slot(va);
  }

  /** A fault changes no translation but those of its own page in its own directory, and never
      one that exists. */
  lemma FaultElsewhere(s: State, pid: nat, va: nat, violation: bool, frame: nat, d: nat, other: nat)
    requires Inv(s) && NewFrame(s, pid, va, frame) && Directory(s, d) && other < U32
    requires UserFault(s, pid, va, violation, frame).Done?
    ensures var t := UserFault(s, pid, va, violation, frame).s;
            && (d != s.procs[pid].dir || other / PAGE != va / PAGE ==> Walk(t, d, other) == Walk(s, d, other))
            && (Walk(s, d, other) != Unmapped ==> Walk(t, d, other) == Walk(s, d, other))
  {
    hide TableOk, Walk;
    if va < ROW_BYTES {
      LowAreaNotServed(s, pid, va, frame);
    } else {
      UserFaultElsewhere(s, pid, va, frame, d, other);
    }
  }

  lemma UserFaultElsewhere(s: State, pid: nat, va: nat, frame: nat, d: nat, other: nat)
    requires Inv(s) && NewFrame(s, pid, va, frame) && Directory(s, d) && other < U32
    requires pid in s.procs && Valid(s.procs[pid].areas, va) && ROW_BYTES <= va < BASE
    ensures UserFault(s, pid, va, false, frame).Done?
    ensures var t := UserFault(s, pid, va, false, frame).s;
            && (d != s.procs[pid].dir || other / PAGE != va / PAGE ==> Walk(t, d, other) == Walk(s, d, other))
            && (Walk(s, d, other) != Unmapped ==> Walk(t, d, other) == Walk(s, d, other))
  {
    hide TableOk, Walk;
    FaultRow(s, pid, va);
    FaultShape(s, pid, va, frame);
    RowAndSlot(other);
    var p := s.procs[pid];
    var e := s.ram[p.dir][Row(va)];
    if d == p.dir && other / PAGE == va / PAGE {
      if Walk(s, d, other) != Unmapped {
        MappedMeansFilled(s, pid, va, other);
      }
    } else if e == 0 {
      NewTableElsewhere(s, pid, Row(va), frame, Slot(va), UserEntry(CalcPfn(p.areas, va)), d, other);
    } else {
      FillElsewhere(s, pid, Row(va), e / PAGE, Slot(va), UserEntry(CalcPfn(p.areas, va)), d, other);
    }
  }

  // ---------------------------------------------------------------- new processes

  /** init_user_paging: a copy of the kernel's rows. */
  function UserDir(k: seq<nat>): (r: seq<nat>)
    ensures |r| == |k| && forall i :: 0 <= i < |k| ==> r[i] == if k[i] != 0 then SetReadWrite(SetPresent(k[i])) else 0
  {
    seq(|k|, i requires 0 <= i < |k| => if k[i] != 0 then SetReadWrite(SetPresent(k[i])) else 0)
  }

  /** A process with a new directory at `frame`. */
  function Spawn(s: State, pid: nat, frame: nat, areas: seq<Area>): State
    requires s.kdir in s.ram
  {
    s.(ram := s.ram[frame := UserDir(s.ram[s.kdir])], owner := s.owner[frame := Dir(pid)],
       procs := s.procs[pid := Proc(frame, areas)])
  }

  lemma SpawnKeeps(s: State, pid: nat, frame: nat, areas: seq<Area>)
    requires Inv(s) && frame !in s.ram && pid !in s.procs
    ensures Inv(Spawn(s, pid, frame, areas))
    ensures Spawn(s, pid, frame, areas).procs == s.procs[pid := Proc(frame, areas)]
    ensures Spawn(s, pid, frame, areas).kdir == s.kdir
  {
    hide TableOk, KernelTableOk;
    var t := Spawn(s, pid, frame, areas);
    forall i: nat | i < ROWS ensures KernelRowOk(t, i) {
      assert KernelRowOk(s, i);
    }
    forall q | q in t.procs ensures ProcOk(t, q) {
      if q != pid {
        assert ProcOk(s, q);
        forall i: nat | i < ROWS ensures RowOk(t, q, i) {
          assert RowOk(s, q, i);
        }
      } else {
        forall i: nat | i < ROWS ensures RowOk(t, pid, i) {
          assert KernelRowOk(s, i);
          EntryBits(s.ram[s.kdir][i] / PAGE);
        }
      }
    }
  }

  /** A new process starts with nothing mapped for user mode, whatever its areas. */
  lemma SpawnedEmpty(s: State, pid: nat, frame: nat, areas: seq<Area>, va: nat)
    requires Inv(s) && frame !in s.ram && pid !in s.procs && ROW_BYTES <= va < BASE
    ensures Walk(Spawn(s, pid, frame, areas), frame, va) == Unmapped
  {
    hide TableOk, KernelTableOk;
    RowAndSlot(va);
    assert KernelRowOk(s, Row(va));
  }

  lemma SpawnElsewhere(s: State, pid: nat, frame: nat, areas: seq<Area>, d: nat, va: nat)
    requires Inv(s) && frame !in s.ram && Directory(s, d) && va < U32
    ensures Walk(Spawn(s, pid, frame, areas), d, va) == Walk(s, d, va)
  {
    RowAndSlot(va);
    DirectoryRow(s, d, Row(va));
    var e := s.ram[d][Row(va)];
    if e != 0 {
      assert e / PAGE != frame;
    }
  }

  // ---------------------------------------------------------------- who is killed

  /** A process is killed by a user-mode access exactly if the access was forbidden, or went to the
      kernel half, or to an address in none of its areas. */
  lemma KilledExactly(s: State, pid: nat, va: nat, violation: bool, frame: nat)
    requires Inv(s) && pid in s.procs
    ensures UserFault(s, pid, va, violation, frame).Killed?
            <==> violation || va >= BASE
                 || forall k :: 0 <= k < |s.procs[pid].areas| ==>
                      !(s.procs[pid].areas[k].start <= va < s.procs[pid].areas[k].end)
  {
    var areas := s.procs[pid].areas;
    assert ProcOk(s, pid);
    if va < BASE {
      RowAndSlot(va);
    }
    assert Valid(areas, va) <==> exists k :: 0 <= k < |areas| && areas[k].start <= va < areas[k].end;
  }

  lemma FirstHolder(areas: seq<Area>, va: nat) returns (k: nat)
    requires Valid(areas, va)
    ensures k < |areas| && InArea(areas[k], va) && forall l :: 0 <= l < k ==> !InArea(areas[l], va)
  {
    k := 0;
    while !InArea(areas[k], va)
      invariant k < |areas| && forall l :: 0 <= l < k ==> !InArea(areas[l], va)
      invariant exists l :: k <= l < |areas| && InArea(areas[l], va)
      decreases |areas| - k
    {
      k := k + 1;
    }
  }

  /** If it is not killed, the address lies in one of its areas and is mapped when the access is
      made again, for user mode to read and write unless it lies below 4 MiB. */
  lemma DoneMeansMapped(s: State, pid: nat, va: nat, violation: bool, frame: nat)
    requires Inv(s) && NewFrame(s, pid, va, frame) && pid in s.procs
    requires UserFault(s, pid, va, violation, frame).Done?
    ensures !violation && va < BASE && exists k :: 0 <= k < |s.procs[pid].areas| && InArea(s.procs[pid].areas[k], va)
    ensures var w := Walk(UserFault(s, pid, va, violation, frame).s, s.procs[pid].dir, va);
            w.Mapped? && w.writable && (w.user <==> va >= ROW_BYTES)
  {
    hide Inv, UserFault, Walk, NewFrame;
    KilledExactly(s, pid, va, violation, frame);
    var k := FirstHolder(s.procs[pid].areas, va);
    if va < ROW_BYTES {
      LowAreaNotServed(s, pid, va, frame);
    } else if Walk(s, s.procs[pid].dir, va) == Unmapped {
      FaultServes(s, pid, va, frame, k);
    } else {
      ProcDirectory(s, pid);
      FaultElsewhere(s, pid, va, violation, frame, s.procs[pid].dir, va);
      UserWalk(s, pid, va);
    }
  }

  // ---------------------------------------------------------------- runs

  datatype Op = Fault(pid: nat, va: nat, violation: bool, frame: nat) | Fork(pid: nat, frame: nat, areas: seq<Area>)

  /** Frames for new tables are new and process numbers are not reused; areas are any at all. */
  ghost predicate Legal(s: State, op: Op) {
    match op
    case Fault(pid, va, _, frame) => NewFrame(s, pid, va, frame)
    case Fork(pid, frame, _) => frame !in s.ram && pid !in s.procs
  }

  /** A fault that gets the process killed changes no table. */
  function Step(s: State, op: Op): State {
    match op
    case Fault(pid, va, violation, frame) =>
      (match UserFault(s, pid, va, violation, frame) case Killed => s case Done(t) => t)
    case Fork(pid, frame, areas) => if s.kdir in s.ram then Spawn(s, pid, frame, areas) else s
  }

  ghost predicate LegalRun(s: State, ops: seq<Op>)
    decreases |ops|
  {
    ops == [] || (Legal(s, ops[0]) && LegalRun(Step(s, ops[0]), ops[1..]))
  }

  function Run(s: State, ops: seq<Op>): State
    decreases |ops|
  {
    if ops == [] then s else Run(Step(s, ops[0]), ops[1..])
  }

  lemma StepKeeps(s: State, op: Op, d: nat, va: nat)
    requires Inv(s) && Legal(s, op) && Directory(s, d) && va < U32
    ensures var t := Step(s, op);
            && Inv(t) && Directory(t, d)
            && (Walk(s, d, va) != Unmapped ==> Walk(t, d, va) == Walk(s, d, va))
  {
    hide Walk, UserFault;
    match op {
      case Fault(pid, a, violation, frame) =>
        if UserFault(s, pid, a, violation, frame).Done? {
          FaultKeeps(s, pid, a, violation, frame);
          FaultElsewhere(s, pid, a, violation, frame, d, va);
        }
      case Fork(pid, frame, areas) =>
        SpawnKeeps(s, pid, frame, areas);
        SpawnElsewhere(s, pid, frame, areas, d, va);
        if d != s.kdir {
          var q :| q in s.procs && s.procs[q].dir == d;
          assert q in Step(s, op).procs && Step(s, op).procs[q].dir == d;
        }
    }
  }

  /** Over any run of faults and new processes the tables agree with the areas, and a
      translation, once there, stays as it is. */
  lemma {:induction false} RunKeeps(s: State, ops: seq<Op>, d: nat, va: nat)
    requires Inv(s) && LegalRun(s, ops) && Directory(s, d) && va < U32
    ensures var t := Run(s, ops);
            && Inv(t) && Directory(t, d)
            && (Walk(s, d, va) != Unmapped ==> Walk(t, d, va) == Walk(s, d, va))
    decreases |ops|
  {
    hide Inv, Directory, Walk, Step, Legal;
    if ops != [] {
      StepKeeps(s, ops[0], d, va);
      RunKeeps(Step(s, ops[0]), ops[1..], d, va);
    }
  }

  /** Demand paging implements the areas: after any run, in every directory, the kernel half and
      the first 4 MiB are mapped for the supervisor; an address of an area between them is
      unmapped or at its place in the area; and what is mapped for user mode lies in a page of an
      area. */
  lemma DemandPaging(s: State, ops: seq<Op>, pid: nat, va: nat)
    requires Inv(s) && LegalRun(s, ops) && pid in Run(s, ops).procs && va < U32
    ensures var t := Run(s, ops);
            var p := t.procs[pid];
            var w := Walk(t, p.dir, va);
            && (va >= BASE ==> w == Mapped(va - BASE, false, true) == Walk(t, t.kdir, va))
            && (va < ROW_BYTES ==> w == Mapped(va, false, true) == Walk(t, t.kdir, va))
            && (forall k | ROW_BYTES <= va < BASE && 0 <= k < |p.areas| && Alone(p.areas, k, va)
                           && p.areas[k].physStart % PAGE == p.areas[k].start % PAGE
                  :: w == Unmapped || w == Mapped(PhysOf(p.areas[k], va), true, true))
            && (w.Mapped? && w.user ==> exists v: nat :: Valid(p.areas, v) && v / PAGE == va / PAGE)
  {
    hide Inv, Walk, PhysOf;
    RunKeeps(s, ops, s.kdir, va);
    var t := Run(s, ops);
    var p := t.procs[pid];
    KernelHalf(t, t.kdir, va);
    KernelHalf(t, p.dir, va);
    forall k | ROW_BYTES <= va < BASE && 0 <= k < |p.areas| && Alone(p.areas, k, va)
      && p.areas[k].physStart % PAGE == p.areas[k].start % PAGE
      ensures Walk(t, p.dir, va) == Unmapped || Walk(t, p.dir, va) == Mapped(PhysOf(p.areas[k], va), true, true)
    {
      TablesAgree(t, pid, k, va);
    }
    if Walk(t, p.dir, va).Mapped? && Walk(t, p.dir, va).user {
      UserMappedInAreas(t, pid, va);
    }
  }

  /** What a run has served stays served: after a fault on an address of an area between the
      first 4 MiB and the kernel half, and any run behind it, the address walks to its place. */
  lemma ServedStays(s: State, before: seq<Op>, pid: nat, va: nat, frame: nat, k: nat, after: seq<Op>)
    requires Inv(s) && LegalRun(s, before + [Fault(pid, va, false, frame)] + after)
    requires pid in Run(s, before).procs && Alone(Run(s, before).procs[pid].areas, k, va) && ROW_BYTES <= va < BASE
    requires var a := Run(s, before).procs[pid].areas[k]; a.physStart % PAGE == a.start % PAGE
    ensures var p := Run(s, before).procs[pid];
            var t := Run(s, before + [Fault(pid, va, false, frame)] + after);
            Inv(t) && Walk(t, p.dir, va) == Mapped(PhysOf(p.areas[k], va), true, true)
  {
    hide Inv, Walk, PhysOf, Alone, UserFault, Directory;
    var op := Fault(pid, va, false, frame);
    RunSplits(s, before, [op] + after);
    assert before + [op] + after == before + ([op] + after);
    RunKeeps(s, before, s.kdir, va) by { KernelDirectory(s); }
    var m := Run(s, before);
    var p := m.procs[pid];
    assert ([op] + after)[1..] == after;
    HoldsIt(p.areas, k, va);
    ServedExactly(m, pid, va, frame, k);
    ProcDirectory(m, pid);
    StepKeeps(m, op, p.dir, va);
    RunKeeps(Step(m, op), after, p.dir, va);
  }

  lemma KernelDirectory(s: State)
    ensures Directory(s, s.kdir)
  {
  }

  lemma ProcDirectory(s: State, pid: nat)
    requires pid in s.procs
    ensures Directory(s, s.procs[pid].dir)
  {
  }

  lemma {:induction false} RunJoins(s: State, a: seq<Op>, b: seq<Op>)
    requires LegalRun(s, a) && LegalRun(Run(s, a), b)
    ensures LegalRun(s, a + b) && Run(s, a + b) == Run(Run(s, a), b)
    decreases |a|
  {
    if a == [] {
      assert a + b == b;
    } else {
      assert (a + b)[0] == a[0] && (a + b)[1..] == a[1..] + b;
      RunJoins(Step(s, a[0]), a[1..], b);
    }
  }

  lemma {:induction false} RunSplits(s: State, a: seq<Op>, b: seq<Op>)
    requires LegalRun(s, a + b)
    ensures LegalRun(s, a) && LegalRun(Run(s, a), b) && Run(s, a + b) == Run(Run(s, a), b)
    decreases |a|
  {
    if a == [] {
      assert a + b == b;
    } else {
      assert (a + b)[0] == a[0] && (a + b)[1..] == a[1..] + b;
      RunSplits(Step(s, a[0]), a[1..], b);
    }
  }

  /** Processes without a page in common never see each other's new translations: a fault of one
      changes nothing another walks. */
  lemma OthersUnchanged(s: State, pid: nat, va: nat, violation: bool, frame: nat, q: nat, other: nat)
    requires Inv(s) && NewFrame(s, pid, va, frame) && pid in s.procs && q in s.procs && q != pid && other < U32
    ensures var t := Step(s, Fault(pid, va, violation, frame));
            t.procs == s.procs && Walk(t, s.procs[q].dir, other) == Walk(s, s.procs[q].dir, other)
  {
    hide Walk, UserFault;
    assert ProcOk(s, pid) && ProcOk(s, q);
    if UserFault(s, pid, va, violation, frame).Done? {
      FaultKeeps(s, pid, va, violation, frame);
      FaultElsewhere(s, pid, va, violation, frame, s.procs[q].dir, other);
    }
  }
}
