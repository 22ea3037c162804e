/** Boot-time memory setup: boot_alloc and init_memory_alloc of mem/mem.c. */
module Boot {
  import opened Blocks
  import opened Machine
  import Buddy
  import Slab
  import opened Memory
  import MemoryTheorems
  import opened BuddyHeap
  import opened SlabHeap
  import opened MemoryHeap

  /** KERNEL_RATIO, FAST_MEM_RATIO and sizeof(BuddyBlockNew) on the 32-bit target. */
  const KERNEL_RATIO := 8
  const FAST_MEM_RATIO := 8
  const RECORD := 20
  /** The largest page count parse_multiboot_info can compute. */
  const MAX_PAGES := 0xF_FFFF

  // ---------------------------------------------------------------- the zones

  /** A zone of `blocks` largest blocks from frame `first` on. */
  datatype Zone = Zone(first: nat, blocks: nat)

  function End(z: Zone): nat {
    z.first + z.blocks * TOP
  }

  function KernelZone(total: nat): Zone {
    Zone(0, total / KERNEL_RATIO / TOP)
  }

  function FastZone(total: nat): Zone {
    Zone(total / KERNEL_RATIO + 1, total / FAST_MEM_RATIO / TOP)
  }

  function NormalZone(total: nat): Zone {
    Zone(total / KERNEL_RATIO + total / FAST_MEM_RATIO + 2,
         (total - total / KERNEL_RATIO - total / FAST_MEM_RATIO) / TOP)
  }

  /** The three zones never share a frame, whatever the page count. */
  lemma ZonesDisjoint(total: nat)
    ensures End(KernelZone(total)) < FastZone(total).first
    ensures End(FastZone(total)) < NormalZone(total).first
  {
  }

  /** What the zones are: an eighth of the pages each for the kernel and the fast zone and the rest
      for the normal zone, as many 4 MiB blocks as fit there; so all three have a block exactly if
      there are 8192 pages, 32 MiB. */
  lemma ZoneSizes(total: nat)
    ensures KernelZone(total) == Zone(0, total / 8192)
    ensures FastZone(total) == Zone(total / 8 + 1, total / 8192)
    ensures NormalZone(total).first == total / 8 + total / 8 + 2
    ensures var pages := total - total / 8 - total / 8;
            NormalZone(total).blocks * 1024 <= pages < NormalZone(total).blocks * 1024 + 1024
    ensures KernelZone(total).blocks == 0 || FastZone(total).blocks == 0 || NormalZone(total).blocks == 0
            <==> total < 8192
  {
  }

  /** The normal zone, which starts two frames late, ends within the memory exactly if those two
      frames are left over. */
  lemma NormalInMemory(total: nat)
    ensures End(NormalZone(total)) <= total <==> (total - total / 8 - total / 8) % 1024 >= 2
    ensures End(KernelZone(total)) <= total
    ensures total >= 8192 ==> End(FastZone(total)) <= total
  {
    var n := total - total / 8 - total / 8;
    assert n == n / TOP * TOP + n % TOP;
  }

  /** With 8192 pages it does not: the last two frames of the zone are not there. */
  lemma NormalBehindMemory()
    ensures NormalZone(8192).blocks > 0 && End(NormalZone(8192)) == 8194
  {
  }

  /** All frames of the kernel and fast zones have virtual addresses of 32 bits. */
  lemma AddressesFit(total: nat, frame: nat)
    requires total <= MAX_PAGES && frame < End(FastZone(total))
    ensures Addr(frame) + PAGE <= U32
  {
  }

  // ---------------------------------------------------------------- boot_alloc

  /** Where boot_alloc places `size` bytes when the free memory starts at `free`. */
  function Placed(free: nat, align: bool): nat {
    if align && free % PAGE != 0 then free / PAGE * PAGE + PAGE else free
  }

  /** The start of free memory after the record arrays of the three zones. */
  function AfterRecords(free: nat, total: nat): nat {
    var a := Placed(free, true) + KernelZone(total).blocks * TOP * RECORD;
    var b := Placed(a, true) + FastZone(total).blocks * TOP * RECORD;
    Placed(b, true) + NormalZone(total).blocks * TOP * RECORD
  }

  /** The arrays take 20 bytes for every page of the zones, from the next page boundary on; every
      block of 1024 records fills five pages, so that all of them start and end on one. */
  lemma RecordsTake(free: nat, total: nat)
    ensures var pages := (KernelZone(total).blocks + FastZone(total).blocks + NormalZone(total).blocks) * 1024;
            free + 20 * pages <= AfterRecords(free, total) < free + 20 * pages + 4096
    ensures AfterRecords(free, total) % 4096 == 0
  {
    hide KernelZone, FastZone, NormalZone;
    PlacedOnPage(free);
    var a := Placed(free, true);
    WholePages(a, 5 * KernelZone(total).blocks);
    var b := a + KernelZone(total).blocks * TOP * RECORD;
    WholePages(b, 5 * FastZone(total).blocks);
    WholePages(b + FastZone(total).blocks * TOP * RECORD, 5 * NormalZone(total).blocks);
  }

  lemma PlacedOnPage(free: nat)
    ensures free <= Placed(free, true) < free + PAGE && Placed(free, true) % PAGE == 0
  {
  }

  lemma WholePages(a: nat, n: nat)
    requires a % PAGE == 0
    ensures (a + n * PAGE) % PAGE == 0 && Placed(a + n * PAGE, true) == a + n * PAGE
  {
  }

  /** The number of largest blocks init_memory_alloc reserves. */
  function Reservations(free: nat): nat
    requires free >= BASE
  {
    ((free - BASE) / PAGE + 1) / TOP + 1
  }

  // ---------------------------------------------------------------- the reservations

  /** The zone after `n` requests of the largest order: the first `n` blocks are out. */
  function Reserved(blocks: nat, n: nat): Buddy.State
    requires n <= blocks
  {
    Buddy.State(blocks * TOP,
                seq(blocks * TOP, i => if i % TOP == 0 then MAX_ORDER else 0),
                seq(blocks * TOP, i => i % TOP == 0 && i >= n * TOP),
                seq(MAX_ORDER, _ => []) + [seq(blocks - n, i => (n + i) * TOP)],
                map k: nat | k < n * TOP && k % TOP == 0 :: MAX_ORDER)
  }

  lemma NothingReserved(blocks: nat)
    ensures Reserved(blocks, 0) == Buddy.Init(blocks)
  {
    var s, t := Reserved(blocks, 0), Buddy.Init(blocks);
    assert s.lists[MAX_ORDER] == t.lists[MAX_ORDER];
    assert s.lists == t.lists;
    assert s.live == map[];
  }

  /** The next request gets the lowest block left: linking at the tail at boot and taking
      from the head make the blocks come out in ascending order. */
  lemma NextReservation(blocks: nat, n: nat)
    requires n <= blocks
    ensures n < blocks ==> Buddy.Get(Reserved(blocks, n), MAX_ORDER) == Buddy.Got(Reserved(blocks, n + 1), n * TOP)
    ensures n == blocks ==> Buddy.Get(Reserved(blocks, n), MAX_ORDER) == Buddy.Panic
  {
    var s := Reserved(blocks, n);
    var l := Buddy.ListOf(s, MAX_ORDER);
    assert l == seq(blocks - n, i => (n + i) * TOP);
    if n < blocks {
      var t := Reserved(blocks, n + 1);
      assert l[0] == n * TOP;
      assert t.free == Buddy.Set(s.free, n * TOP, false);
      assert l[1..] == seq(blocks - n - 1, i => (n + 1 + i) * TOP);
      assert t.lists == Buddy.Set(s.lists, MAX_ORDER, l[1..]);
      assert t.live == s.live[n * TOP := MAX_ORDER];
    }
  }

  /** The loop of init_memory_alloc as a history. */
  function ReserveOps(n: nat): seq<Op> {
    seq(n, _ => DoKallocPage(MAX_ORDER))
  }

  /** The machine after `n` reservations. */
  function Booted(total: nat, n: nat): Mem
    requires n <= KernelZone(total).blocks
  {
    var boot := MemoryTheorems.Boot(KernelZone(total).blocks, FastZone(total).blocks, FastZone(total).first);
    var bytes := n * Bytes(MAX_ORDER);
    boot.(kernel := Reserved(KernelZone(total).blocks, n), kused := bytes, used := bytes,
          owned := map a | a in Starts(n) :: Large(FrameAt(a), MAX_ORDER, Bytes(MAX_ORDER)))
  }

  /** The addresses of the first `n` blocks. */
  function Starts(n: nat): (r: set<nat>)
    ensures forall a :: a in r <==> exists k :: 0 <= k < n && a == Addr(k * TOP)
  {
    set k | 0 <= k < n :: Addr(k * TOP)
  }

  lemma ReserveStep(total: nat, n: nat)
    requires n <= KernelZone(total).blocks
    ensures KallocPage(Booted(total, n), MAX_ORDER, Bytes(MAX_ORDER)) ==
              if n < KernelZone(total).blocks then Ran(Booted(total, n + 1), Addr(n * TOP)) else Stopped
  {
    hide Buddy.Get, Reserved, Bytes, KernelZone, Starts, Buddy.OrderOf;
    var blocks := KernelZone(total).blocks;
    NextReservation(blocks, n);
    if n < blocks {
      OrderReserved(blocks, n);
      OneMoreHeld(total, n);
      OneMore(n, Bytes(MAX_ORDER));
    }
  }

  lemma OneMoreHeld(total: nat, n: nat)
    requires n < KernelZone(total).blocks
    ensures Booted(total, n + 1).owned ==
              Booted(total, n).owned[Addr(n * TOP) := Large(n * TOP, MAX_ORDER, Bytes(MAX_ORDER))]
  {
    hide Bytes, Reserved;
    MemoryTheorems.AddrFacts(n * TOP, 0);
    assert Starts(n + 1) == Starts(n) + {Addr(n * TOP)};
  }

  lemma OneMore(n: nat, b: nat)
    ensures (n + 1) * b == n * b + b
  {
  }

  lemma OrderReserved(blocks: nat, n: nat)
    requires n < blocks
    ensures Buddy.OrderOf(Reserved(blocks, n + 1), n * TOP) == MAX_ORDER
  {
  }

  /** The boot loop succeeds exactly when the kernel zone has that many largest blocks, and
      then it has taken the first `n` of them. */
  lemma {:induction false} ReserveRun(total: nat, n: nat, k: nat)
    requires n <= KernelZone(total).blocks
    ensures Run(Booted(total, n), ReserveOps(k)) ==
              if n + k <= KernelZone(total).blocks then Ran(Booted(total, n + k), 0) else Stopped
    decreases k
  {
    hide Booted, Run, ReserveOps, KernelZone, KallocPage, Bytes;
    RunReserve(Booted(total, n), k);
    if k == 0 {
    } else {
      ReserveStep(total, n);
      if n < KernelZone(total).blocks {
        ReserveRun(total, n + 1, k - 1);
        assert n + 1 + (k - 1) == n + k;
      } else {
        assert n + k > KernelZone(total).blocks;
      }
    }
  }

  lemma RunReserve(m: Mem, k: nat)
    ensures k == 0 ==> Run(m, ReserveOps(k)) == Ran(m, 0)
    ensures k > 0 ==> Run(m, ReserveOps(k)) ==
                        match KallocPage(m, MAX_ORDER, Bytes(MAX_ORDER))
                        case Stopped => Stopped
                        case Ran(t, _) => Run(t, ReserveOps(k - 1))
  {
    hide KallocPage;
    if k > 0 {
      assert ReserveOps(k)[0] == DoKallocPage(MAX_ORDER) && ReserveOps(k)[1..] == ReserveOps(k - 1);
    }
  }

  lemma BootedStart(total: nat)
    ensures Booted(total, 0) ==
              MemoryTheorems.Boot(KernelZone(total).blocks, FastZone(total).blocks, FastZone(total).first)
  {
    NothingReserved(KernelZone(total).blocks);
    hide Reserved;
    assert Booted(total, 0).owned == map[];
  }

  lemma BootedInv(total: nat, n: nat)
    requires n <= KernelZone(total).blocks
    ensures MemoryTheorems.Inv(Booted(total, n))
  {
    hide Booted, MemoryTheorems.Inv, MemoryTheorems.Boot;
    BootedStart(total);
    MemoryTheorems.BootInv(KernelZone(total).blocks, FastZone(total).blocks, FastZone(total).first);
    ReserveRun(total, 0, n);
    MemoryTheorems.RunKeeps(Booted(total, 0), ReserveOps(n));
  }

  // ---------------------------------------------------------------- what the kernel image gets

  /** The reservations cover every byte below the free memory pointer. */
  lemma ReservationsCover(free: nat, a: nat)
    requires free >= BASE && BASE <= a < free
    ensures FrameAt(a) < Reservations(free) * TOP && a < Addr(Reservations(free) * TOP)
  {
  }

  /** Exactly as many as needed to hold the free memory pointer and a page more: `n` blocks are
      enough if and only if they end behind that. */
  lemma ReservationsExactly(free: nat, n: nat)
    requires free >= BASE
    ensures Reservations(free) <= n <==> free + 4096 < BASE + n * 0x40_0000
  {
    var f := (free - BASE) / PAGE;
    assert free - BASE == f * PAGE + (free - BASE) % PAGE;
    QuotientBelow(f + 1, n);
  }

  lemma QuotientBelow(x: nat, n: nat)
    ensures x / TOP < n <==> x < n * TOP
  {
  }

  /** The last block reserved is needed, and all below the pointer is covered. */
  lemma ReservationsTight(free: nat)
    requires free >= BASE
    ensures Addr((Reservations(free) - 1) * TOP) <= free + PAGE < Addr(Reservations(free) * TOP)
  {
    ReservationsExactly(free, Reservations(free) - 1);
    ReservationsExactly(free, Reservations(free));
  }

  /** The call does not give back one of the pointers in `keep`. */
  predicate Spares(op: Op, keep: set<nat>) {
    match op
    case DoKfree(ptr) => ptr !in keep
    case DoKfreePage(ptr) => ptr !in keep
    case _ => true
  }

  /** A held pointer stays held, as it is, until it is given back. */
  lemma StepSpares(m: Mem, op: Op, keep: set<nat>)
    requires MemoryTheorems.Inv(m) && Step(m, op).Ran? && Spares(op, keep) && keep <= m.owned.Keys
    ensures var t := Step(m, op).m;
            keep <= t.owned.Keys && forall a :: a in keep ==> t.owned[a] == m.owned[a]
  {
    hide MemoryTheorems.Inv, Slab.HasRoom, MemoryTheorems.HasRun, Kmalloc, KallocPage, Kfree, KfreePage, CreateSlab,
         Reap, Fmalloc, Ffree;
    match op {
      case DoKmalloc(size) => MemoryTheorems.KmallocKeeps(m, size);
      case DoKfree(ptr) =>
        if ptr in m.owned { MemoryTheorems.KfreeKeeps(m, ptr); } else { MemoryTheorems.NullReturned(m); }
      case DoKallocPage(order) => MemoryTheorems.KallocKeeps(m, order, Bytes(order));
      case DoKfreePage(ptr) =>
        if ptr != 0 { MemoryTheorems.KfreePageKeeps(m, ptr); } else { MemoryTheorems.NullReturned(m); }
      case DoCreateSlab(size, pinned) => MemoryTheorems.CreateSlabKeeps(m, size, pinned);
      case DoReap(page) => MemoryTheorems.ReapKeeps(m, page);
      case DoFmalloc(size) => MemoryTheorems.FmallocKeeps(m, size);
      case DoFfree(ptr) =>
        if ptr in m.fastOwned { MemoryTheorems.FfreeKeeps(m, ptr); } else { MemoryTheorems.NullReturned(m); }
    }
  }

  lemma {:induction false} RunSpares(m: Mem, ops: seq<Op>, keep: set<nat>)
    requires MemoryTheorems.Inv(m) && Run(m, ops).Ran? && keep <= m.owned.Keys
    requires forall i :: 0 <= i < |ops| ==> Spares(ops[i], keep)
    ensures var t := Run(m, ops).m;
            && MemoryTheorems.Inv(t) && keep <= t.owned.Keys && forall a :: a in keep ==> t.owned[a] == m.owned[a]
    decreases |ops|
  {
    hide MemoryTheorems.Inv, Step, Spares;
    if ops != [] {
      StepSpares(m, ops[0], keep);
      MemoryTheorems.StepKeeps(m, ops[0]);
      RunSpares(Step(m, ops[0]).m, ops[1..], keep);
    }
  }

  /** Whatever callers do after boot, short of freeing the reservations themselves, no pointer
      they get, from either zone, lies in memory the kernel used up to `free_mem_addr`. */
  lemma ImageNeverHandedOut(total: nat, free: nat, ops: seq<Op>, a: nat)
    requires free >= BASE && Reservations(free) <= KernelZone(total).blocks
    requires var n := Reservations(free);
             && Run(Booted(total, n), ops).Ran?
             && (forall i :: 0 <= i < |ops| ==> Spares(ops[i], Starts(n)))
    requires var n := Reservations(free);
             var m := Run(Booted(total, n), ops).m;
             (a in m.owned && a !in Starts(n)) || a in m.fastOwned
    ensures a >= free
  {
    hide MemoryTheorems.Inv, Run, Spares, KernelZone, FastZone, Booted, Starts;
    var n := Reservations(free);
    AfterBoot(total, n, ops);
    var m := Run(Booted(total, n), ops).m;
    if a in m.fastOwned {
      MemoryTheorems.FastIsBlock(m, a);
      FastIsBehind(m, total, free, a);
    } else {
      BootedInv(total, n);
      StartsHeld(total, n);
      RunSpares(Booted(total, n), ops, Starts(n));
      KernelImage(m, free, a);
    }
  }

  lemma StartsHeld(total: nat, n: nat)
    requires n <= KernelZone(total).blocks
    ensures Starts(n) <= Booted(total, n).owned.Keys
    ensures forall a :: a in Starts(n) ==> a in Booted(total, n).owned
                                           && Booted(total, n).owned[a] ==
                                                Large(FrameAt(a), MAX_ORDER, Bytes(MAX_ORDER))
  {
  }

  /** The fast zone lies behind all that the kernel has used. */
  lemma FastIsBehind(m: Mem, total: nat, free: nat, a: nat)
    requires free >= BASE && Reservations(free) <= KernelZone(total).blocks
    requires m.fastOffset == FastZone(total).first && a >= Addr(m.fastOffset)
    ensures a >= free
  {
    ZonesDisjoint(total);
    if BASE <= a < free {
      ReservationsCover(free, a);
    }
  }

  /** A kernel pointer other than the reservations lies behind the reservations, which are held. */
  lemma KernelImage(m: Mem, free: nat, a: nat)
    requires free >= BASE && MemoryTheorems.Inv(m)
    requires forall s :: s in Starts(Reservations(free)) ==>
               s in m.owned && m.owned[s].Large? && m.owned[s].order == MAX_ORDER
    requires a in m.owned && a !in Starts(Reservations(free))
    ensures a >= free
  {
    hide MemoryTheorems.Inv, MemoryTheorems.SizeAt;
    MemoryTheorems.HeldInsideBlock(m, a);
    if a < free {
      ReservationsCover(free, a);
      var k: nat := FrameAt(a) / TOP;
      var s := Addr(k * TOP);
      assert s in Starts(Reservations(free));
      MemoryTheorems.AddrFacts(k * TOP, 0);
      MemoryTheorems.HeldDisjoint(m, a, s);
      TopBytes();
      BlockSize(m, s);
      assert false;
    }
  }

  /** What every run from boot keeps of the zones. */
  lemma AfterBoot(total: nat, n: nat, ops: seq<Op>)
    requires n <= KernelZone(total).blocks && Run(Booted(total, n), ops).Ran?
    ensures var m := Run(Booted(total, n), ops).m;
            && MemoryTheorems.Inv(m) && m.fastOffset == FastZone(total).first
            && m.kernel.tot == KernelZone(total).blocks * TOP && m.kernel.tot < m.fastOffset
            && m.fastOffset + m.fast.tot == End(FastZone(total))
  {
    hide MemoryTheorems.Inv, Run;
    BootedInv(total, n);
    MemoryTheorems.RunKeeps(Booted(total, n), ops);
    MemoryTheorems.RunZones(Booted(total, n), ops);
    ZonesDisjoint(total);
  }

  /** After any history from boot no two regions handed out overlap, whichever zones they are
      from: the reservations included, and without a condition on the page count. */
  lemma BootedDisjoint(total: nat, n: nat, ops: seq<Op>, a: nat, x: nat, b: nat, y: nat)
    requires n <= KernelZone(total).blocks && Run(Booted(total, n), ops).Ran? && a != b
    requires var m := Run(Booted(total, n), ops).m; MemoryTheorems.Held(m, a, x) && MemoryTheorems.Held(m, b, y)
    ensures a + x <= b || b + y <= a
  {
    hide MemoryTheorems.Inv, Run, Booted, MemoryTheorems.Held;
    AfterBoot(total, n, ops);
    MemoryTheorems.RegionsDisjoint(Run(Booted(total, n), ops).m, a, x, b, y);
  }

  lemma TopBytes()
    ensures Bytes(MAX_ORDER) == TOP * PAGE
  {
    TopPages();
  }

  lemma BlockSize(m: Mem, s: nat)
    requires s in m.owned && m.owned[s].Large?
    ensures MemoryTheorems.SizeAt(m, s) == Bytes(m.owned[s].order)
  {
  }

  // ---------------------------------------------------------------- the methods

  class BootMemory {
    var free_mem_addr: nat
    var total_kernel_pages: nat
    var total_fast_pages: nat
    var total_normal_pages: nat

    constructor (start: nat)
      ensures free_mem_addr == start
    {
      free_mem_addr := start;
      total_kernel_pages, total_fast_pages, total_normal_pages := 0, 0, 0;
    }

    /** boot_alloc. */
    method BootAlloc(size: nat, align: bool) returns (ret: nat)
      modifies this`free_mem_addr
      ensures ret == Placed(old(free_mem_addr), align) && free_mem_addr == ret + size
      ensures old(free_mem_addr) <= ret < old(free_mem_addr) + PAGE && (align ==> ret % PAGE == 0)
      ensures !align || old(free_mem_addr) % PAGE == 0 ==> ret == old(free_mem_addr)
    {
      var isAligned := free_mem_addr % PAGE;
      if align && isAligned != 0 {
        free_mem_addr := free_mem_addr - isAligned;
        free_mem_addr := free_mem_addr + PAGE;
      }
      ret := free_mem_addr;
      free_mem_addr := free_mem_addr + size;
    }

    /** init_buddy_new with its request for the array of records. */
    method InitZone(num_pages: nat, pfn_offset: nat) returns (d: BuddyMemDesc?)
      modifies this`free_mem_addr
      ensures d == null <==> num_pages / TOP == 0
      ensures d == null ==> free_mem_addr == old(free_mem_addr)
      ensures d != null ==>
                && free_mem_addr == Placed(old(free_mem_addr), true) + num_pages / TOP * TOP * RECORD
                && fresh(d) && fresh(d.nodes) && fresh(d.blocks)
                && d.Valid() && d.View() == Buddy.Init(num_pages / TOP) && d.pfn_offset == pfn_offset
    {
      hide BuddyMemDesc.Valid, Buddy.Init;
      d := BuddyMemDesc.InitBuddy(num_pages, pfn_offset);
      if d != null {
        var rounded_down_pages := num_pages / TOP * TOP;
        var all_buddies := BootAlloc(rounded_down_pages * RECORD, true);
      }
    }

    /** The three zones, or a panic. */
    method InitZones(total: nat) returns (kernel: BuddyMemDesc?, fast: BuddyMemDesc?, normal: BuddyMemDesc?)
      modifies this
      ensures kernel == null || fast == null || normal == null <==>
              KernelZone(total).blocks == 0 || FastZone(total).blocks == 0 || NormalZone(total).blocks == 0
      ensures kernel != null && fast != null && normal != null ==>
                && free_mem_addr == AfterRecords(old(free_mem_addr), total)
                && Made(kernel, KernelZone(total)) && Made(fast, FastZone(total)) && Made(normal, NormalZone(total))
                && fresh(kernel) && fresh(kernel.nodes) && fresh(kernel.blocks)
                && kernel != fast && kernel.nodes !! fast.nodes && kernel.blocks !! fast.blocks
                && normal != kernel && normal.nodes !! kernel.nodes && normal.blocks !! kernel.blocks
    {
      hide BuddyMemDesc.Valid, Buddy.Init, Placed;
      kernel, fast, normal := null, null, null;
      total_kernel_pages := total / KERNEL_RATIO;
      total_fast_pages := total / FAST_MEM_RATIO;
      total_normal_pages := total - total_kernel_pages - total_fast_pages;
      kernel := InitZone(total_kernel_pages, 0);
      if kernel == null {
        return;
      }
      fast := InitZone(total_fast_pages, total_kernel_pages + 1);
      if fast == null {
        return;
      }
      normal := InitZone(total_normal_pages, total_kernel_pages + total_fast_pages + 2);
    }

    /** A zone as init_buddy_new leaves it. */
    static ghost predicate Made(d: BuddyMemDesc, z: Zone)
      reads d, d.blocks, d.nodes
    {
      d.Valid() && d.View() == Buddy.Init(z.blocks) && d.pfn_offset == z.first
    }

    /** init_memory_alloc. `null` is a panic: less than 32 MiB, or a kernel zone that does not reach
        past the page behind the memory the kernel has used. */
    method InitMemoryAlloc(total: nat) returns (mem: KernelMemory?, normal: BuddyMemDesc?)
      requires free_mem_addr >= BASE
      modifies this
      ensures mem == null <==>
              total < 8192 || AfterRecords(old(free_mem_addr), total) + 4096 >= BASE + total / 8192 * 0x40_0000
      ensures mem != null ==>
                free_mem_addr == AfterRecords(old(free_mem_addr), total) && free_mem_addr >= BASE
                && Reservations(free_mem_addr) <= KernelZone(total).blocks
      ensures mem != null ==>
                && fresh(mem) && mem.Good() && mem.View() == Booted(total, Reservations(free_mem_addr))
                && normal != null && Made(normal, NormalZone(total))
    {
      hide BuddyMemDesc.Valid, MemCache.Valid, Buddy.Init, AfterRecords, MemoryTheorems.Inv, KernelZone, FastZone,
           NormalZone, KernelMemory.Parts, KernelMemory.Separate, Booted, Made, Reservations;
      ZoneSizes(total);
      AfterRecordsGrows(free_mem_addr, total);
      ReservationsExactly(AfterRecords(free_mem_addr, total), total / 8192);
      mem := null;
      var kernel, fast;
      kernel, fast, normal := InitZones(total);
      if kernel == null || fast == null || normal == null {
        return;
      }
      var four_megs_pages := FourMegsPages();
      mem := NewMachine(kernel, fast, total);
      var ok := Reserve(mem, total, four_megs_pages);
      if !ok {
        mem := null;
      }
    }

    /** How many blocks of 4 MiB cover what the kernel has used. */
    method FourMegsPages() returns (four_megs_pages: nat)
      requires free_mem_addr >= BASE
      ensures four_megs_pages == Reservations(free_mem_addr)
    {
      var firstNUsedPages := (free_mem_addr - BASE) / PAGE + 1;
      four_megs_pages := firstNUsedPages / TOP;
      four_megs_pages := four_megs_pages + 1;
    }

    lemma AfterRecordsGrows(free: nat, total: nat)
      ensures AfterRecords(free, total) >= free
    {
    }

    /** The allocator over new zones, with an empty slab cache and nothing handed out. */
    static method NewMachine(kernel: BuddyMemDesc, fast: BuddyMemDesc, total: nat) returns (m: KernelMemory)
      requires Made(kernel, KernelZone(total)) && Made(fast, FastZone(total))
      requires kernel != fast && kernel.nodes !! fast.nodes && kernel.blocks !! fast.blocks
      ensures fresh(m) && m.kernel == kernel && m.fast == fast && m.cache.RingsOk()
      ensures m.Valid() && m.View() == Booted(total, 0)
    {
      hide BuddyMemDesc.Valid, MemCache.Valid, Buddy.Init, MemCache.RingsOk, Booted;
      var cache := MemCache.InitLists();
      m := new KernelMemory(kernel, fast, cache);
      m.ListsKnown();
      BootedStart(total);
    }

    /** The loop of init_memory_alloc. */
    static method Reserve(m: KernelMemory, total: nat, four_megs_pages: nat) returns (ok: bool)
      requires m.Valid() && m.cache.RingsOk() && m.View() == Booted(total, 0)
      modifies m, m.kernel, m.kernel.blocks, m.kernel.nodes
      ensures ok <==> four_megs_pages <= KernelZone(total).blocks
      ensures ok ==> m.Good() && m.View() == Booted(total, four_megs_pages)
    {
      hide BuddyMemDesc.Valid, MemCache.Valid, MemoryTheorems.Inv, MemCache.RingsOk, Booted, Memory.KallocPage,
           KernelMemory.Parts, KernelMemory.Separate, KernelZone;
      for i := 0 to four_megs_pages
        invariant i <= KernelZone(total).blocks && m.Separate() && m.Parts() && m.cache.RingsOk()
        invariant !m.cache.slab_locked && !m.kmem_locked
        invariant m.View() == Booted(total, i)
      {
        BootedInv(total, i);
        ZonePart(m.View());
        ReserveStep(total, i);
        var p;
        ok, p := m.KallocNosleep(MAX_ORDER, Bytes(MAX_ORDER));
        if !ok {
          return;
        }
      }
      BootedInv(total, four_megs_pages);
      ok := true;
    }

    static lemma ZonePart(m: Mem)
      requires MemoryTheorems.Inv(m)
      ensures Buddy.Inv(m.kernel)
    {
    }
  }
}
