/** The kernel memory allocator of mem/mem.c as a state machine on values: two buddy
    zones, the slab cache, the byte counters, and the pointers callers hold. */
module Memory {
  import opened Blocks
  import Buddy
  import opened Machine
  import Slab

  /** A pointer a caller holds: a slab buffer or a block of pages, with the size asked for. */
  datatype Region = Small(page: nat, index: nat, asked: nat) | Large(pfn: nat, order: nat, asked: nat)

  datatype Mem = Mem(
    kernel: Buddy.State,
    fast: Buddy.State,
    fastOffset: nat,
    cache: Slab.Cache,
    kused: int,
    fused: int,
    used: int,
    owned: map<nat, Region>,
    fastOwned: map<nat, Region>)

  /** `Stopped` is a panic, or a call that breaks the caller's side of the contract. */
  datatype Outcome = Stopped | Ran(m: Mem, ptr: nat)

  function Addr(pfn: nat): nat {
    BASE + pfn * PAGE
  }

  function FrameAt(addr: nat): nat {
    if addr < BASE then 0 else (addr - BASE) / PAGE
  }

  function Bytes(order: nat): nat {
    Pages(order) * PAGE
  }

  // ---------------------------------------------------------------- page orders

  /** The order calc_page_order settles on, from `order` up; MAX_ORDER + 1 stands for its -1. */
  function OrderFrom(pages: nat, order: nat): (r: nat)
    requires order <= MAX_ORDER + 1
    ensures order <= r <= MAX_ORDER + 1
    ensures r <= MAX_ORDER ==> pages <= Pages(r)
    ensures forall k: nat :: order <= k < r ==> Pages(k) < pages
    decreases MAX_ORDER + 1 - order
  {
    if order > MAX_ORDER then order
    else if pages <= Pages(order) then order
    else OrderFrom(pages, order + 1)
  }

  function PagesFor(size: nat): nat {
    size / PAGE + if size % PAGE > 0 then 1 else 0
  }

  function OrderFor(size: nat): nat {
    OrderFrom(PagesFor(size), 0)
  }

  /** calc_page_order. */
  method CalcPageOrder(size: nat) returns (order: nat)
    ensures order == OrderFor(size)
  {
    var pages := size / PAGE + if size % PAGE > 0 then 1 else 0;
    order := 0;
    while order <= MAX_ORDER
      invariant order <= MAX_ORDER + 1
      invariant OrderFrom(pages, order) == OrderFor(size)
    {
      if pages <= Pages(order) {
        return;
      }
      order := order + 1;
    }
  }

  /** The chosen block holds the request, and the next smaller one would not. */
  lemma OrderFits(size: nat)
    ensures OrderFor(size) <= MAX_ORDER ==> size <= Bytes(OrderFor(size))
    ensures OrderFor(size) <= MAX_ORDER && OrderFor(size) > 0 ==> Bytes(OrderFor(size) - 1) < size
    ensures OrderFor(size) > MAX_ORDER <==> size > Bytes(MAX_ORDER)
  {
    var o := OrderFor(size);
    assert size == size / PAGE * PAGE + size % PAGE;
    assert size <= PagesFor(size) * PAGE;
    if 0 < o {
      assert Pages(o - 1) < PagesFor(size);
    }
  }

  // ---------------------------------------------------------------- pages

  /** kalloc_page and kalloc_nosleep. */
  function KallocPage(m: Mem, order: nat, asked: nat): Outcome {
    match Buddy.Get(m.kernel, order)
    case Panic => Stopped
    case Got(t, p) =>
      var bytes := Bytes(Buddy.OrderOf(t, p));
      Ran(m.(kernel := t, kused := m.kused + bytes, used := m.used + bytes,
             owned := m.owned[Addr(p) := Large(p, order, asked)]), Addr(p))
  }

  /** kfree_page. */
  function KfreePage(m: Mem, ptr: nat): Outcome {
    if ptr == 0 then Ran(m, 0)
    else
      var p := FrameAt(ptr);
      var bytes := Bytes(Buddy.OrderOf(m.kernel, p));
      match Buddy.Release(m.kernel, p)
      case FreePanic => Stopped
      case Freed(t) =>
        Ran(m.(kernel := t, kused := m.kused - bytes, used := m.used - bytes, owned := m.owned - {ptr}), 0)
  }

  /** fmalloc. */
  function Fmalloc(m: Mem, size: nat): Outcome {
    match Buddy.Get(m.fast, OrderFor(size))
    case Panic => Stopped
    case Got(t, p) =>
      var bytes := Bytes(Buddy.OrderOf(t, p));
      var ptr := Addr(m.fastOffset + p);
      Ran(m.(fast := t, fused := m.fused + bytes, used := m.used + bytes,
             fastOwned := m.fastOwned[ptr := Large(p, OrderFor(size), size)]), ptr)
  }

  /** ffree. */
  function Ffree(m: Mem, ptr: nat): Outcome {
    if ptr == 0 then Ran(m, 0)
    else if FrameAt(ptr) < m.fastOffset then Stopped
    else
      var p := FrameAt(ptr) - m.fastOffset;
      var bytes := Bytes(Buddy.OrderOf(m.fast, p));
      match Buddy.Release(m.fast, p)
      case FreePanic => Stopped
      case Freed(t) =>
        Ran(m.(fast := t, fused := m.fused - bytes, used := m.used - bytes, fastOwned := m.fastOwned - {ptr}), 0)
  }

  // ---------------------------------------------------------------- slabs

  /** createSlab: one page from the kernel zone, which leaves the caller's hands. */
  function CreateSlab(m: Mem, size: nat, pinned: bool): Outcome {
    if !(Slab.MIN_SLAB_SIZE <= size <= Slab.MAX_SLAB_SIZE) then Stopped
    else match KallocPage(m, 0, PAGE)
      case Stopped => Stopped
      case Ran(t, page) =>
        Slab.TotAtLeastSix(size);
        var c := Slab.CreateSlab(t.cache, page, size);
        Ran(t.(cache := if pinned then Slab.SetPinned(c, page) else c, owned := t.owned - {page}), page)
  }

  /** salloc with the pointer entered in the caller's book. */
  function Salloc(m: Mem, size: nat, asked: nat): Outcome {
    match Slab.Salloc(m.cache, size)
    case NoSlab => Ran(m, 0)
    case Stuck => Stopped
    case Buffer(c, page, i) =>
      var ptr := Slab.UserAddr(page, size, i);
      Ran(m.(cache := c, owned := m.owned[ptr := Small(page, i, asked)]), ptr)
  }

  /** kmalloc. */
  function Kmalloc(m: Mem, asked: nat): Outcome {
    if asked <= Slab.MAX_SLAB_SIZE then
      var size := if asked < Slab.MIN_SLAB_SIZE then Slab.MIN_SLAB_SIZE else asked;
      match Salloc(m, size, asked)
      case Stopped => Stopped
      case Ran(t, ptr) =>
        if ptr != 0 then Ran(t, ptr)
        else match CreateSlab(m, size, false)
          case Stopped => Stopped
          case Ran(u, _) => Salloc(u, size, asked)
    else
      KallocPage(m, OrderFor(asked), asked)
  }

  /** kfree on a pointer the caller holds. That sfree accepts exactly the slab buffers is
      the assumption that its fingerprint test never errs. */
  function Kfree(m: Mem, ptr: nat): Outcome {
    if ptr in m.owned && m.owned[ptr].Small? then
      Ran(m.(cache := Slab.Sfree(m.cache, m.owned[ptr].page, m.owned[ptr].index), owned := m.owned - {ptr}), 0)
    else KfreePage(m, ptr)
  }

  /** The reaping loop of kswap for one slab of the free list. */
  function Reap(m: Mem, page: nat): Outcome {
    if page in m.cache.free && page in m.cache.slabs && !m.cache.slabs[page].pinned then
      KfreePage(m.(cache := Slab.ReapOne(m.cache, page)), page)
    else Ran(m, 0)
  }

  /** One round of the reaping loop of kswap over the slabs of a list. */
  function ReapAll(m: Mem, pages: seq<nat>): Outcome
    decreases |pages|
  {
    if pages == [] then Ran(m, 0)
    else match Reap(m, pages[0])
      case Stopped => Stopped
      case Ran(t, _) => ReapAll(t, pages[1..])
  }

  // ---------------------------------------------------------------- histories

  datatype Op =
    | DoKmalloc(size: nat) | DoKfree(ptr: nat)
    | DoKallocPage(order: nat) | DoKfreePage(ptr: nat)
    | DoCreateSlab(size: nat, pinned: bool) | DoReap(page: nat)
    | DoFmalloc(size: nat) | DoFfree(ptr: nat)

  /** Callers return only NULL or what they hold, pages to the page functions. */
  predicate Legal(m: Mem, op: Op) {
    match op
    case DoKfree(ptr) => ptr == 0 || ptr in m.owned
    case DoKfreePage(ptr) => ptr == 0 || (ptr in m.owned && m.owned[ptr].Large?)
    case DoFfree(ptr) => ptr == 0 || ptr in m.fastOwned
    case _ => true
  }

  function Step(m: Mem, op: Op): Outcome {
    if !Legal(m, op) then Stopped
    else match op
      case DoKmalloc(size) => Kmalloc(m, size)
      case DoKfree(ptr) => Kfree(m, ptr)
      case DoKallocPage(order) => KallocPage(m, order, Bytes(order))
      case DoKfreePage(ptr) => KfreePage(m, ptr)
      case DoCreateSlab(size, pinned) => CreateSlab(m, size, pinned)
      case DoReap(page) => Reap(m, page)
      case DoFmalloc(size) => Fmalloc(m, size)
      case DoFfree(ptr) => Ffree(m, ptr)
  }

  function Run(m: Mem, ops: seq<Op>): Outcome
    decreases ops
  {
    if ops == [] then Ran(m, 0)
    else match Step(m, ops[0])
      case Stopped => Stopped
      case Ran(t, _) => Run(t, ops[1..])
  }
}
