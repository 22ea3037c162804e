/** A salloc and the reaper of kswap at the same time: mem/slab.c:105-173 and bin/kswap.c:71-78.

    salloc holds `slab_lock` between finding a slab and counting its buffer as handed out. The
    reaper does not take that lock: it picks a slab of the free list, unlinks it with interrupts off
    and returns its page, and may be preempted before each of these. All other calls are undivided;
    those that take `slab_lock` wait while it is held. */
module SlabRace {
  import Blocks
  import Boot
  import Buddy
  import BuddyTheorems
  import opened Machine
  import opened Memory
  import MemoryTheorems
  import opened Seqs
  import Slab

  /** A thread outside salloc, or behind the statement that read buffer `i` of the slab it found. */
  datatype Pc = Away | Found(size: nat, page: nat, i: nat, asked: nat)

  /** The reaper between two slabs, at a slab it has picked, and with one it has unlinked. */
  datatype Reaper = Waiting | Picked(page: nat) | Unlinked(page: nat)

  /** A page that the reaper has unlinked is in its hands: it is entered in the book as held. */
  datatype System = System(mem: Mem, locked: bool, threads: seq<Pc>, reaper: Reaper)

  datatype Op =
    | Call(op: Memory.Op) | Find(thread: nat, size: nat, asked: nat) | Take(thread: nat)
    | Pick(page: nat) | Unlink | GiveBack

  datatype Result = Halted | Next(y: System)

  // ---------------------------------------------------------------- the steps

  /** The call takes `slab_lock`. */
  predicate TakesLock(op: Memory.Op) {
    match op
    case DoKmalloc(size) => size <= Slab.MAX_SLAB_SIZE
    case DoKfree(_) => true
    case DoCreateSlab(_, _) => true
    case _ => false
  }

  /** list_remove takes the slab off whichever list it is on. */
  function Dropped(c: Slab.Cache, page: nat): Slab.Cache {
    Slab.Cache(c.slabs - {page}, Remove(c.free, page), Remove(c.used, page), Remove(c.empty, page))
  }

  /** The slab leaves its list; its page is in the reaper's hands. */
  function Seized(m: Mem, page: nat): Mem {
    m.(cache := Dropped(m.cache, page), owned := m.owned[page := Large(FrameAt(page), 0, PAGE)])
  }

  /** The rest of salloc in the slab it found. If the slab is gone it goes on all the same, in memory
      that is no slab any more, and hands out the buffer it has read. */
  function Taken(m: Mem, pc: Pc): Mem
    requires pc.Found?
  {
    var r := Slab.Salloc(m.cache, pc.size);
    var owned := m.owned[Slab.UserAddr(pc.page, pc.size, pc.i) := Small(pc.page, pc.i, pc.asked)];
    if r.Buffer? && r.page == pc.page && r.i == pc.i then m.(cache := r.c, owned := owned) else m.(owned := owned)
  }

  function At(y: System, i: nat, pc: Pc): System
    requires i < |y.threads|
  {
    y.(threads := y.threads[i := pc])
  }

  function Step(y: System, op: Op): Result {
    match op
    case Call(op) =>
      if TakesLock(op) && y.locked then Next(y)
      else
        (match Memory.Step(y.mem, op) case Stopped => Halted case Ran(t, _) => Next(y.(mem := t)))
    case Find(i, size, asked) =>
      if i >= |y.threads| || y.threads[i].Found? || y.locked then Next(y)
      else
        (match Slab.Salloc(y.mem.cache, size)
         case Buffer(_, page, k) => Next(At(y, i, Found(size, page, k, asked)).(locked := true))
         case _ => Next(y))
    case Take(i) =>
      if i >= |y.threads| || y.threads[i].Away? then Next(y)
      else Next(At(y, i, Away).(mem := Taken(y.mem, y.threads[i]), locked := false))
    case Pick(page) =>
      if y.reaper.Waiting? && page in y.mem.cache.free && page in y.mem.cache.slabs && !y.mem.cache.slabs[page].pinned
      then Next(y.(reaper := Picked(page))) else Next(y)
    case Unlink =>
      if !y.reaper.Picked? then Next(y)
      else
        Next(y.(mem := Seized(y.mem, y.reaper.page), reaper := Unlinked(y.reaper.page)))
    case GiveBack =>
      if !y.reaper.Unlinked? then Next(y)
      else
        match KfreePage(y.mem, y.reaper.page)
        case Stopped => Halted
        case Ran(t, _) => Next(y.(mem := t, reaper := Waiting))
  }

  predicate Returns(op: Memory.Op, ptr: nat) {
    op == DoKfree(ptr) || op == DoKfreePage(ptr) || op == DoFfree(ptr)
  }

  /** Requests fit the slabs they ask for, nobody returns the page in the reaper's hands, and there
      is one reaper. */
  predicate Legal(y: System, op: Op) {
    match op
    case Call(op) => !op.DoReap? && (y.reaper.Unlinked? ==> !Returns(op, y.reaper.page))
    case Find(_, size, asked) => asked <= size
    case _ => true
  }

  // ---------------------------------------------------------------- soundness

  /** The slab a thread has found is still the one salloc finds, with the buffer it has read. */
  ghost predicate FoundOk(m: Mem, pc: Pc)
    requires pc.Found?
  {
    var r := Slab.Salloc(m.cache, pc.size);
    r.Buffer? && r.page == pc.page && r.i == pc.i && pc.asked <= pc.size
  }

  ghost predicate LockOk(y: System) {
    && (y.locked <==> exists i :: 0 <= i < |y.threads| && y.threads[i].Found?)
    && forall i, j :: 0 <= i < j < |y.threads| ==> !(y.threads[i].Found? && y.threads[j].Found?)
  }

  ghost predicate ReaperOk(y: System) {
    match y.reaper
    case Waiting => true
    case Picked(page) => page in y.mem.cache.slabs
    case Unlinked(page) => page in y.mem.owned && y.mem.owned[page].Large?
  }

  /** The allocator's invariant holds, so held regions are disjoint, and every thread in salloc is
      at a slab. */
  ghost predicate Sound(y: System) {
    && MemoryTheorems.Inv(y.mem) && LockOk(y) && ReaperOk(y)
    && forall i :: 0 <= i < |y.threads| && y.threads[i].Found? ==> FoundOk(y.mem, y.threads[i])
  }

  /** The reaper may unlink the slab it has picked: it is still on the free list, and no salloc has
      found it. */
  ghost predicate Quiet(y: System) {
    y.reaper.Picked? ==>
      && y.reaper.page in y.mem.cache.free
      && forall i :: 0 <= i < |y.threads| && y.threads[i].Found? ==> y.threads[i].page != y.reaper.page
  }

  // ---------------------------------------------------------------- calls

  /** A call that does not take the lock leaves the slabs alone. */
  lemma CacheStays(m: Mem, op: Memory.Op)
    requires !TakesLock(op) && !op.DoReap? && Memory.Step(m, op).Ran?
    ensures Memory.Step(m, op).m.cache == m.cache
  {
    hide KallocPage, KfreePage, Fmalloc, Ffree;
    match op {
      case DoKmalloc(size) => PageCache(m, OrderFor(size), size, 0);
      case DoKallocPage(order) => PageCache(m, order, Bytes(order), 0);
      case DoKfreePage(ptr) => PageCache(m, 0, 0, ptr);
      case DoFmalloc(size) => FastCache(m, size, 0);
      case DoFfree(ptr) => FastCache(m, 0, ptr);
    }
  }

  lemma PageCache(m: Mem, order: nat, asked: nat, ptr: nat)
    ensures KallocPage(m, order, asked).Ran? ==> KallocPage(m, order, asked).m.cache == m.cache
    ensures KfreePage(m, ptr).Ran? ==> KfreePage(m, ptr).m.cache == m.cache
  {
  }

  lemma FastCache(m: Mem, size: nat, ptr: nat)
    ensures Fmalloc(m, size).Ran? ==> Fmalloc(m, size).m.cache == m.cache
    ensures Ffree(m, ptr).Ran? ==> Ffree(m, ptr).m.cache == m.cache
  {
  }

  /** salloc, sfree and createSlab take no slab away. */
  lemma SallocSlabs(m: Mem, size: nat, asked: nat)
    ensures Salloc(m, size, asked).Ran? ==> m.cache.slabs.Keys <= Salloc(m, size, asked).m.cache.slabs.Keys
  {
  }

  lemma CreateSlabs(m: Mem, size: nat, pinned: bool)
    ensures CreateSlab(m, size, pinned).Ran? ==> m.cache.slabs.Keys <= CreateSlab(m, size, pinned).m.cache.slabs.Keys
  {
    hide KallocPage, Slab.NewSlab;
    PageCache(m, 0, PAGE, 0);
  }

  lemma SfreeSlabs(c: Slab.Cache, page: nat, i: nat)
    ensures Slab.Sfree(c, page, i).slabs.Keys == c.slabs.Keys
  {
  }

  /** Only the reaper takes slabs away. */
  lemma SlabsStay(m: Mem, op: Memory.Op)
    requires !op.DoReap? && Memory.Step(m, op).Ran?
    ensures m.cache.slabs.Keys <= Memory.Step(m, op).m.cache.slabs.Keys
  {
    hide KallocPage, KfreePage, Fmalloc, Ffree, Salloc, CreateSlab, Slab.Sfree;
    if !TakesLock(op) {
      hide Memory.Step;
      CacheStays(m, op);
    } else {
      match op {
        case DoKmalloc(asked) =>
          var size := if asked < Slab.MIN_SLAB_SIZE then Slab.MIN_SLAB_SIZE else asked;
          SallocSlabs(m, size, asked);
          CreateSlabs(m, size, false);
          if CreateSlab(m, size, false).Ran? {
            SallocSlabs(CreateSlab(m, size, false).m, size, asked);
          }
        case DoKfree(ptr) =>
          PageCache(m, 0, 0, ptr);
          if ptr in m.owned && m.owned[ptr].Small? {
            SfreeSlabs(m.cache, m.owned[ptr].page, m.owned[ptr].index);
          }
        case DoCreateSlab(size, pinned) => CreateSlabs(m, size, pinned);
      }
    }
  }

  lemma CallKeeps(y: System, op: Memory.Op)
    requires Sound(y) && Legal(y, Call(op)) && Step(y, Call(op)).Next?
    ensures Sound(Step(y, Call(op)).y)
  {
    hide MemoryTheorems.Inv, Memory.Step, Slab.Salloc;
    if !(TakesLock(op) && y.locked) {
      MemoryTheorems.StepKeeps(y.mem, op);
      SlabsStay(y.mem, op);
      if y.reaper.Unlinked? {
        Boot.StepSpares(y.mem, op, {y.reaper.page});
      }
      if y.locked {
        CacheStays(y.mem, op);
      }
    }
  }

  // ---------------------------------------------------------------- salloc

  lemma FindKeeps(y: System, i: nat, size: nat, asked: nat)
    requires Sound(y) && asked <= size
    ensures Step(y, Find(i, size, asked)).Next? && Sound(Step(y, Find(i, size, asked)).y)
  {
    hide MemoryTheorems.Inv, Slab.Salloc;
    var t := Step(y, Find(i, size, asked)).y;
    if t != y {
      assert t.threads[i].Found?;
    }
  }

  lemma TakenIs(m: Mem, pc: Pc)
    requires MemoryTheorems.Inv(m) && pc.Found? && FoundOk(m, pc)
    ensures var r := Memory.Salloc(m, pc.size, pc.asked);
            r.Ran? && Taken(m, pc) == r.m && MemoryTheorems.Inv(r.m)
    ensures m.cache.slabs.Keys <= Taken(m, pc).cache.slabs.Keys
    ensures forall ptr :: ptr in m.owned ==> ptr in Taken(m, pc).owned && Taken(m, pc).owned[ptr] == m.owned[ptr]
  {
    hide MemoryTheorems.Inv, Slab.Salloc;
    MemoryTheorems.SallocKeeps(m, pc.size, pc.asked);
    SallocSlabs(m, pc.size, pc.asked);
    SallocPtr(m, pc.size, pc.asked);
  }

  lemma SallocPtr(m: Mem, size: nat, asked: nat)
    ensures Memory.Salloc(m, size, asked).Ran? && Slab.Salloc(m.cache, size).Buffer? ==>
              Memory.Salloc(m, size, asked).ptr > 0
  {
    hide Slab.Salloc;
  }

  lemma TakeKeeps(y: System, i: nat)
    requires Sound(y)
    ensures Step(y, Take(i)).Next? && Sound(Step(y, Take(i)).y)
  {
    hide MemoryTheorems.Inv, Taken, FoundOk;
    if i < |y.threads| && y.threads[i].Found? {
      TakenIs(y.mem, y.threads[i]);
    }
  }

  // ---------------------------------------------------------------- the reaper

  /** What salloc finds does not depend on a slab it does not find. */
  lemma {:induction false} FindWithout(c: Slab.Cache, d: Slab.Cache, xs: seq<nat>, size: nat, q: nat)
    requires Distinct(xs) && d.slabs == c.slabs - {q}
    requires var k := Slab.Find(c, xs, size); k < |xs| ==> xs[k] != q
    ensures var k := Slab.Find(c, xs, size);
            var ys := Remove(xs, q);
            var l := Slab.Find(d, ys, size);
            (k < |xs| <==> l < |ys|) && (k < |xs| ==> ys[l] == xs[k])
    decreases |xs|
  {
    if xs != [] {
      DistinctTail(xs);
      if xs[0] == q {
        FindSame(c, d, xs[1..], size, q);
      } else if !(xs[0] in c.slabs && c.slabs[xs[0]].size == size) {
        FindWithout(c, d, xs[1..], size, q);
        assert Remove(xs, q)[1..] == Remove(xs[1..], q);
      }
    }
  }

  lemma {:induction false} FindSame(c: Slab.Cache, d: Slab.Cache, xs: seq<nat>, size: nat, q: nat)
    requires d.slabs == c.slabs - {q} && q !in xs
    ensures Slab.Find(d, xs, size) == Slab.Find(c, xs, size)
  {
    if xs != [] {
      FindSame(c, d, xs[1..], size, q);
    }
  }

  /** So a salloc that has found one slab is not disturbed by the reaping of another. */
  lemma SallocWithout(c: Slab.Cache, size: nat, q: nat)
    requires Slab.Inv(c) && q in c.free
    requires var r := Slab.Salloc(c, size); r.Buffer? && r.page != q
    ensures var r, t := Slab.Salloc(c, size), Slab.Salloc(Slab.ReapOne(c, q), size);
            t.Buffer? && t.page == r.page && t.i == r.i
  {
    var d := Slab.ReapOne(c, q);
    FindSame(c, d, c.used, size, q);
    var k := Slab.Find(c, c.used, size);
    if k == |c.used| {
      FindWithout(c, d, c.free, size, q);
    } else {
      assert c.used[k] in c.used;
    }
  }

  lemma DroppedIsReaped(c: Slab.Cache, page: nat)
    requires Slab.Inv(c) && page in c.free
    ensures Dropped(c, page) == Slab.ReapOne(c, page) && page in c.slabs
  {
    Slab.TotAtLeastSix(c.slabs[page].size);
    RemoveAbsent(c.used, page);
    RemoveAbsent(c.empty, page);
  }

  /** A page that nobody holds is given to somebody. */
  lemma HoleFilled(m: Mem, t: Mem, page: nat)
    requires MemoryTheorems.OwnedBut(m, {FrameAt(page)}) && MemoryTheorems.SlabPages(m)
    requires Addr(FrameAt(page)) == page && page !in m.cache.slabs && page !in m.owned
    requires FrameAt(page) in m.kernel.live && m.kernel.live[FrameAt(page)] == 0
    requires t == m.(owned := m.owned[page := Large(FrameAt(page), 0, PAGE)])
    ensures MemoryTheorems.Owned(t) && MemoryTheorems.SlabPages(t)
  {
    MemoryTheorems.PageIsOne();
    forall q | q in t.kernel.live ensures MemoryTheorems.PageHeld(t, q) {
      if q != FrameAt(page) {
        assert MemoryTheorems.PageHeld(m, q);
      }
    }
    forall a | a in t.owned ensures MemoryTheorems.OwnedOk(t, a, t.owned[a]) {
      if a != page {
        assert MemoryTheorems.OwnedOk(m, a, m.owned[a]);
      }
    }
    forall p, i | Slab.LiveBuf(t.cache, p, i) ensures MemoryTheorems.HeldBuf(t, p, i) {
      assert MemoryTheorems.HeldBuf(m, p, i);
    }
  }

  /** Unlinking a slab with nothing out turns it into a page in the reaper's hands. */
  lemma UnlinkedOk(m: Mem, page: nat)
    requires MemoryTheorems.Inv(m) && page in m.cache.free
    ensures MemoryTheorems.Inv(Seized(m, page))
  {
    hide Buddy.Inv, Slab.Inv, MemoryTheorems.OwnedBut, MemoryTheorems.LiveBytes, MemoryTheorems.FastOwned,
         MemoryTheorems.SlabPages, Slab.ReapOne, Dropped;
    DroppedIsReaped(m.cache, page);
    Slab.ReapKeeps(m.cache, page);
    MemoryTheorems.ReapOneSlabs(m.cache, page);
    var t := m.(cache := Slab.ReapOne(m.cache, page));
    MemoryTheorems.SlabGone(m, t, page);
    MemoryTheorems.FastSame(m, t);
    MemoryTheorems.SlabNotHeld(m, page);
    SlabFrame(m, page);
    var u := t.(owned := t.owned[page := Large(FrameAt(page), 0, PAGE)]);
    HoleFilled(t, u, page);
    MemoryTheorems.FastSame(t, u);
  }

  lemma SlabFrame(m: Mem, page: nat)
    requires MemoryTheorems.SlabPages(m) && page in m.cache.slabs
    ensures Addr(FrameAt(page)) == page && FrameAt(page) in m.kernel.live && m.kernel.live[FrameAt(page)] == 0
  {
  }

  /** Fewer numbers than `n` leave one below `n` out. */
  lemma {:induction false} SomeMissing(xs: seq<nat>, n: nat) returns (i: nat)
    requires Distinct(xs) && |xs| < n
    ensures i < n && i !in xs
    decreases n
  {
    var top: nat := n - 1;
    i := top;
    if top in xs {
      RemoveFacts(xs, top);
      RemoveShorter(xs, top);
      i := SomeMissing(Remove(xs, top), top);
    }
  }

  lemma {:induction false} RemoveShorter(xs: seq<nat>, x: nat)
    requires x in xs
    ensures |Remove(xs, x)| == |xs| - 1
  {
    if xs[0] != x {
      RemoveShorter(xs[1..], x);
    }
  }

  /** A slab that is not on the free list has a buffer out, and somebody holds it. */
  lemma UsedIsHeld(m: Mem, page: nat) returns (ptr: nat)
    requires MemoryTheorems.Inv(m) && page in m.cache.slabs && page !in m.cache.free
    ensures ptr in m.owned && m.owned[ptr].Small? && m.owned[ptr].page == page && ptr != page
  {
    var s := m.cache.slabs[page];
    var i := SomeMissing(s.chain, s.tot + 1);
    assert MemoryTheorems.HeldBuf(m, page, i);
    MemoryTheorems.SmallAddr(m.cache, page, i);
    ptr := Slab.UserAddr(page, s.size, i);
  }

  /** Unlinking such a slab leaves a held buffer in no slab. */
  lemma UnlinkedBad(m: Mem, page: nat)
    requires MemoryTheorems.Inv(m) && page in m.cache.slabs && page !in m.cache.free
    ensures !MemoryTheorems.Inv(Seized(m, page))
  {
    hide Buddy.Inv, Slab.Inv;
    var ptr := UsedIsHeld(m, page);
    var t := Seized(m, page);
    assert !MemoryTheorems.OwnedOk(t, ptr, t.owned[ptr]);
  }

  lemma SallocPage(c: Slab.Cache, size: nat)
    ensures Slab.Salloc(c, size).Buffer? ==> Slab.Salloc(c, size).page in c.slabs
  {
  }

  /** The reaper's unlinking keeps the machine sound exactly when it is quiet. */
  lemma UnlinkExactly(y: System)
    requires Sound(y) && y.reaper.Picked?
    ensures Step(y, Unlink).Next? && (Sound(Step(y, Unlink).y) <==> Quiet(y))
  {
    hide MemoryTheorems.Inv, Slab.Salloc, Dropped;
    var page := y.reaper.page;
    var t := Step(y, Unlink).y;
    if page !in y.mem.cache.free {
      UnlinkedBad(y.mem, page);
    } else {
      UnlinkedOk(y.mem, page);
      PartsKnown(y.mem);
      DroppedIsReaped(y.mem.cache, page);
      MemoryTheorems.ReapOneSlabs(y.mem.cache, page);
      forall i | 0 <= i < |y.threads| && y.threads[i].Found?
        ensures FoundOk(t.mem, y.threads[i]) <==> y.threads[i].page != page
      {
        SallocPage(t.mem.cache, y.threads[i].size);
        if y.threads[i].page != page {
          SallocWithout(y.mem.cache, y.threads[i].size, page);
        }
      }
    }
  }

  lemma PartsKnown(m: Mem)
    requires MemoryTheorems.Inv(m)
    ensures Slab.Inv(m.cache)
  {
    hide Buddy.Inv, Slab.Inv;
  }

  lemma PickKeeps(y: System, page: nat)
    requires Sound(y)
    ensures Step(y, Pick(page)).Next? && Sound(Step(y, Pick(page)).y)
  {
    hide MemoryTheorems.Inv, FoundOk;
  }

  lemma GiveBackKeeps(y: System)
    requires Sound(y)
    ensures Step(y, GiveBack).Next? && Sound(Step(y, GiveBack).y)
  {
    hide MemoryTheorems.Inv, KfreePage;
    if y.reaper.Unlinked? {
      MemoryTheorems.KfreePageKeeps(y.mem, y.reaper.page);
    }
  }

  // ---------------------------------------------------------------- every schedule

  /** Every step keeps the machine sound, but for an unlinking that is not quiet. */
  lemma StepExactly(y: System, op: Op)
    requires Sound(y) && Legal(y, op) && Step(y, op).Next?
    ensures Sound(Step(y, op).y) <==> (op.Unlink? ==> Quiet(y))
  {
    hide MemoryTheorems.Inv, Memory.Step, LockOk, FoundOk, KfreePage, Taken;
    match op {
      case Call(c) => CallKeeps(y, c);
      case Find(i, size, asked) => FindKeeps(y, i, size, asked);
      case Take(i) => TakeKeeps(y, i);
      case Pick(page) => PickKeeps(y, page);
      case Unlink => if y.reaper.Picked? { UnlinkExactly(y); }
      case GiveBack => GiveBackKeeps(y);
    }
  }

  ghost predicate LegalRun(y: System, ops: seq<Op>)
    decreases |ops|
  {
    ops == [] || (Legal(y, ops[0]) && (Step(y, ops[0]).Next? ==> LegalRun(Step(y, ops[0]).y, ops[1..])))
  }

  /** Every state of a run is sound. */
  ghost predicate AlwaysSound(y: System, ops: seq<Op>)
    decreases |ops|
  {
    Sound(y) && (ops != [] && Step(y, ops[0]).Next? ==> AlwaysSound(Step(y, ops[0]).y, ops[1..]))
  }

  /** Every unlinking of a run is quiet. */
  ghost predicate AlwaysQuiet(y: System, ops: seq<Op>)
    decreases |ops|
  {
    ops == [] || ((ops[0].Unlink? ==> Quiet(y))
                  && (Step(y, ops[0]).Next? ==> AlwaysQuiet(Step(y, ops[0]).y, ops[1..])))
  }

  /** When the reaper may run without `slab_lock`: a schedule keeps the allocator sound throughout if
      and only if, whenever the reaper unlinks a slab, the slab is still free and no salloc has found
      it. */
  lemma {:induction false} RaceExactly(y: System, ops: seq<Op>)
    requires Sound(y) && LegalRun(y, ops)
    ensures AlwaysSound(y, ops) <==> AlwaysQuiet(y, ops)
    decreases |ops|
  {
    hide Sound, Quiet, Legal, Step;
    if ops != [] {
      UnlinkNext(y);
      if Step(y, ops[0]).Next? {
        StepExactly(y, ops[0]);
        var z := Step(y, ops[0]).y;
        if Sound(z) {
          RaceExactly(z, ops[1..]);
        }
      }
    }
  }

  lemma UnlinkNext(y: System)
    ensures Step(y, Unlink).Next?
  {
  }

  // ---------------------------------------------------------------- what goes wrong

  /** The first page handed out by a zone of 4 MiB with nothing out is its first page. */
  lemma FirstPage(s: Buddy.State)
    requires Buddy.Inv(s) && s.tot == Blocks.TOP && s.live == map[]
    ensures var r := Buddy.Get(s, 0);
            r.Got? && r.pfn == 0 && Buddy.Inv(r.s) && r.s.tot == Blocks.TOP && r.s.live == map[0 := 0]
  {
    hide Buddy.Inv, Buddy.Get, Buddy.Init, Buddy.ListOf, BuddyTheorems.SmallestFit;
    assert BuddyTheorems.FreeRun(s, 0, 0);
    BuddyTheorems.Completeness(s, 0);
    ListCount(s);
    BuddyTheorems.BestFit(s, 0);
    BuddyTheorems.InitInv(1);
    OneBlock();
    BuddyTheorems.EqualLiveSameFree(s, Buddy.Init(1));
    var r := Buddy.Get(s, 0);
    assert r.pfn in Buddy.ListOf(s, BuddyTheorems.SmallestFit(s, 0));
    Buddy.GetKeeps(s, 0);
    Buddy.GetEffect(s, 0);
  }

  lemma ListCount(s: Buddy.State)
    requires Buddy.Inv(s)
    ensures |s.lists| == Blocks.MAX_ORDER + 1
  {
  }

  lemma OneBlock()
    ensures Buddy.Init(1).tot == Blocks.TOP && Buddy.Init(1).live == map[]
    ensures forall o: nat, p: nat :: p in Buddy.ListOf(Buddy.Init(1), o) ==> p == 0
  {
  }

  /** The machine at boot with one largest block in each zone, and one thread. */
  function Start(fastOffset: nat): System {
    System(MemoryTheorems.Boot(1, 1, fastOffset), false, [Away], Waiting)
  }

  /** A salloc finds a slab; the reaper, which has picked it, gives its page back; the page is handed
      out again; salloc goes on. */
  function Race(size: nat): seq<Op> {
    [Call(DoCreateSlab(size, false)), Find(0, size, size), Pick(Addr(0)), Unlink, GiveBack,
     Call(DoKallocPage(0)), Take(0)]
  }

  function Run(y: System, ops: seq<Op>): Result
    decreases |ops|
  {
    if ops == [] then Next(y)
    else match Step(y, ops[0])
      case Halted => Halted
      case Next(z) => Run(z, ops[1..])
  }

  /** The state after the slab has been made: its page is the first of the zone. */
  function WithSlab(t: Buddy.State, size: nat, fastOffset: nat): Mem
    requires Slab.TotFor(size) >= 0
  {
    MemoryTheorems.Boot(1, 1, fastOffset).(kernel := t, kused := PAGE, used := PAGE,
      cache := Slab.Cache(map[Addr(0) := Slab.NewSlab(size)], [Addr(0)], [], []))
  }

  lemma SlabMade(size: nat, fastOffset: nat) returns (t: Buddy.State)
    requires Slab.MIN_SLAB_SIZE <= size <= Slab.MAX_SLAB_SIZE
    ensures Slab.TotFor(size) >= 0 && Buddy.Inv(t) && t.tot == Blocks.TOP && t.live == map[0 := 0]
    ensures CreateSlab(MemoryTheorems.Boot(1, 1, fastOffset), size, false)
            == Ran(WithSlab(t, size, fastOffset), Addr(0))
  {
    hide Buddy.Inv, Buddy.Get, Buddy.Init, Slab.NewSlab, Slab.TotFor;
    Slab.TotAtLeastSix(size);
    BuddyTheorems.InitInv(1);
    OneBlock();
    FirstPage(Buddy.Init(1));
    t := Buddy.Get(Buddy.Init(1), 0).s;
    Buddy.InvParts(t);
    Buddy.LiveOrder(t, 0);
    MemoryTheorems.PageIsOne();
    assert map[][Addr(0) := Large(0, 0, PAGE)] - {Addr(0)} == map[];
  }

  lemma StartSound(fastOffset: nat)
    ensures Sound(Start(fastOffset))
  {
    hide MemoryTheorems.Inv, MemoryTheorems.Boot;
    MemoryTheorems.BootInv(1, 1, fastOffset);
  }

  lemma {:induction false} RunAlong(ys: seq<System>, ops: seq<Op>)
    requires |ys| == |ops| + 1 && forall k :: 0 <= k < |ops| ==> Step(ys[k], ops[k]) == Next(ys[k + 1])
    ensures Run(ys[0], ops) == Next(ys[|ops|])
    decreases |ops|
  {
    hide Step;
    if ops != [] {
      assert forall k :: 0 <= k < |ops[1..]| ==> Step(ys[1..][k], ops[1..][k]) == Next(ys[1..][k + 1]);
      RunAlong(ys[1..], ops[1..]);
    }
  }

  /** The only slab of the size is found, with its first buffer. */
  lemma FirstBuffer(t: Buddy.State, size: nat, fastOffset: nat)
    requires Slab.TotFor(size) >= 0
    ensures var r := Slab.Salloc(WithSlab(t, size, fastOffset).cache, size);
            r.Buffer? && r.page == Addr(0) && r.i == 0
  {
    hide Slab.TotFor;
    var c := WithSlab(t, size, fastOffset).cache;
    assert Slab.Find(c, c.used, size) == 0 && Slab.Find(c, c.free, size) == 0;
  }

  lemma NothingFound(size: nat)
    ensures Slab.Salloc(Slab.Cache(map[], [], [], []), size).NoSlab?
  {
  }

  lemma NothingLeft(t: Buddy.State, size: nat, fastOffset: nat)
    requires Slab.TotFor(size) >= 0
    ensures Dropped(WithSlab(t, size, fastOffset).cache, Addr(0)) == Slab.Cache(map[], [], [], [])
  {
    var c := WithSlab(t, size, fastOffset).cache;
    assert c.slabs - {Addr(0)} == map[];
    assert [Addr(0)][1..] == [];
  }

  /** The machine with the given kernel zone and held pages, and no slab. */
  function NoSlabs(t: Buddy.State, bytes: nat, owned: map<nat, Region>, fastOffset: nat): Mem {
    MemoryTheorems.Boot(1, 1, fastOffset).(kernel := t, kused := bytes, used := bytes, owned := owned)
  }

  lemma PageGivenBack(t: Buddy.State, fastOffset: nat) returns (u: Buddy.State)
    requires Buddy.Inv(t) && t.tot == Blocks.TOP && t.live == map[0 := 0]
    ensures Buddy.Inv(u) && u.tot == Blocks.TOP && u.live == map[]
    ensures KfreePage(NoSlabs(t, PAGE, map[Addr(0) := Large(0, 0, PAGE)], fastOffset), Addr(0))
            == Ran(NoSlabs(u, 0, map[], fastOffset), 0)
  {
    hide Buddy.Inv, Buddy.Release, Buddy.Init;
    MemoryTheorems.ReleasedBlock(t, 0);
    MemoryTheorems.AddrFacts(0, 0);
    MemoryTheorems.PageIsOne();
    u := Buddy.Release(t, 0).s;
    assert map[0 := 0] - {0} == map[];
    assert map[Addr(0) := Large(0, 0, PAGE)] - {Addr(0)} == map[];
  }

  lemma PageTakenAgain(u: Buddy.State, fastOffset: nat) returns (v: Buddy.State)
    requires Buddy.Inv(u) && u.tot == Blocks.TOP && u.live == map[]
    ensures KallocPage(NoSlabs(u, 0, map[], fastOffset), 0, Bytes(0))
            == Ran(NoSlabs(v, PAGE, map[Addr(0) := Large(0, 0, PAGE)], fastOffset), Addr(0))
  {
    hide Buddy.Inv, Buddy.Get, Buddy.Init;
    FirstPage(u);
    v := Buddy.Get(u, 0).s;
    Buddy.InvParts(v);
    Buddy.LiveOrder(v, 0);
    MemoryTheorems.PageIsOne();
  }

  /** A schedule that is not quiet: afterwards one caller holds a page and another a buffer in it. */
  lemma RaceOverlaps(size: nat, fastOffset: nat)
    requires Slab.MIN_SLAB_SIZE <= size <= Slab.MAX_SLAB_SIZE
    ensures Run(Start(fastOffset), Race(size)).Next?
    ensures var owned := Run(Start(fastOffset), Race(size)).y.mem.owned;
            var page, ptr := Addr(0), Slab.UserAddr(Addr(0), size, 0);
            && page in owned && owned[page] == Large(0, 0, PAGE)
            && ptr in owned && owned[ptr] == Small(page, 0, size)
            && page < ptr && ptr + size <= page + PAGE
  {
    hide Buddy.Inv, Slab.Salloc, Slab.TotFor, KfreePage, KallocPage, CreateSlab, Dropped;
    var t := SlabMade(size, fastOffset);
    FirstBuffer(t, size, fastOffset);
    NothingLeft(t, size, fastOffset);
    var u := PageGivenBack(t, fastOffset);
    var v := PageTakenAgain(u, fastOffset);
    NothingFound(size);
    MemoryTheorems.AddrFacts(0, 0);
    var found := [Found(size, Addr(0), 0, size)];
    var held := map[Addr(0) := Large(0, 0, PAGE)];
    var m := WithSlab(t, size, fastOffset);
    var ptr := Slab.UserAddr(Addr(0), size, 0);
    var last := NoSlabs(v, PAGE, held[ptr := Small(Addr(0), 0, size)], fastOffset);
    RunAlong([Start(fastOffset), System(m, false, [Away], Waiting), System(m, true, found, Waiting),
              System(m, true, found, Picked(Addr(0))),
              System(NoSlabs(t, PAGE, held, fastOffset), true, found, Unlinked(Addr(0))),
              System(NoSlabs(u, 0, map[], fastOffset), true, found, Waiting),
              System(NoSlabs(v, PAGE, held, fastOffset), true, found, Waiting),
              System(last, false, [Away], Waiting)], Race(size));
    assert Slab.Offset(size, 0) == 0;
  }
}
