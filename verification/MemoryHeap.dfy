/** The allocator of mem/mem.c in memory: two buddy descriptors, the slab cache, the
    byte counters and kmem_lock, refining the state machine of module Memory. */
module MemoryHeap {
  import opened Blocks
  import opened Machine
  import opened Rings
  import opened Seqs
  import Buddy
  import Slab
  import opened BuddyHeap
  import opened SlabHeap
  import opened Memory
  import MemoryTheorems

  class KernelMemory {
    const kernel: BuddyMemDesc
    const fast: BuddyMemDesc
    const cache: MemCache
    var total_kused_memory: int
    var total_fused_memory: int
    var total_used_memory: int
    var kmem_locked: bool
    /** The pointers callers hold. */
    ghost var owned: map<nat, Region>
    ghost var fastOwned: map<nat, Region>

    constructor (kernel: BuddyMemDesc, fast: BuddyMemDesc, cache: MemCache)
      ensures this.kernel == kernel && this.fast == fast && this.cache == cache && !kmem_locked
      ensures total_kused_memory == 0 && total_fused_memory == 0 && total_used_memory == 0
      ensures owned == map[] && fastOwned == map[]
    {
      this.kernel, this.fast, this.cache, kmem_locked := kernel, fast, cache, false;
      total_kused_memory, total_fused_memory, total_used_memory := 0, 0, 0;
      owned, fastOwned := map[], map[];
    }

    ghost predicate Separate()
      reads cache`nodes
    {
      && kernel != fast && kernel.pfn_offset == 0
      && kernel.nodes !! fast.nodes && kernel.nodes !! cache.nodes && fast.nodes !! cache.nodes
      && kernel.blocks !! fast.blocks
    }

    ghost predicate Valid()
      reads this, kernel, kernel.blocks, kernel.nodes, fast, fast.blocks, fast.nodes, cache, cache.nodes
    {
      Separate() && Parts() && !cache.slab_locked && !kmem_locked
    }

    ghost function View(): Mem
      requires cache.RingsOk()
      reads this, kernel, fast, cache, cache.nodes
    {
      Mem(kernel.View(), fast.View(), fast.pfn_offset, cache.View(),
          total_kused_memory, total_fused_memory, total_used_memory, owned, fastOwned)
    }

    ghost predicate Good()
      reads this, kernel, kernel.blocks, kernel.nodes, fast, fast.blocks, fast.nodes, cache, cache.nodes
    {
      Valid() && MemoryTheorems.Inv(View())
    }

    /** Every part is well formed; nothing is said about counters and locks. */
    ghost predicate Parts()
      reads kernel, kernel.blocks, kernel.nodes, fast, fast.blocks, fast.nodes, cache, cache.nodes
    {
      kernel.Valid() && fast.Valid() && cache.Valid()
    }

    /** A request to the kernel zone leaves the fast zone and the slab cache alone. */
    method GetKernelBlock(order: nat) returns (p: BuddyBlock?)
      requires Separate() && Parts() && Buddy.Inv(kernel.View())
      modifies kernel, kernel.blocks, kernel.nodes
      ensures Parts() && fast.View() == old(fast.View()) && cache.View() == old(cache.View())
      ensures p == null ==> Buddy.Get(old(kernel.View()), order) == Buddy.Panic && kernel.View() == old(kernel.View())
      ensures p != null ==>
                && p in kernel.all_buddies && p.pfn < kernel.tot_pages
                && Buddy.Get(old(kernel.View()), order) == Buddy.Got(kernel.View(), p.pfn)
                && Buddy.OrderOf(kernel.View(), p.pfn) == p.order
    {
      hide BuddyMemDesc.Valid, MemCache.Valid, MemCache.RingsOk, Buddy.Inv, Buddy.Get, Buddy.OrderOf;
      ListsKnown();
      p := kernel.GetBuddy(order);
      if p != null {
        kernel.RecordKnown(p);
      }
    }

    lemma ListsKnown()
      requires Parts()
      ensures cache.RingsOk() && forall name: Name :: name in cache.lists
    {
    }

    /** The same for returning a block of the kernel zone. */
    method FreeKernelBlock(p: BuddyBlock) returns (ok: bool)
      requires Separate() && Parts() && Buddy.Inv(kernel.View())
      requires p in kernel.all_buddies && (p.pfn in kernel.live || p.free)
      modifies kernel, kernel.blocks, kernel.nodes
      ensures Parts() && fast.View() == old(fast.View()) && cache.View() == old(cache.View())
      ensures match Buddy.Release(old(kernel.View()), p.pfn)
              case FreePanic => !ok && kernel.View() == old(kernel.View())
              case Freed(t) => ok && kernel.View() == t
    {
      hide BuddyMemDesc.Valid, MemCache.Valid, MemCache.RingsOk, Buddy.Inv, Buddy.Release;
      ListsKnown();
      ok := kernel.FreeBuddy(p);
    }

    /** `bytes` more (or, negative, fewer) in use in the kernel zone. */
    method Charge(bytes: int, ghost held: map<nat, Region>)
      requires Separate() && Parts() && cache.RingsOk()
      modifies this`total_kused_memory, this`total_used_memory, this`owned
      ensures Separate() && Parts() && cache.RingsOk()
      ensures View() == old(View()).(kused := old(total_kused_memory) + bytes,
                                     used := old(total_used_memory) + bytes, owned := held)
    {
      hide BuddyMemDesc.Valid, MemCache.Valid, MemCache.RingsOk;
      total_kused_memory := total_kused_memory + bytes;
      total_used_memory := total_used_memory + bytes;
      owned := held;
    }

    /** The locked part of kalloc_page, which is all of kalloc_nosleep. `ok` is false when it panics. */
    method KallocNosleep(order: nat, ghost asked: nat) returns (ok: bool, ptr: nat)
      requires Separate() && Parts() && Buddy.Inv(kernel.View()) && cache.RingsOk()
      modifies this`total_kused_memory, this`total_used_memory, this`owned
      modifies kernel, kernel.blocks, kernel.nodes
      ensures Separate() && Parts() && cache.RingsOk()
      ensures match Memory.KallocPage(old(View()), order, asked)
              case Stopped => !ok && View() == old(View())
              case Ran(m, p) => ok && View() == m && ptr == p
    {
      hide BuddyMemDesc.Valid, MemCache.Valid, Buddy.Inv, Buddy.Get, Buddy.OrderOf, MemCache.RingsOk, Parts;
      var p := GetKernelBlock(order);
      ListsKnown();
      ok, ptr := p != null, 0;
      if p != null {
        ptr := BASE + kernel.FrameOf(p) * PAGE;
        Charge(Pages(p.order) * PAGE, owned[ptr := Large(p.pfn, order, asked)]);
      }
    }

    /** kalloc_page. */
    method KallocPage(order: nat, ghost asked: nat) returns (ok: bool, ptr: nat)
      requires Valid() && Buddy.Inv(kernel.View())
      modifies this`total_kused_memory, this`total_used_memory, this`kmem_locked, this`owned
      modifies kernel, kernel.blocks, kernel.nodes
      ensures Valid()
      ensures match Memory.KallocPage(old(View()), order, asked)
              case Stopped => !ok && View() == old(View())
              case Ran(m, p) => ok && View() == m && ptr == p
    {
      hide BuddyMemDesc.Valid, MemCache.Valid, Buddy.Inv, Memory.KallocPage, MemCache.RingsOk;
      ListsKnown();
      kmem_locked := true;
      ok, ptr := KallocNosleep(order, asked);
      kmem_locked := false;
    }

    /** kfree_page on NULL or on the start of a block of the kernel zone. */
    method KfreePage(ptr: nat) returns (ok: bool)
      requires Valid() && Buddy.Inv(kernel.View())
      requires ptr != 0 ==> ptr >= BASE && FrameAt(ptr) < kernel.tot_pages && Buddy.Head(kernel.View(), FrameAt(ptr))
      modifies this`total_kused_memory, this`total_used_memory, this`kmem_locked, this`owned
      modifies kernel, kernel.blocks, kernel.nodes
      ensures Valid()
      ensures match Memory.KfreePage(old(View()), ptr)
              case Stopped => !ok && View() == old(View())
              case Ran(m, _) => ok && View() == m
    {
      hide BuddyMemDesc.Valid, MemCache.Valid, Buddy.Inv, Memory.KfreePage, MemCache.RingsOk, Buddy.Head, Parts,
           Separate;
      ListsKnown();
      if ptr == 0 {
        KfreeNull(View());
        return true;
      }
      kmem_locked := true;
      ok := KfreeLocked(ptr);
      kmem_locked := false;
    }

    static lemma KfreeNull(m: Mem)
      ensures Memory.KfreePage(m, 0) == Ran(m, 0)
    {
    }

    /** The locked part of kfree_page. */
    method KfreeLocked(ptr: nat) returns (ok: bool)
      requires Separate() && Parts() && Buddy.Inv(kernel.View()) && cache.RingsOk()
      requires ptr >= BASE && FrameAt(ptr) < kernel.tot_pages && Buddy.Head(kernel.View(), FrameAt(ptr))
      modifies this`total_kused_memory, this`total_used_memory, this`owned
      modifies kernel, kernel.blocks, kernel.nodes
      ensures Separate() && Parts() && cache.RingsOk()
      ensures match Memory.KfreePage(old(View()), ptr)
              case Stopped => !ok && View() == old(View())
              case Ran(m, _) => ok && View() == m
    {
      hide BuddyMemDesc.Valid, MemCache.Valid, Buddy.Inv, Buddy.Release, Buddy.OrderOf, Buddy.IsFree, MemCache.RingsOk;
      var free_me := kernel.BuddyFromFrame((ptr - BASE) / PAGE);
      kernel.RecordKnown(free_me);
      var freed_size := Pages(free_me.order) * PAGE;
      hide Parts;
      ok := FreeKernelBlock(free_me);
      ListsKnown();
      if ok {
        Charge(-freed_size, owned - {ptr});
      }
    }

    /** A request to the slab cache leaves both zones alone. */
    method GetBuffer(size: nat) returns (outP: nat)
      requires Separate() && Parts() && !cache.slab_locked && Slab.SallocSafe(cache.View(), size)
      modifies cache, cache.nodes
      ensures Separate() && Parts() && !cache.slab_locked && cache.nodes == old(cache.nodes)
      ensures kernel.View() == old(kernel.View()) && fast.View() == old(fast.View())
      ensures match Slab.Salloc(old(cache.View()), size)
              case Buffer(d, page, i) => cache.View() == d && page in d.slabs
                  && outP == Slab.UserAddr(page, d.slabs[page].size, i)
              case _ => cache.View() == old(cache.View()) && outP == 0
    {
      hide BuddyMemDesc.Valid, MemCache.HeadersOk, MemCache.NodesOk, MemCache.MemoryOk, MemCache.RingsOk, Slab.Salloc,
           Slab.SallocSafe;
      ListsKnown();
      outP := cache.Salloc(size);
    }

    /** salloc's two results, as the front end sees them. */
    static lemma SallocCases(m: Mem, size: nat, asked: nat)
      requires Slab.Inv(m.cache)
      ensures Slab.SallocSafe(m.cache, size)
      ensures match Slab.Salloc(m.cache, size)
              case Buffer(c, page, i) =>
                && page in c.slabs && c.slabs[page].size == size && Slab.UserAddr(page, size, i) != 0
                && Memory.Salloc(m, size, asked) ==
                     Ran(m.(cache := c, owned := m.owned[Slab.UserAddr(page, size, i) := Small(page, i, asked)]),
                         Slab.UserAddr(page, size, i))
              case _ => Memory.Salloc(m, size, asked) == Ran(m, 0)
    {
      Slab.AlwaysSafe(m.cache, size);
      hide Slab.SallocSafe, Slab.Salloc, Slab.Inv;
      Slab.SallocKeeps(m.cache, size);
    }

    /** Note in the callers' book what they hold. */
    ghost method Book(held: map<nat, Region>)
      requires Separate() && Parts() && cache.RingsOk()
      modifies this`owned
      ensures Separate() && Parts() && cache.RingsOk() && View() == old(View()).(owned := held)
    {
      hide BuddyMemDesc.Valid, MemCache.Valid, MemCache.RingsOk;
      owned := held;
    }

    /** salloc, with the result entered in the caller's book. */
    method Salloc(size: nat, ghost asked: nat) returns (outP: nat)
      requires Valid() && Slab.Inv(cache.View())
      modifies this`owned, cache, cache.nodes
      ensures Valid() && Memory.Salloc(old(View()), size, asked) == Ran(View(), outP) && cache.nodes == old(cache.nodes)
    {
      hide BuddyMemDesc.Valid, Slab.Inv, Slab.Salloc, Slab.SallocSafe, Memory.Salloc, Slab.UserAddr;
      ListsKnown();
      hide MemCache.Valid, MemCache.RingsOk, Parts, Separate;
      SallocCases(View(), size, asked);
      ghost var r := Slab.Salloc(cache.View(), size);
      outP := GetBuffer(size);
      ListsKnown();
      if outP != 0 {
        Book(owned[outP := Small(r.page, r.i, asked)]);
      }
    }

    /** The part of createSlab behind the page request, on a page that holds no slab. */
    method Adopt(page: nat, size: nat, pinned: bool)
      requires Separate() && Parts() && !cache.slab_locked && cache.RingsOk()
      requires Slab.Inv(cache.View()) && page !in cache.View().slabs && page % PAGE == 0
      requires Slab.MIN_SLAB_SIZE <= size <= Slab.MAX_SLAB_SIZE && Slab.TotFor(size) >= 0
      modifies cache, cache.nodes
      ensures Separate() && Parts() && !cache.slab_locked && cache.RingsOk() && fresh(cache.nodes - old(cache.nodes))
      ensures kernel.View() == old(kernel.View()) && fast.View() == old(fast.View())
      ensures cache.View() == Adopted(old(cache.View()), page, size, pinned)
    {
      hide Parts, Separate, MemCache.RingsOk, Slab.Inv, Slab.NewSlab, Slab.TotFor;
      CarveSlab(page, size);
      if pinned {
        PinSlab(page);
      }
    }

    method CarveSlab(page: nat, size: nat)
      requires Separate() && Parts() && !cache.slab_locked && cache.RingsOk()
      requires Slab.Inv(cache.View()) && page !in cache.View().slabs && page % PAGE == 0
      requires Slab.MIN_SLAB_SIZE <= size <= Slab.MAX_SLAB_SIZE && Slab.TotFor(size) >= 0
      modifies cache, cache.nodes
      ensures Separate() && Parts() && !cache.slab_locked && cache.RingsOk() && fresh(cache.nodes - old(cache.nodes))
      ensures kernel.View() == old(kernel.View()) && fast.View() == old(fast.View())
      ensures cache.View() == Slab.CreateSlab(old(cache.View()), page, size)
    {
      hide BuddyMemDesc.Valid, MemCache.HeadersOk, MemCache.NodesOk, MemCache.MemoryOk, MemCache.RingsOk,
           MemCache.FreshAddresses,
           Slab.Inv, Slab.NewSlab, Slab.TotFor;
      cache.SizesKnown();
      ListsKnown();
      SlabsOk(cache.View());
      cache.PageIsFresh(page, size);
      cache.CreateSlab(page, size);
      ListsKnown();
    }

    /** `s->pinned = TRUE`. */
    method PinSlab(page: nat)
      requires Separate() && Parts() && cache.RingsOk() && page in cache.View().slabs
      modifies cache
      ensures Separate() && Parts() && cache.RingsOk() && cache.slab_locked == old(cache.slab_locked)
      ensures cache.nodes == old(cache.nodes)
      ensures kernel.View() == old(kernel.View()) && fast.View() == old(fast.View())
      ensures cache.View() == Slab.SetPinned(old(cache.View()), page)
    {
      hide BuddyMemDesc.Valid, MemCache.HeadersOk, MemCache.NodesOk, MemCache.MemoryOk, MemCache.RingsOk;
      cache.SizesKnown();
      ListsKnown();
      cache.Pin(page);
      ListsKnown();
    }

    static lemma SlabsOk(c: Slab.Cache)
      requires Slab.Inv(c)
      ensures forall p :: p in c.slabs ==> Slab.SlabOk(c.slabs[p]) && p % PAGE == 0
    {
    }

    static function Adopted(c: Slab.Cache, page: nat, size: nat, pinned: bool): Slab.Cache
      requires Slab.TotFor(size) >= 0
    {
      var d := Slab.CreateSlab(c, page, size);
      if pinned then Slab.SetPinned(d, page) else d
    }

    /** createSlab; `pinned` stands for the `s->pinned = TRUE` that may follow it. */
    method CreateSlab(size: nat, pinned: bool) returns (ok: bool, page: nat)
      requires Good() && Slab.MIN_SLAB_SIZE <= size <= Slab.MAX_SLAB_SIZE
      modifies this`total_kused_memory, this`total_used_memory, this`kmem_locked, this`owned
      modifies kernel, kernel.blocks, kernel.nodes, cache, cache.nodes
      ensures Valid() && fresh(cache.nodes - old(cache.nodes))
      ensures match Memory.CreateSlab(old(View()), size, pinned)
              case Stopped => !ok && View() == old(View())
              case Ran(m, p) => ok && View() == m && page == p
    {
      hide BuddyMemDesc.Valid, MemCache.Valid, Memory.KallocPage, MemCache.RingsOk, Parts, Separate, MemoryTheorems.Inv;
      ListsKnown();
      NewPageFacts(View(), size, pinned);
      hide Memory.CreateSlab;
      ok, page := KallocPage(0, PAGE);
      ListsKnown();
      if ok {
        Book(owned - {page});
        Adopt(page, size, pinned);
      }
    }

    /** What createSlab knows about the page it gets. */
    static lemma NewPageFacts(m: Mem, size: nat, pinned: bool)
      requires MemoryTheorems.Inv(m) && Slab.MIN_SLAB_SIZE <= size <= Slab.MAX_SLAB_SIZE
      ensures Buddy.Inv(m.kernel) && Slab.Inv(m.cache) && Slab.TotFor(size) >= 0
      ensures match Memory.KallocPage(m, 0, PAGE)
              case Stopped => Memory.CreateSlab(m, size, pinned) == Stopped
              case Ran(t, page) =>
                && t.cache == m.cache && page !in m.cache.slabs && page % PAGE == 0
                && Memory.CreateSlab(m, size, pinned) ==
                     Ran(t.(cache := Adopted(m.cache, page, size, pinned), owned := t.owned - {page}), page)
    {
      hide Memory.KallocPage;
      MemoryTheorems.PageIsOne();
      Slab.TotAtLeastSix(size);
      if Memory.KallocPage(m, 0, PAGE).Ran? {
        MemoryTheorems.KallocKeeps(m, 0, PAGE);
        MemoryTheorems.AddrFacts(FrameAt(Memory.KallocPage(m, 0, PAGE).ptr), 0);
      }
    }

    /** kmalloc. It panics or returns memory, never NULL. */
    method Kmalloc(asked: nat) returns (ok: bool, out: nat)
      requires Good()
      modifies this`total_kused_memory, this`total_used_memory, this`kmem_locked, this`owned
      modifies kernel, kernel.blocks, kernel.nodes, cache, cache.nodes
      ensures Good() && fresh(cache.nodes - old(cache.nodes))
      ensures match Memory.Kmalloc(old(View()), asked)
              case Stopped => !ok && View() == old(View())
              case Ran(m, p) => ok && View() == m && out == p && out != 0
    {
      hide BuddyMemDesc.Valid, MemCache.Valid, Memory.CreateSlab, Memory.Salloc, Memory.KallocPage, MemCache.RingsOk,
           Parts, Separate,
           MemoryTheorems.Inv, Slab.HasRoom, MemoryTheorems.HasRun;
      ListsKnown();
      KmallocShape(View(), asked);
      hide Memory.Kmalloc;
      if asked <= Slab.MAX_SLAB_SIZE {
        var size := if asked < Slab.MIN_SLAB_SIZE then Slab.MIN_SLAB_SIZE else asked;
        out := Salloc(size, asked);
        ok := true;
        if out == 0 {
          ok, out := CreateSlab(size, false);
          if ok {
            out := Salloc(size, asked);
          }
        }
      } else {
        var order := CalcPageOrder(asked);
        ok, out := KallocPage(order, asked);
      }
    }

    /** The paths through kmalloc, with what each step may rely on. */
    static lemma KmallocShape(m: Mem, asked: nat)
      requires MemoryTheorems.Inv(m)
      ensures Slab.Inv(m.cache) && Buddy.Inv(m.kernel)
      ensures Memory.Kmalloc(m, asked).Ran? ==>
                Memory.Kmalloc(m, asked).ptr != 0 && MemoryTheorems.Inv(Memory.Kmalloc(m, asked).m)
      ensures asked > Slab.MAX_SLAB_SIZE ==> Memory.Kmalloc(m, asked) == Memory.KallocPage(m, OrderFor(asked), asked)
      ensures asked <= Slab.MAX_SLAB_SIZE ==>
                var size := if asked < Slab.MIN_SLAB_SIZE then Slab.MIN_SLAB_SIZE else asked;
                var r := Memory.Salloc(m, size, asked);
                && r.Ran?
                && (r.ptr != 0 ==> Memory.Kmalloc(m, asked) == r)
                && (r.ptr == 0 ==>
                      && r.m == m
                      && match Memory.CreateSlab(m, size, false)
                         case Stopped => Memory.Kmalloc(m, asked) == Stopped
                         case Ran(u, _) =>
                           && MemoryTheorems.Inv(u) && Slab.Inv(u.cache)
                           && Memory.Kmalloc(m, asked) == Memory.Salloc(u, size, asked))
    {
      hide Memory.CreateSlab, Memory.Salloc, Memory.KallocPage, Slab.HasRoom, MemoryTheorems.HasRun;
      MemoryTheorems.KmallocKeeps(m, asked);
      if asked <= Slab.MAX_SLAB_SIZE {
        var size := if asked < Slab.MIN_SLAB_SIZE then Slab.MIN_SLAB_SIZE else asked;
        MemoryTheorems.SallocKeeps(m, size, asked);
        if Memory.CreateSlab(m, size, false).Ran? {
          MemoryTheorems.CreateSlabKeeps(m, size, false);
        }
      }
    }

    /** The buffers found by address have the size and count of their slab. */
    lemma LaidOut(page: nat)
      requires cache.HeadersOk() && page in cache.states
      ensures page in cache.layout && cache.layout[page] == (cache.states[page].size, cache.states[page].tot)
    {
      assert cache.HeaderOk(page);
    }

    /** A held pointer is found as a slab buffer exactly when it is one. */
    lemma Classified(ptr: nat)
      requires Parts() && cache.RingsOk() && MemoryTheorems.Inv(View()) && (ptr == 0 || ptr in owned)
      ensures ptr in cache.memory <==> ptr in owned && owned[ptr].Small?
      ensures ptr in cache.memory ==>
                var (page, index) := cache.memory[ptr];
                && owned[ptr].page == page && owned[ptr].index == index
                && page in cache.states && cache.states[page].alloc > 0 && index !in cache.states[page].chain
      ensures Slab.Inv(cache.View())
    {
      hide BuddyMemDesc.Valid, MemCache.HeadersOk, MemCache.NodesOk, MemCache.RingsOk, Slab.UserAddr, Slab.Inv,
           Buddy.Inv;
      var m := View();
      ListsKnown();
      if ptr in owned {
        assert MemoryTheorems.OwnedOk(m, ptr, owned[ptr]);
        match owned[ptr] {
          case Small(page, i, _) =>
            LaidOut(page);
            assert Found(cache.memory, cache.layout, page, i);
            SlabsOk(cache.View());
            Slab.LiveMeansAllocated(cache.states[page], i);
          case Large(p, _, _) => MemoryTheorems.AddrFacts(p, 0);
        }
      }
      if ptr in cache.memory && ptr % PAGE == 0 {
        cache.SizesKnown();
        LaidOut(cache.memory[ptr].0);
        MemoryTheorems.SmallAddr(m.cache, cache.memory[ptr].0, cache.memory[ptr].1);
        assert false;
      }
    }

    /** sfree, with the pointer taken out of the callers' book when it was a slab buffer. */
    method Sfree(ptr: nat) returns (ok: bool)
      requires Good() && (ptr == 0 || ptr in owned)
      modifies this`owned, cache, cache.nodes
      ensures Valid() && (ok <==> ptr in old(owned) && old(owned)[ptr].Small?) && cache.nodes == old(cache.nodes)
      ensures if ok then Memory.Kfree(old(View()), ptr) == Ran(View(), 0) else View() == old(View())
    {
      hide BuddyMemDesc.Valid, MemCache.HeadersOk, MemCache.NodesOk, MemCache.MemoryOk, MemCache.RingsOk,
           MemoryTheorems.Inv, Slab.Sfree,
           OnlyOn, Slab.Inv;
      ListsKnown();
      Classified(ptr);
      ghost var name := Free;
      if ptr in cache.memory {
        name := AlwaysOnOneList(cache.View(), cache.memory[ptr].0);
      }
      ok := cache.Sfree(ptr, name);
      ListsKnown();
      if ok {
        Book(owned - {ptr});
      }
    }

    /** kfree on NULL or on a held pointer: a slab buffer goes back to its slab, a page to its zone. */
    method Kfree(ptr: nat) returns (ok: bool)
      requires Good() && (ptr == 0 || ptr in owned)
      modifies this`total_kused_memory, this`total_used_memory, this`kmem_locked, this`owned
      modifies kernel, kernel.blocks, kernel.nodes, cache, cache.nodes
      ensures Good() && ok && Memory.Kfree(old(View()), ptr) == Ran(View(), 0) && cache.nodes == old(cache.nodes)
    {
      hide BuddyMemDesc.Valid, MemCache.Valid, MemCache.RingsOk, MemoryTheorems.Inv, Parts, Separate,
           Memory.KfreePage, Slab.Sfree, Buddy.Head;
      ListsKnown();
      KfreeShape(View(), ptr);
      var slab := Sfree(ptr);
      ok := true;
      if !slab {
        ok := KfreePage(ptr);
      }
    }

    static lemma KfreeShape(m: Mem, ptr: nat)
      requires MemoryTheorems.Inv(m) && (ptr == 0 || ptr in m.owned)
      ensures var r := Memory.Kfree(m, ptr); r.Ran? && r.ptr == 0 && MemoryTheorems.Inv(r.m)
      ensures !(ptr in m.owned && m.owned[ptr].Small?) ==>
                && Memory.Kfree(m, ptr) == Memory.KfreePage(m, ptr) && Buddy.Inv(m.kernel)
                && (ptr != 0 ==> ptr >= BASE && FrameAt(ptr) < m.kernel.tot && Buddy.Head(m.kernel, FrameAt(ptr)))
    {
      if ptr in m.owned {
        MemoryTheorems.KfreeKeeps(m, ptr);
        assert MemoryTheorems.OwnedOk(m, ptr, m.owned[ptr]);
        if m.owned[ptr].Large? {
          MemoryTheorems.AddrFacts(m.owned[ptr].pfn, 0);
          assert Buddy.Head(m.kernel, m.owned[ptr].pfn);
        }
      } else {
        KfreeNull(m);
      }
    }

    // -------------------------------------------------------------- the reaper

    /** What the reaper relies on at the slab at position `k` of the free list. */
    static lemma ReapShape(m: Mem, k: nat)
      requires MemoryTheorems.Inv(m) && k < |m.cache.free|
      ensures var page := m.cache.free[k];
              && page in m.cache.slabs && Slab.Inv(m.cache) && Distinct(m.cache.free) && m.cache.slabs[page].alloc == 0
              && page >= BASE && page != 0 && FrameAt(page) < m.kernel.tot && Buddy.Head(m.kernel, FrameAt(page))
                 && Buddy.Inv(m.kernel)
              && Memory.Reap(m, page).Ran? && Memory.Reap(m, page).ptr == 0
                 && MemoryTheorems.Inv(Memory.Reap(m, page).m)
              && Memory.Reap(m, page) == if m.cache.slabs[page].pinned then Ran(m, 0)
                                         else Memory.KfreePage(m.(cache := Slab.ReapOne(m.cache, page)), page)
    {
      var page := m.cache.free[k];
      assert page in m.cache.free;
      assert FrameAt(page) in m.kernel.live;
      MemoryTheorems.ReapKeeps(m, page);
    }

    /** The slab at position `k` of the free list leaves the cache and its page goes back to the zone. */
    method ReapAt(page: nat, ghost k: nat)
      requires Good() && k < |cache.lists[Free]| && cache.lists[Free][k] == page && !cache.states[page].pinned
      modifies this`total_kused_memory, this`total_used_memory, this`kmem_locked, this`owned
      modifies kernel, kernel.blocks, kernel.nodes, cache, cache.nodes
      ensures Good() && Memory.Reap(old(View()), page) == Ran(View(), 0) && cache.nodes == old(cache.nodes)
      ensures cache.lists == old(cache.lists)[Free := Without(old(cache.lists)[Free], k)]
      ensures cache.heads == old(cache.heads) - {page}
    {
      hide BuddyMemDesc.Valid, MemCache.Valid, MemCache.RingsOk, MemoryTheorems.Inv, Parts, Memory.KfreePage,
           Slab.ReapOne,
           Memory.Reap, Buddy.Head, OnlyOn, Slab.Inv;
      ListsKnown();
      ReapShape(View(), k);
      ForgetSlab(page, k);
      var ok := KfreePage(page);
    }

    method ForgetSlab(page: nat, ghost k: nat)
      requires Valid() && Slab.Inv(cache.View())
      requires k < |cache.lists[Free]| && cache.lists[Free][k] == page && page in cache.states
      requires cache.states[page].alloc == 0
      modifies cache, cache.nodes
      ensures Valid() && kernel.View() == old(kernel.View()) && fast.View() == old(fast.View()) && cache.RingsOk()
      ensures cache.View() == Slab.ReapOne(old(cache.View()), page) && cache.nodes == old(cache.nodes)
      ensures cache.lists == old(cache.lists)[Free := Without(old(cache.lists)[Free], k)]
      ensures cache.heads == old(cache.heads) - {page}
    {
      hide BuddyMemDesc.Valid, MemCache.HeadersOk, MemCache.NodesOk, MemCache.MemoryOk, MemCache.RingsOk, Slab.Inv,
           Slab.ReapOne;
      ListsKnown();
      OnFreeOnly(cache.View(), page);
      cache.Forget(page, k);
    }

    static lemma OnFreeOnly(c: Slab.Cache, page: nat)
      requires Slab.Inv(c) && page in c.slabs && c.slabs[page].alloc == 0
      ensures Distinct(c.free) && page !in c.used && page !in c.empty
    {
      Slab.TotAtLeastSix(c.slabs[page].size);
    }

    /** The slab leaves; the next one of the list is at its position now. */
    method ReapHere(page: nat, ghost k: nat)
      requires Good() && k < |cache.lists[Free]| && cache.lists[Free][k] == page && !cache.states[page].pinned
      requires forall p :: p in cache.lists[Free] ==> p in cache.heads
      modifies this`total_kused_memory, this`total_used_memory, this`kmem_locked, this`owned
      modifies kernel, kernel.blocks, kernel.nodes, cache, cache.nodes
      ensures Good() && Memory.Reap(old(View()), page) == Ran(View(), 0) && cache.nodes == old(cache.nodes)
      ensures Free in cache.lists && cache.lists[Free] == Without(old(cache.lists)[Free], k)
      ensures (forall p :: p in cache.lists[Free] ==> p in cache.heads) && cache.NodeAt(k) == old(cache.NodeAt(k + 1))
    {
      hide Valid, MemoryTheorems.Inv, MemCache.RingsOk, MemCache.NodesOk, Memory.Reap, Without;
      CacheKnown();
      BehindGone(cache.lists[Free], k);
      cache.FreeWalk(k);
      ReapAt(page, k);
      CacheKnown();
      cache.FreeWalk(k);
    }

    lemma CacheKnown()
      requires Valid()
      ensures cache.RingsOk() && cache.NodesOk() && forall name: Name :: name in cache.lists
    {
      cache.ListsKnown();
      hide BuddyMemDesc.Valid, MemCache.RingsOk, MemCache.NodesOk, MemCache.HeadersOk, MemCache.MemoryOk;
    }

    /** One turn of the loop at list position `k`; the walk goes on at position `next`. */
    method ReapTurn(s: ListNode, ghost k: nat) returns (tem: ListNode, ghost next: nat)
      requires Good() && k < |cache.lists[Free]|
      requires (forall p :: p in cache.lists[Free] ==> p in cache.heads) && s == cache.NodeAt(k)
      modifies this`total_kused_memory, this`total_used_memory, this`kmem_locked, this`owned
      modifies kernel, kernel.blocks, kernel.nodes, cache, cache.nodes
      ensures Good() && cache.nodes == old(cache.nodes)
      ensures Free in cache.lists && next <= |cache.lists[Free]|
      ensures |cache.lists[Free]| - next == |old(cache.lists)[Free]| - k - 1
      ensures (forall p :: p in cache.lists[Free] ==> p in cache.heads) && tem == cache.NodeAt(next)
      ensures Memory.ReapAll(old(View()), old(cache.lists)[Free][k..]) ==
                Memory.ReapAll(View(), cache.lists[Free][next..])
    {
      hide BuddyMemDesc.Valid, MemoryTheorems.Inv, Memory.Reap, MemCache.RingsOk, MemCache.NodesOk,
           MemCache.HeadersOk, MemCache.MemoryOk, Slab.Inv, Buddy.Inv, Distinct, Buddy.Head, Memory.KfreePage, Without;
      ListsKnown();
      cache.FreeWalk(k);
      tem := s.next;
      var do_me := s.id;
      ReapShape(View(), k);
      cache.SizesKnown();
      cache.PinKnown(do_me);
      Continue(View(), cache.lists[Free], k);
      ghost var xs := cache.lists[Free];
      hide Memory.ReapAll;
      if cache.headers[do_me].pinned {
        next := k + 1;
      } else {
        BehindGone(xs, k);
        ReapHere(do_me, k);
        next := k;
      }
    }

    static lemma BehindGone(xs: seq<nat>, k: nat)
      requires k < |xs|
      ensures |Without(xs, k)| == |xs| - 1 && Without(xs, k)[k..] == xs[k + 1..]
      ensures k + 1 < |xs| ==> Without(xs, k)[k] == xs[k + 1]
    {
    }

    static lemma Continue(m: Mem, xs: seq<nat>, k: nat)
      requires k < |xs| && Memory.Reap(m, xs[k]).Ran?
      ensures Memory.ReapAll(m, xs[k..]) == Memory.ReapAll(Memory.Reap(m, xs[k]).m, xs[k + 1..])
    {
      assert xs[k..][0] == xs[k] && xs[k..][1..] == xs[k + 1..];
    }

    /** One round of kswap over the free list. */
    method ReapFree()
      requires Good()
      modifies this`total_kused_memory, this`total_used_memory, this`kmem_locked, this`owned
      modifies kernel, kernel.blocks, kernel.nodes, cache, cache.nodes
      ensures Good() && Memory.ReapAll(old(View()), old(View()).cache.free) == Ran(View(), 0)
    {
      hide BuddyMemDesc.Valid, MemoryTheorems.Inv, Memory.Reap, MemCache.RingsOk, MemCache.NodesOk,
           MemCache.HeadersOk, MemCache.MemoryOk,
           Separate;
      ListsKnown();
      ghost var k: nat := 0;
      cache.FreeWalk(0);
      var s := cache.free.next;
      while s != cache.free
        invariant Good() && cache.nodes == old(cache.nodes)
        invariant Free in cache.lists && k <= |cache.lists[Free]|
        invariant (forall p :: p in cache.lists[Free] ==> p in cache.heads) && s == cache.NodeAt(k)
        invariant Memory.ReapAll(old(View()), old(View()).cache.free) == Memory.ReapAll(View(), cache.lists[Free][k..])
        decreases |cache.lists[Free]| - k
      {
        cache.FreeWalk(k);
        s, k := ReapTurn(s, k);
      }
      cache.FreeWalk(k);
      assert cache.lists[Free][k..] == [];
    }

    // -------------------------------------------------------------- the fast zone

    /** A request to the fast zone leaves the kernel zone and the slab cache alone. */
    method GetFastBlock(order: nat) returns (p: BuddyBlock?)
      requires Separate() && Parts() && Buddy.Inv(fast.View())
      modifies fast, fast.blocks, fast.nodes
      ensures Parts() && kernel.View() == old(kernel.View()) && cache.View() == old(cache.View())
      ensures p == null ==> Buddy.Get(old(fast.View()), order) == Buddy.Panic && fast.View() == old(fast.View())
      ensures p != null ==>
                && p in fast.all_buddies && p.pfn < fast.tot_pages
                && Buddy.Get(old(fast.View()), order) == Buddy.Got(fast.View(), p.pfn)
                && Buddy.OrderOf(fast.View(), p.pfn) == p.order
    {
      hide BuddyMemDesc.Valid, MemCache.Valid, MemCache.RingsOk, Buddy.Inv, Buddy.Get, Buddy.OrderOf;
      ListsKnown();
      p := fast.GetBuddy(order);
      if p != null {
        fast.RecordKnown(p);
      }
    }

    method FreeFastBlock(p: BuddyBlock) returns (ok: bool)
      requires Separate() && Parts() && Buddy.Inv(fast.View())
      requires p in fast.all_buddies && (p.pfn in fast.live || p.free)
      modifies fast, fast.blocks, fast.nodes
      ensures Parts() && kernel.View() == old(kernel.View()) && cache.View() == old(cache.View())
      ensures match Buddy.Release(old(fast.View()), p.pfn)
              case FreePanic => !ok && fast.View() == old(fast.View())
              case Freed(t) => ok && fast.View() == t
    {
      hide BuddyMemDesc.Valid, MemCache.Valid, MemCache.RingsOk, Buddy.Inv, Buddy.Release;
      ListsKnown();
      ok := fast.FreeBuddy(p);
    }

    method ChargeFast(bytes: int, ghost held: map<nat, Region>)
      requires Separate() && Parts() && cache.RingsOk()
      modifies this`total_fused_memory, this`total_used_memory, this`fastOwned
      ensures Separate() && Parts() && cache.RingsOk()
      ensures View() == old(View()).(fused := old(total_fused_memory) + bytes,
                                     used := old(total_used_memory) + bytes, fastOwned := held)
    {
      hide BuddyMemDesc.Valid, MemCache.Valid, MemCache.RingsOk;
      total_fused_memory := total_fused_memory + bytes;
      total_used_memory := total_used_memory + bytes;
      fastOwned := held;
    }

    /** fmalloc. */
    method Fmalloc(size: nat) returns (ok: bool, outP: nat)
      requires Good()
      modifies this`total_fused_memory, this`total_used_memory, this`fastOwned, fast, fast.blocks, fast.nodes
      ensures Good()
      ensures match Memory.Fmalloc(old(View()), size)
              case Stopped => !ok && View() == old(View())
              case Ran(m, p) => ok && View() == m && outP == p
    {
      hide BuddyMemDesc.Valid, MemCache.Valid, Buddy.Inv, Buddy.Get, Buddy.OrderOf, MemCache.RingsOk, Parts,
           MemoryTheorems.Inv, OrderFor;
      ListsKnown();
      FmallocShape(View(), size);
      var order := CalcPageOrder(size);
      var p := GetFastBlock(order);
      ListsKnown();
      ok, outP := p != null, 0;
      if p != null {
        outP := BASE + fast.FrameOf(p) * PAGE;
        ChargeFast(Pages(p.order) * PAGE, fastOwned[outP := Large(p.pfn, order, size)]);
      }
    }

    static lemma FmallocShape(m: Mem, size: nat)
      requires MemoryTheorems.Inv(m)
      ensures Buddy.Inv(m.fast) && (Memory.Fmalloc(m, size).Ran? ==> MemoryTheorems.Inv(Memory.Fmalloc(m, size).m))
    {
      if Memory.Fmalloc(m, size).Ran? {
        MemoryTheorems.FmallocKeeps(m, size);
      }
    }

    /** ffree on NULL or on a held pointer of the fast zone. */
    method Ffree(p: nat) returns (ok: bool)
      requires Good() && (p == 0 || p in fastOwned)
      modifies this`total_fused_memory, this`total_used_memory, this`fastOwned, fast, fast.blocks, fast.nodes
      ensures Good() && ok && Memory.Ffree(old(View()), p) == Ran(View(), 0)
    {
      hide BuddyMemDesc.Valid, MemCache.Valid, Buddy.Inv, Buddy.Release, Buddy.OrderOf, Buddy.IsFree,
           MemCache.RingsOk, Parts, MemoryTheorems.Inv;
      ListsKnown();
      FfreeShape(View(), p);
      if p == 0 {
        return true;
      }
      ok := FfreeBlock(p);
    }

    method FfreeBlock(p: nat) returns (ok: bool)
      requires Separate() && Parts() && Buddy.Inv(fast.View()) && cache.RingsOk()
      requires p >= BASE && fast.pfn_offset <= FrameAt(p) < fast.pfn_offset + fast.tot_pages
      requires Buddy.Head(fast.View(), FrameAt(p) - fast.pfn_offset)
      modifies this`total_fused_memory, this`total_used_memory, this`fastOwned, fast, fast.blocks, fast.nodes
      ensures Separate() && Parts() && cache.RingsOk()
      ensures match Memory.Ffree(old(View()), p)
              case Stopped => !ok && View() == old(View())
              case Ran(m, _) => ok && View() == m
    {
      hide BuddyMemDesc.Valid, MemCache.Valid, Buddy.Inv, Buddy.Release, Buddy.OrderOf, Buddy.IsFree, MemCache.RingsOk;
      var free_me := fast.BuddyFromFrame((p - BASE) / PAGE);
      fast.RecordKnown(free_me);
      var freed := Pages(free_me.order) * PAGE;
      hide Parts;
      ok := FreeFastBlock(free_me);
      ListsKnown();
      if ok {
        ChargeFast(-freed, fastOwned - {p});
      }
    }

    static lemma FfreeShape(m: Mem, p: nat)
      requires MemoryTheorems.Inv(m) && (p == 0 || p in m.fastOwned)
      ensures var r := Memory.Ffree(m, p); r.Ran? && r.ptr == 0 && MemoryTheorems.Inv(r.m)
      ensures p == 0 ==> Memory.Ffree(m, p) == Ran(m, 0)
      ensures Buddy.Inv(m.fast)
      ensures p != 0 ==>
                && p >= BASE && m.fastOffset <= FrameAt(p) < m.fastOffset + m.fast.tot
                && Buddy.Head(m.fast, FrameAt(p) - m.fastOffset)
    {
      FfreeNothing(m, p);
      hide Memory.Ffree, Slab.Inv, MemoryTheorems.SlabPages, MemoryTheorems.OwnedBut, MemoryTheorems.Accounted;
      if p in m.fastOwned {
        MemoryTheorems.FfreeKeeps(m, p);
        assert MemoryTheorems.FastOk(m.fast.live, m.fastOffset, p, m.fastOwned[p]);
        MemoryTheorems.AddrFacts(m.fastOffset + m.fastOwned[p].pfn, 0);
        assert Buddy.Head(m.fast, m.fastOwned[p].pfn);
      }
    }

    static lemma FfreeNothing(m: Mem, p: nat)
      ensures Memory.Ffree(m, p).Ran? ==> Memory.Ffree(m, p).ptr == 0
      ensures Memory.Ffree(m, 0) == Ran(m, 0)
    {
      hide Buddy.Release, Buddy.OrderOf;
    }
  }
}
