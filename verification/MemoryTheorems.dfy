/** What every history of the kernel memory allocator satisfies. */
module MemoryTheorems {
  import opened Blocks
  import Buddy
  import BuddyTheorems
  import opened Machine
  import Seqs
  import Slab
  import opened Memory

  // ---------------------------------------------------------------- byte counts

  /** Bytes in the live blocks that start below page `n`. */
  function LiveBytes(live: map<nat, nat>, n: nat): nat {
    if n == 0 then 0 else LiveBytes(live, n - 1) + if n - 1 in live then Bytes(live[n - 1]) else 0
  }

  lemma {:induction false} LiveBytesAdd(live: map<nat, nat>, p: nat, o: nat, n: nat)
    requires p !in live
    ensures LiveBytes(live[p := o], n) == LiveBytes(live, n) + if p < n then Bytes(o) else 0
  {
    if n > 0 {
      LiveBytesAdd(live, p, o, n - 1);
    }
  }

  lemma {:induction false} LiveBytesRemove(live: map<nat, nat>, p: nat, n: nat)
    requires p in live
    ensures LiveBytes(live - {p}, n) == LiveBytes(live, n) - if p < n then Bytes(live[p]) else 0
  {
    if n > 0 {
      LiveBytesRemove(live, p, n - 1);
    }
  }

  /** The live blocks below `n` fit below any bound that no such block crosses. */
  lemma {:induction false} LiveBytesBound(s: Buddy.State, n: nat, end: nat)
    requires Buddy.Apart(s) && Buddy.LiveExact(s) && n <= end
    requires forall p: nat :: p < n && p in s.live ==> p + Pages(s.live[p]) <= end
    ensures LiveBytes(s.live, n) <= end * PAGE
  {
    if n > 0 {
      if n - 1 in s.live {
        forall p: nat | p < n - 1 && p in s.live ensures p + Pages(s.live[p]) <= n - 1 {
          assert Buddy.Head(s, p) && Buddy.Head(s, n - 1);
        }
        LiveBytesBound(s, n - 1, n - 1);
      } else {
        LiveBytesBound(s, n - 1, end);
      }
    }
  }

  // ---------------------------------------------------------------- invariant

  ghost predicate Parts(m: Mem) {
    Buddy.Inv(m.kernel) && Buddy.Inv(m.fast) && Slab.Inv(m.cache)
  }

  /** Every slab sits in its own live kernel page. */
  ghost predicate SlabPages(m: Mem) {
    forall page :: page in m.cache.slabs ==>
      && page >= BASE && Addr(FrameAt(page)) == page
      && FrameAt(page) in m.kernel.live && m.kernel.live[FrameAt(page)] == 0
  }

  ghost predicate OwnedOk(m: Mem, ptr: nat, r: Region) {
    match r
    case Small(page, i, asked) =>
      && Slab.LiveBuf(m.cache, page, i)
      && ptr == Slab.UserAddr(page, m.cache.slabs[page].size, i) && asked <= m.cache.slabs[page].size
    case Large(p, o, asked) =>
      p in m.kernel.live && m.kernel.live[p] == o && ptr == Addr(p) && ptr !in m.cache.slabs && asked <= Bytes(o)
  }

  /** Held pointers are live memory, and all live memory but the pages of `hole` is held or is a slab. */
  ghost predicate OwnedBut(m: Mem, hole: set<nat>) {
    && (forall ptr :: ptr in m.owned ==> OwnedOk(m, ptr, m.owned[ptr]))
    && (forall p :: p in m.kernel.live && p !in hole ==> PageHeld(m, p))
    && (forall page, i :: Slab.LiveBuf(m.cache, page, i) ==> HeldBuf(m, page, i))
  }

  ghost predicate PageHeld(m: Mem, p: nat) {
    Addr(p) in m.cache.slabs || (Addr(p) in m.owned && m.owned[Addr(p)].Large?)
  }

  ghost predicate Owned(m: Mem) {
    OwnedBut(m, {})
  }

  ghost predicate HeldBuf(m: Mem, page: nat, i: nat)
    requires page in m.cache.slabs
  {
    var ptr := Slab.UserAddr(page, m.cache.slabs[page].size, i);
    ptr in m.owned && m.owned[ptr].Small? && m.owned[ptr].page == page && m.owned[ptr].index == i
  }

  ghost predicate FastOk(live: map<nat, nat>, offset: nat, ptr: nat, r: Region) {
    r.Large? && r.pfn in live && live[r.pfn] == r.order && ptr == Addr(offset + r.pfn) && r.asked <= Bytes(r.order)
  }

  ghost predicate FastBook(live: map<nat, nat>, offset: nat, owned: map<nat, Region>) {
    && (forall ptr :: ptr in owned ==> FastOk(live, offset, ptr, owned[ptr]))
    && (forall p :: p in live ==> Addr(offset + p) in owned)
  }

  ghost predicate FastOwned(m: Mem) {
    FastBook(m.fast.live, m.fastOffset, m.fastOwned)
  }

  /** The counters are the bytes of the live blocks of their zone. */
  ghost predicate Accounted(m: Mem) {
    && m.kused == LiveBytes(m.kernel.live, m.kernel.tot)
    && m.fused == LiveBytes(m.fast.live, m.fast.tot)
    && m.used == m.kused + m.fused
  }

  ghost predicate Inv(m: Mem) {
    Parts(m) && SlabPages(m) && Owned(m) && FastOwned(m) && Accounted(m)
  }

  // ---------------------------------------------------------------- addresses

  lemma AddrFacts(p: nat, q: nat)
    ensures Addr(p) % PAGE == 0 && FrameAt(Addr(p)) == p && Addr(p) > 0
    ensures Addr(p) == Addr(q) ==> p == q
  {
  }

  /** A slab buffer never starts on a page boundary; it lies inside its slab's page. */
  lemma SmallAddr(c: Slab.Cache, page: nat, i: nat)
    requires Slab.Inv(c) && page in c.slabs && i <= c.slabs[page].tot
    ensures var a := Slab.UserAddr(page, c.slabs[page].size, i);
            a % PAGE != 0 && a / PAGE * PAGE == page && page < a && a + c.slabs[page].size <= page + PAGE
  {
    Slab.BufferInPage(c.slabs[page], page, i);
    InsidePage(page, Slab.UserAddr(page, c.slabs[page].size, i));
  }

  lemma InsidePage(page: nat, a: nat)
    requires page % PAGE == 0 && page < a < page + PAGE
    ensures a % PAGE != 0 && a / PAGE * PAGE == page
  {
  }

  /** Two different buffers do not overlap. */
  lemma BuffersDisjoint(c: Slab.Cache, page: nat, i: nat, page': nat, i': nat)
    requires Slab.Inv(c) && page in c.slabs && i <= c.slabs[page].tot
    requires page' in c.slabs && i' <= c.slabs[page'].tot && (page != page' || i != i')
    ensures var a, b := Slab.UserAddr(page, c.slabs[page].size, i), Slab.UserAddr(page', c.slabs[page'].size, i');
            a != b && (a + c.slabs[page].size <= b || b + c.slabs[page'].size <= a)
  {
    SmallAddr(c, page, i);
    SmallAddr(c, page', i');
    if page == page' {
      if i < i' {
        Slab.BuffersApart(c.slabs[page], page, i, i');
      } else {
        Slab.BuffersApart(c.slabs[page], page, i', i);
      }
    } else {
      assert page % PAGE == 0 && page' % PAGE == 0;
    }
  }

  // ---------------------------------------------------------------- page operations

  lemma GotBlock(s: Buddy.State, order: nat)
    requires Buddy.Inv(s) && Buddy.Get(s, order).Got?
    ensures var r := Buddy.Get(s, order);
            && Buddy.Inv(r.s) && r.s.tot == s.tot && r.pfn < s.tot
            && r.pfn !in s.live && r.s.live == s.live[r.pfn := order]
            && Buddy.OrderOf(r.s, r.pfn) == order
            && LiveBytes(r.s.live, s.tot) == LiveBytes(s.live, s.tot) + Bytes(order)
  {
    var r := Buddy.Get(s, order);
    Buddy.GetKeeps(s, order);
    Buddy.GetEffect(s, order);
    Buddy.LiveOrder(r.s, r.pfn);
    LiveBytesAdd(s.live, r.pfn, order, s.tot);
  }

  lemma ReleasedBlock(s: Buddy.State, p: nat)
    requires Buddy.Inv(s) && p in s.live
    ensures var r := Buddy.Release(s, p);
            && r.Freed? && Buddy.Inv(r.s) && r.s.tot == s.tot && r.s.live == s.live - {p}
            && Buddy.OrderOf(s, p) == s.live[p]
            && LiveBytes(r.s.live, s.tot) == LiveBytes(s.live, s.tot) - Bytes(s.live[p])
  {
    BuddyTheorems.ReleaseNeverPanics(s, p);
    Buddy.LiveOrder(s, p);
    Buddy.FreeKeeps(s, p, s.live[p]);
    LiveBytesRemove(s.live, p, s.tot);
  }

  /** The address of a page that is not live is neither a slab nor a held pointer. */
  lemma NewPage(m: Mem, p: nat)
    requires Slab.Inv(m.cache) && SlabPages(m) && Owned(m) && p !in m.kernel.live
    ensures Addr(p) !in m.cache.slabs && Addr(p) !in m.owned
  {
    hide Slab.Inv;
    AddrFacts(p, p);
    if Addr(p) in m.owned {
      assert OwnedOk(m, Addr(p), m.owned[Addr(p)]);
      match m.owned[Addr(p)] {
        case Small(page, i, _) => SmallAddr(m.cache, page, i);
        case Large(q, _, _) => AddrFacts(p, q);
      }
    }
  }

  lemma OwnedWithPage(m: Mem, t: Mem, p: nat, order: nat, asked: nat)
    requires Slab.Inv(m.cache) && SlabPages(m) && Owned(m) && p !in m.kernel.live && asked <= Bytes(order)
    requires t.cache == m.cache && t.kernel.live == m.kernel.live[p := order]
    requires t.owned == m.owned[Addr(p) := Large(p, order, asked)]
    ensures Owned(t) && SlabPages(t)
  {
    hide Slab.Inv;
    AddrFacts(p, p);
    NewPage(m, p);
    forall q | q in t.kernel.live ensures PageHeld(t, q) {
      assert q != p ==> PageHeld(m, q);
    }
    forall ptr | ptr in t.owned ensures OwnedOk(t, ptr, t.owned[ptr]) {
      if ptr != Addr(p) {
        assert OwnedOk(m, ptr, m.owned[ptr]);
      }
    }
    forall page, i | Slab.LiveBuf(t.cache, page, i) ensures HeldBuf(t, page, i) {
      assert HeldBuf(m, page, i);
    }
  }

  /** kalloc_page hands out a new block of the kernel zone and accounts for it. */
  lemma KallocKeeps(m: Mem, order: nat, asked: nat)
    requires Inv(m) && KallocPage(m, order, asked).Ran? && asked <= Bytes(order)
    ensures var r := KallocPage(m, order, asked);
            var p := FrameAt(r.ptr);
            && Inv(r.m) && r.ptr == Addr(p) && p !in m.kernel.live
            && r.ptr !in m.owned && r.ptr !in m.cache.slabs
            && r.m == m.(kernel := r.m.kernel, kused := r.m.kused, used := r.m.used,
                         owned := m.owned[r.ptr := Large(p, order, asked)])
            && r.m.kernel.live == m.kernel.live[p := order]
  {
    hide Buddy.Inv, Slab.Inv, Owned, SlabPages;
    var g := Buddy.Get(m.kernel, order);
    GotBlock(m.kernel, order);
    AddrFacts(g.pfn, g.pfn);
    NewPage(m, g.pfn);
    OwnedWithPage(m, KallocPage(m, order, asked).m, g.pfn, order, asked);
  }

  /** A caller gives up a page: it is live, but no longer held. */
  lemma Disown(m: Mem, ptr: nat)
    requires Slab.Inv(m.cache) && SlabPages(m) && Owned(m) && ptr in m.owned && m.owned[ptr].Large?
    ensures var t := m.(owned := m.owned - {ptr});
            OwnedBut(t, {m.owned[ptr].pfn}) && SlabPages(t)
  {
    hide Slab.Inv;
    var t := m.(owned := m.owned - {ptr});
    var p := m.owned[ptr].pfn;
    assert OwnedOk(m, ptr, m.owned[ptr]);
    forall q | q in t.kernel.live && q != p ensures PageHeld(t, q) {
      assert PageHeld(m, q);
      AddrFacts(p, q);
    }
    forall a | a in t.owned ensures OwnedOk(t, a, t.owned[a]) {
      assert OwnedOk(m, a, m.owned[a]);
    }
    forall page, i | Slab.LiveBuf(t.cache, page, i) ensures HeldBuf(t, page, i) {
      assert HeldBuf(m, page, i);
    }
  }

  /** A live page that nobody holds can leave the live set. */
  lemma PageReturned(m: Mem, t: Mem, p: nat)
    requires OwnedBut(m, {p}) && SlabPages(m) && Addr(p) !in m.owned && Addr(p) !in m.cache.slabs
    requires t.cache == m.cache && t.owned == m.owned && t.kernel.live == m.kernel.live - {p}
    ensures Owned(t) && SlabPages(t)
  {
    forall q | q in t.kernel.live ensures PageHeld(t, q) {
      assert PageHeld(m, q);
    }
    forall a | a in t.owned ensures OwnedOk(t, a, t.owned[a]) {
      assert OwnedOk(m, a, m.owned[a]);
    }
    forall page, i | Slab.LiveBuf(t.cache, page, i) ensures HeldBuf(t, page, i) {
      assert HeldBuf(m, page, i);
    }
    forall page | page in t.cache.slabs ensures FrameAt(page) in t.kernel.live {
      assert Addr(FrameAt(page)) == page;
    }
  }

  /** kfree_page on a live page nobody holds any more: no panic, and everything adds up. */
  lemma KfreePageCore(m: Mem, p: nat)
    requires Parts(m) && OwnedBut(m, {p}) && SlabPages(m) && FastOwned(m) && Accounted(m)
    requires p in m.kernel.live && Addr(p) !in m.owned && Addr(p) !in m.cache.slabs
    ensures var r := KfreePage(m, Addr(p));
            && r.Ran? && Inv(r.m) && r.m.owned == m.owned && r.m.cache == m.cache
               && r.m.kernel.live == m.kernel.live - {p}
            && r.m.fast == m.fast && r.m.fastOwned == m.fastOwned && r.m.fastOffset == m.fastOffset
  {
    hide Buddy.Inv, Slab.Inv, OwnedBut, SlabPages;
    AddrFacts(p, p);
    ReleasedBlock(m.kernel, p);
    var r := KfreePage(m, Addr(p));
    assert m.owned - {Addr(p)} == m.owned;
    PageReturned(m, r.m, p);
  }

  /** kfree_page on a held page gives back exactly that block. */
  lemma KfreePageKeeps(m: Mem, ptr: nat)
    requires Inv(m) && ptr in m.owned && m.owned[ptr].Large?
    ensures var r := KfreePage(m, ptr);
            && r.Ran? && Inv(r.m) && r.m.owned == m.owned - {ptr} && r.m.cache == m.cache
            && r.m.fastOwned == m.fastOwned
  {
    hide Buddy.Inv, Slab.Inv, SlabPages;
    var p := m.owned[ptr].pfn;
    assert OwnedOk(m, ptr, m.owned[ptr]);
    AddrFacts(p, p);
    Disown(m, ptr);
    var t := m.(owned := m.owned - {ptr});
    KfreePageCore(t, p);
    assert t.owned - {ptr} == t.owned;
  }

  /** The fast zone's book depends on the fast zone only. */
  lemma FastSame(m: Mem, t: Mem)
    requires FastOwned(m) && t.fast == m.fast && t.fastOwned == m.fastOwned && t.fastOffset == m.fastOffset
    ensures FastOwned(t)
  {
  }

  // ---------------------------------------------------------------- slab operations

  lemma SlabAdded(m: Mem, t: Mem, page: nat, size: nat)
    requires Slab.Inv(m.cache) && OwnedBut(m, {FrameAt(page)}) && SlabPages(m)
    requires page >= BASE && Addr(FrameAt(page)) == page && page !in m.cache.slabs && page !in m.owned
    requires FrameAt(page) in m.kernel.live && m.kernel.live[FrameAt(page)] == 0
    requires t.kernel == m.kernel && t.owned == m.owned
    requires t.cache.slabs.Keys == m.cache.slabs.Keys + {page}
    requires forall p :: p in m.cache.slabs ==> t.cache.slabs[p] == m.cache.slabs[p]
    requires forall p, k :: Slab.LiveBuf(t.cache, p, k) <==> Slab.LiveBuf(m.cache, p, k)
    ensures Owned(t) && SlabPages(t)
  {
    hide Slab.Inv;
    forall q | q in t.kernel.live ensures PageHeld(t, q) {
      if q != FrameAt(page) {
        assert PageHeld(m, q);
      }
    }
    forall a | a in t.owned ensures OwnedOk(t, a, t.owned[a]) {
      assert OwnedOk(m, a, m.owned[a]);
    }
    forall p, i | Slab.LiveBuf(t.cache, p, i) ensures HeldBuf(t, p, i) {
      assert Slab.LiveBuf(m.cache, p, i) && HeldBuf(m, p, i);
    }
  }

  /** A live page that nobody holds becomes a slab with room. */
  lemma AdoptPage(m: Mem, page: nat, size: nat, pinned: bool)
    requires Parts(m) && OwnedBut(m, {FrameAt(page)}) && SlabPages(m) && FastOwned(m) && Accounted(m)
    requires page >= BASE && Addr(FrameAt(page)) == page && page !in m.cache.slabs && page !in m.owned
    requires FrameAt(page) in m.kernel.live && m.kernel.live[FrameAt(page)] == 0
    requires Slab.MIN_SLAB_SIZE <= size <= Slab.MAX_SLAB_SIZE && Slab.TotFor(size) >= 0
    ensures var c := Slab.CreateSlab(m.cache, page, size);
            var d := if pinned then Slab.SetPinned(c, page) else c;
            Inv(m.(cache := d)) && Slab.HasRoom(d, size) && NewSlab(m.cache, d, page, size, pinned)
  {
    hide Buddy.Inv, Slab.Inv, OwnedBut, SlabPages, FastOwned, LiveBytes;
    AddrFacts(FrameAt(page), 0);
    Slab.CreateKeeps(m.cache, page, size);
    var c := Slab.CreateSlab(m.cache, page, size);
    PinKeeps(c, page);
    var d := if pinned then Slab.SetPinned(c, page) else c;
    assert forall q :: q in m.cache.slabs ==> d.slabs[q] == m.cache.slabs[q];
    SlabAdded(m, m.(cache := d), page, size);
    FastSame(m, m.(cache := d));
    RoomPinned(c, page, size);
  }

  /** One new slab, as it was asked for, at the tail of the free list; all others are as they were. */
  ghost predicate NewSlab(c: Slab.Cache, d: Slab.Cache, page: nat, size: nat, pinned: bool) {
    && page !in c.slabs && page in d.slabs && d.slabs == c.slabs[page := d.slabs[page]]
    && d.slabs[page].size == size && d.slabs[page].pinned == pinned && d.slabs[page].alloc == 0
    && d.free == c.free + [page] && d.used == c.used && d.empty == c.empty
  }

  /** createSlab turns one new page into a slab with room, pinned as asked; nothing held changes. */
  lemma CreateSlabKeeps(m: Mem, size: nat, pinned: bool)
    requires Inv(m) && CreateSlab(m, size, pinned).Ran?
    ensures var r := CreateSlab(m, size, pinned);
            && Inv(r.m) && r.m.owned == m.owned && Slab.HasRoom(r.m.cache, size) && r.m.fastOwned == m.fastOwned
            && NewSlab(m.cache, r.m.cache, r.ptr, size, pinned)
  {
    hide Buddy.Inv, Slab.Inv, OwnedBut, SlabPages, Slab.HasRoom, LiveBytes, FastOwned;
    PageIsOne();
    KallocKeeps(m, 0, PAGE);
    var k := KallocPage(m, 0, PAGE);
    Disown(k.m, k.ptr);
    FastSame(k.m, k.m.(owned := k.m.owned - {k.ptr}));
    assert k.m.owned - {k.ptr} == m.owned;
    Slab.TotAtLeastSix(size);
    AdoptPage(k.m.(owned := k.m.owned - {k.ptr}), k.ptr, size, pinned);
  }

  lemma PageIsOne()
    ensures Bytes(0) == PAGE
  {
  }

  lemma PinKeeps(c: Slab.Cache, page: nat)
    requires Slab.Inv(c) && page in c.slabs
    ensures var d := Slab.SetPinned(c, page);
            && Slab.Inv(d) && d.slabs.Keys == c.slabs.Keys && d == c.(slabs := d.slabs)
            && d.slabs[page] == c.slabs[page].(pinned := true)
            && (forall q :: q in c.slabs && q != page ==> d.slabs[q] == c.slabs[q])
            && forall p, k :: Slab.LiveBuf(d, p, k) <==> Slab.LiveBuf(c, p, k)
  {
  }

  lemma RoomPinned(c: Slab.Cache, page: nat, size: nat)
    requires page in c.slabs && Slab.HasRoom(c, size)
    ensures Slab.HasRoom(Slab.SetPinned(c, page), size)
  {
    var p :| p in c.slabs && c.slabs[p].size == size && c.slabs[p].alloc < c.slabs[p].tot;
    var d := Slab.SetPinned(c, page);
    assert p in d.slabs && d.slabs[p].size == size && d.slabs[p].alloc < d.slabs[p].tot;
  }

  /** salloc, when it finds a buffer, hands out one that nobody held. */
  lemma SallocKeeps(m: Mem, size: nat, asked: nat)
    requires Inv(m) && asked <= size
    ensures var r := Salloc(m, size, asked);
            && r.Ran? && Inv(r.m) && r.m.kernel == m.kernel && r.m.fastOwned == m.fastOwned
            && (r.ptr == 0 <==> !Slab.HasRoom(m.cache, size))
            && (r.ptr == 0 ==> r.m == m)
            && (r.ptr != 0 ==>
                  && r.ptr !in m.owned && r.ptr in r.m.owned && r.m.owned == m.owned[r.ptr := r.m.owned[r.ptr]]
                               && r.m.owned[r.ptr].Small? && r.m.owned[r.ptr].asked == asked)
  {
    hide Buddy.Inv, Slab.Inv;
    Slab.SallocKeeps(m.cache, size);
    var s := Slab.Salloc(m.cache, size);
    if s.Buffer? {
      SmallAddr(m.cache, s.page, s.i);
      BufferTaken(m, s.c, s.page, s.i, asked);
    }
  }

  /** No held pointer is the address of a buffer that is not out. */
  lemma BufferNotHeld(m: Mem, page: nat, i: nat)
    requires Slab.Inv(m.cache) && Owned(m)
    requires page in m.cache.slabs && i <= m.cache.slabs[page].tot && !Slab.LiveBuf(m.cache, page, i)
    ensures Slab.UserAddr(page, m.cache.slabs[page].size, i) !in m.owned
  {
    hide Slab.Inv;
    SmallAddr(m.cache, page, i);
    forall a | a in m.owned ensures a != Slab.UserAddr(page, m.cache.slabs[page].size, i) {
      assert OwnedOk(m, a, m.owned[a]);
      match m.owned[a] {
        case Small(page', i', _) => BuffersDisjoint(m.cache, page, i, page', i');
        case Large(p, _, _) => AddrFacts(p, p);
      }
    }
  }

  lemma BufferTaken(m: Mem, c: Slab.Cache, page: nat, i: nat, asked: nat)
    requires Slab.Inv(m.cache) && SlabPages(m) && Owned(m)
    requires Slab.OnlyChanged(m.cache, c, page, i) && page in m.cache.slabs && asked <= m.cache.slabs[page].size
    requires !Slab.LiveBuf(m.cache, page, i) && Slab.LiveBuf(c, page, i) && i <= m.cache.slabs[page].tot
    ensures var ptr := Slab.UserAddr(page, m.cache.slabs[page].size, i);
            var t := m.(cache := c, owned := m.owned[ptr := Small(page, i, asked)]);
            ptr !in m.owned && Owned(t) && SlabPages(t)
  {
    hide Slab.Inv;
    var ptr := Slab.UserAddr(page, m.cache.slabs[page].size, i);
    var t := m.(cache := c, owned := m.owned[ptr := Small(page, i, asked)]);
    SmallAddr(m.cache, page, i);
    BufferNotHeld(m, page, i);
    forall q | q in t.kernel.live ensures PageHeld(t, q) {
      assert PageHeld(m, q);
      AddrFacts(q, q);
    }
    forall a | a in t.owned ensures OwnedOk(t, a, t.owned[a]) {
      if a != ptr {
        assert OwnedOk(m, a, m.owned[a]);
      }
    }
    forall page', i' | Slab.LiveBuf(c, page', i') ensures HeldBuf(t, page', i') {
      if page' != page || i' != i {
        assert Slab.LiveBuf(m.cache, page', i') && HeldBuf(m, page', i');
      }
    }
  }

  /** kmalloc's result: a new pointer to at least the bytes asked for, and nothing else held changes. */
  ghost predicate Granted(m: Mem, r: Outcome, asked: nat) {
    && r.Ran? && Inv(r.m) && r.ptr != 0 && r.ptr !in m.owned && r.ptr in r.m.owned
    && r.m.owned == m.owned[r.ptr := r.m.owned[r.ptr]] && r.m.owned[r.ptr].asked == asked
    && r.m.fastOwned == m.fastOwned
  }

  /** kmalloc never returns NULL: it panics or grants. It panics exactly when no slab has
      room (for at most 512 bytes) and the kernel zone has no free run of the pages needed. */
  lemma KmallocKeeps(m: Mem, asked: nat)
    requires Inv(m)
    ensures Kmalloc(m, asked).Ran? ==> Granted(m, Kmalloc(m, asked), asked)
    ensures Kmalloc(m, asked).Ran? <==>
            if asked <= Slab.MAX_SLAB_SIZE
            then Slab.HasRoom(m.cache, if asked < Slab.MIN_SLAB_SIZE then Slab.MIN_SLAB_SIZE else asked) || HasRun(m, 0)
            else HasRun(m, OrderFor(asked))
  {
    hide Parts, SlabPages, Owned, FastOwned, Accounted;
    if asked <= Slab.MAX_SLAB_SIZE {
      var size := if asked < Slab.MIN_SLAB_SIZE then Slab.MIN_SLAB_SIZE else asked;
      SallocKeeps(m, size, asked);
      if !Slab.HasRoom(m.cache, size) {
        PageAvailable(m, 0, PAGE);
        if CreateSlab(m, size, false).Ran? {
          CreateSlabKeeps(m, size, false);
          SallocKeeps(CreateSlab(m, size, false).m, size, asked);
        }
      }
    } else {
      OrderFits(asked);
      PageAvailable(m, OrderFor(asked), asked);
      if KallocPage(m, OrderFor(asked), asked).Ran? {
        KallocKeeps(m, OrderFor(asked), asked);
      }
    }
  }

  /** What kmalloc hands out: up to 512 bytes a buffer of a slab for exactly this size, from 4 bytes
      on, and no page while such a slab has room; above that a block of pages no larger than needed. */
  lemma KmallocEffect(m: Mem, asked: nat)
    requires Inv(m) && Kmalloc(m, asked).Ran?
    ensures var r := Kmalloc(m, asked);
            && r.ptr in r.m.owned
            && match r.m.owned[r.ptr]
               case Small(page, _, _) =>
                 && asked <= 512 && page in r.m.cache.slabs
                 && r.m.cache.slabs[page].size == (if asked < 4 then 4 else asked)
                 && (Slab.HasRoom(m.cache, if asked < 4 then 4 else asked) ==> r.m.kernel == m.kernel)
               case Large(_, order, _) => asked > 512 && (order > 0 ==> asked > Bytes(order - 1))
    ensures var c := Kmalloc(m, asked).m.cache;
            forall page :: page in c.slabs && page !in m.cache.slabs ==> !c.slabs[page].pinned
  {
    hide Parts, SlabPages, Owned, FastOwned, Accounted, Slab.HasRoom, CreateSlab, Salloc;
    CacheInv(m);
    if asked <= Slab.MAX_SLAB_SIZE {
      var size := if asked < Slab.MIN_SLAB_SIZE then Slab.MIN_SLAB_SIZE else asked;
      SallocKeeps(m, size, asked);
      SallocSize(m, size, asked);
      SallocStays(m, size, asked);
      if Salloc(m, size, asked).ptr == 0 {
        CreateSlabKeeps(m, size, false);
        var u := CreateSlab(m, size, false).m;
        SallocKeeps(u, size, asked);
        SallocSize(u, size, asked);
        CacheInv(u);
        SallocStays(u, size, asked);
      }
    } else {
      OrderFits(asked);
      KallocKeeps(m, OrderFor(asked), asked);
    }
  }

  lemma SallocSize(m: Mem, size: nat, asked: nat)
    requires Inv(m)
    ensures var r := Salloc(m, size, asked);
            r.Ran? && r.ptr != 0 && r.ptr in r.m.owned && r.m.owned[r.ptr].Small? ==>
              var page := r.m.owned[r.ptr].page; page in r.m.cache.slabs && r.m.cache.slabs[page].size == size
  {
    hide Buddy.Inv, Slab.Inv, Slab.Salloc;
    Slab.SallocKeeps(m.cache, size);
  }

  /** The kernel zone has an aligned run of 2^order free pages. */
  ghost predicate HasRun(m: Mem, order: nat) {
    order <= MAX_ORDER && exists p :: BuddyTheorems.FreeRun(m.kernel, p, order)
  }

  lemma PageAvailable(m: Mem, order: nat, asked: nat)
    requires Inv(m)
    ensures KallocPage(m, order, asked).Ran? <==> HasRun(m, order)
  {
    BuddyTheorems.Completeness(m.kernel, order);
  }

  /** kfree of a held pointer, small or large, gives back exactly that pointer. */
  lemma KfreeKeeps(m: Mem, ptr: nat)
    requires Inv(m) && ptr in m.owned
    ensures var r := Kfree(m, ptr);
            r.Ran? && Inv(r.m) && r.m.owned == m.owned - {ptr} && r.m.fastOwned == m.fastOwned
  {
    hide Buddy.Inv, Slab.Inv, SlabPages, FastOwned, LiveBytes, Slab.Sfree;
    if m.owned[ptr].Small? {
      assert OwnedOk(m, ptr, m.owned[ptr]);
      hide OwnedBut;
      Slab.SfreeKeeps(m.cache, m.owned[ptr].page, m.owned[ptr].index);
      BufferReturned(m, ptr);
      FastSame(m, Kfree(m, ptr).m);
    } else {
      KfreePageKeeps(m, ptr);
    }
  }

  lemma BufferReturned(m: Mem, ptr: nat)
    requires Slab.Inv(m.cache) && SlabPages(m) && Owned(m) && ptr in m.owned && m.owned[ptr].Small?
    requires var r := m.owned[ptr]; var c := Slab.Sfree(m.cache, r.page, r.index);
             Slab.OnlyChanged(m.cache, c, r.page, r.index) && !Slab.LiveBuf(c, r.page, r.index)
    ensures var t := m.(cache := Slab.Sfree(m.cache, m.owned[ptr].page, m.owned[ptr].index), owned := m.owned - {ptr});
            Owned(t) && SlabPages(t)
  {
    hide Slab.Inv, Slab.Sfree;
    var r := m.owned[ptr];
    var c := Slab.Sfree(m.cache, r.page, r.index);
    var t := m.(cache := c, owned := m.owned - {ptr});
    assert OwnedOk(m, ptr, r);
    forall q | q in t.kernel.live ensures PageHeld(t, q) {
      assert PageHeld(m, q);
    }
    forall a | a in t.owned ensures OwnedOk(t, a, t.owned[a]) {
      assert OwnedOk(m, a, m.owned[a]);
    }
    forall page, i | Slab.LiveBuf(c, page, i) ensures HeldBuf(t, page, i) {
      assert Slab.LiveBuf(m.cache, page, i) && HeldBuf(m, page, i);
    }
  }

  /** The reaper gives back only the page of an unpinned slab with nothing out. */
  lemma ReapKeeps(m: Mem, page: nat)
    requires Inv(m)
    ensures var r := Reap(m, page);
            && r.Ran? && Inv(r.m) && r.m.owned == m.owned && r.m.fastOwned == m.fastOwned
            && (r.m == m || (page in m.cache.slabs && !m.cache.slabs[page].pinned && m.cache.slabs[page].alloc == 0
                             && r.m.kernel.live == m.kernel.live - {FrameAt(page)}))
            && r.m.cache == if page in m.cache.free && !m.cache.slabs[page].pinned then Slab.ReapOne(m.cache, page)
               else m.cache
    ensures forall i :: Reap(m, page).m != m ==> !Slab.LiveBuf(m.cache, page, i)
  {
    hide Buddy.Inv, Slab.Inv, OwnedBut, LiveBytes, FastOwned, KfreePage, SlabPages, Slab.ReapOne, Buddy.OrderOf;
    if page in m.cache.free && page in m.cache.slabs && !m.cache.slabs[page].pinned {
      Slab.ReapKeeps(m.cache, page);
      FreeMeansNothingOut(m.cache, page);
      ReapOneSlabs(m.cache, page);
      var t := m.(cache := Slab.ReapOne(m.cache, page));
      SlabGone(m, t, page);
      FastSame(m, t);
      SlabNotHeld(m, page);
      SlabLive(m, page);
      KfreePageCore(t, FrameAt(page));
    } else {
      FreeKnown(m.cache, page);
    }
  }

  /** One round of the reaper over the free list: exactly its unpinned slabs are gone, the
      pinned ones stay in order, and the callers' pointers and the fast zone are untouched. */
  lemma {:induction false} ReapAllKeeps(m: Mem, kept: seq<nat>, rest: seq<nat>)
    requires Inv(m) && m.cache.free == kept + rest
    ensures var r := ReapAll(m, rest);
            && r.Ran? && Inv(r.m) && r.m.owned == m.owned && r.m.fastOwned == m.fastOwned
            && r.m.cache == Slab.Reaped(m.cache, kept, rest)
    decreases |rest|
  {
    hide Inv, Reap, Slab.Reaped, Slab.ReapOne;
    if rest == [] {
      NothingReaped(m.cache, kept);
    } else {
      var page := rest[0];
      ReapKeeps(m, page);
      FreeFacts(m, |kept|);
      var t := Reap(m, page).m;
      if m.cache.slabs[page].pinned {
        Slab.ReapedPinned(m.cache, kept, rest);
        assert (kept + [page]) + rest[1..] == kept + rest;
        ReapAllKeeps(t, kept + [page], rest[1..]);
      } else {
        Slab.ReapedUnpinned(m.cache, kept, rest);
        ReapAllKeeps(t, kept, rest[1..]);
      }
    }
  }

  lemma NothingReaped(c: Slab.Cache, kept: seq<nat>)
    requires c.free == kept
    ensures Slab.Reaped(c, kept, []) == c
  {
    assert c.slabs - {} == c.slabs;
    assert kept + [] == kept;
  }

  lemma FreeFacts(m: Mem, k: nat)
    requires Inv(m) && k < |m.cache.free|
    ensures m.cache.free[k] in m.cache.slabs && m.cache.free[k] in m.cache.free && Seqs.Distinct(m.cache.free)
  {
    assert m.cache.free[k] in m.cache.free;
  }

  lemma ReapOneSlabs(c: Slab.Cache, page: nat)
    ensures Slab.ReapOne(c, page).slabs == c.slabs - {page}
  {
  }

  lemma FreeKnown(c: Slab.Cache, page: nat)
    requires Slab.Inv(c)
    ensures page in c.free ==> page in c.slabs
  {
  }

  lemma SlabLive(m: Mem, page: nat)
    requires SlabPages(m) && page in m.cache.slabs
    ensures Addr(FrameAt(page)) == page && FrameAt(page) in m.kernel.live
  {
  }

  lemma FreeMeansNothingOut(c: Slab.Cache, page: nat)
    requires Slab.Inv(c) && page in c.free
    ensures page in c.slabs && c.slabs[page].alloc == 0
  {
  }

  lemma SlabNotHeld(m: Mem, page: nat)
    requires Slab.Inv(m.cache) && SlabPages(m) && Owned(m) && page in m.cache.slabs
    ensures page !in m.owned
  {
    hide Slab.Inv;
    AddrFacts(FrameAt(page), 0);
    if page in m.owned {
      assert OwnedOk(m, page, m.owned[page]);
      match m.owned[page] {
        case Small(q, i, _) => SmallAddr(m.cache, q, i);
        case Large(_, _, _) =>
      }
    }
  }

  lemma SlabGone(m: Mem, t: Mem, page: nat)
    requires SlabPages(m) && Owned(m) && page in m.cache.slabs
    requires t == m.(cache := t.cache) && t.cache.slabs == m.cache.slabs - {page}
    requires forall k :: !Slab.LiveBuf(m.cache, page, k)
    requires forall p, k :: Slab.LiveBuf(t.cache, p, k) <==> Slab.LiveBuf(m.cache, p, k)
    ensures OwnedBut(t, {FrameAt(page)}) && SlabPages(t)
  {
    forall q | q in t.kernel.live && q != FrameAt(page) ensures PageHeld(t, q) {
      assert PageHeld(m, q);
      AddrFacts(q, FrameAt(page));
    }
    forall a | a in t.owned ensures OwnedOk(t, a, t.owned[a]) {
      assert OwnedOk(m, a, m.owned[a]);
    }
    forall p, i | Slab.LiveBuf(t.cache, p, i) ensures HeldBuf(t, p, i) {
      assert Slab.LiveBuf(m.cache, p, i) && HeldBuf(m, p, i);
    }
  }

  // ---------------------------------------------------------------- the fast zone

  lemma FastTaken(live: map<nat, nat>, offset: nat, owned: map<nat, Region>, p: nat, o: nat, asked: nat)
    requires FastBook(live, offset, owned) && p !in live && asked <= Bytes(o)
    ensures FastBook(live[p := o], offset, owned[Addr(offset + p) := Large(p, o, asked)])
    ensures Addr(offset + p) !in owned
  {
    hide Bytes;
    var ptr := Addr(offset + p);
    forall a | a in owned ensures a != ptr {
      assert FastOk(live, offset, a, owned[a]);
      AddrFacts(offset + owned[a].pfn, offset + p);
    }
    var owned' := owned[ptr := Large(p, o, asked)];
    forall a | a in owned' ensures FastOk(live[p := o], offset, a, owned'[a]) {
      assert a != ptr ==> FastOk(live, offset, a, owned[a]);
    }
  }

  lemma FastGiven(live: map<nat, nat>, offset: nat, owned: map<nat, Region>, ptr: nat)
    requires FastBook(live, offset, owned) && ptr in owned
    ensures FastBook(live - {owned[ptr].pfn}, offset, owned - {ptr})
  {
    hide Addr, Bytes;
    var p := owned[ptr].pfn;
    assert FastOk(live, offset, ptr, owned[ptr]);
    forall a | a in owned - {ptr} ensures FastOk(live - {p}, offset, a, owned[a]) {
      assert FastOk(live, offset, a, owned[a]);
    }
    forall q | q in live - {p} ensures Addr(offset + q) in owned - {ptr} {
      AddrFacts(offset + q, offset + p);
    }
  }

  /** fmalloc hands out a new block of the fast zone, of at least the size asked for. */
  lemma FmallocKeeps(m: Mem, size: nat)
    requires Inv(m) && Fmalloc(m, size).Ran?
    ensures var r := Fmalloc(m, size);
            && Inv(r.m) && r.ptr !in m.fastOwned && r.m.owned == m.owned
            && r.ptr in r.m.fastOwned && r.m.fastOwned == m.fastOwned[r.ptr := r.m.fastOwned[r.ptr]]
            && r.m.fastOwned[r.ptr].asked == size
  {
    hide Buddy.Inv, Slab.Inv, SlabPages, FastBook, OwnedBut;
    GotBlock(m.fast, OrderFor(size));
    OrderFits(size);
    var r := Fmalloc(m, size);
    FastTaken(m.fast.live, m.fastOffset, m.fastOwned, Buddy.Get(m.fast, OrderFor(size)).pfn, OrderFor(size), size);
    OwnedElsewhere(m, r.m);
  }

  /** The fast zone has an aligned run of 2^order free pages. */
  ghost predicate HasFastRun(m: Mem, order: nat) {
    order <= MAX_ORDER && exists p :: BuddyTheorems.FreeRun(m.fast, p, order)
  }

  /** fmalloc panics exactly when the fast zone has no free run of the pages needed, which for more
      than 4 MiB it never has. */
  lemma FmallocExactly(m: Mem, size: nat)
    requires Inv(m)
    ensures Fmalloc(m, size).Ran? <==> HasFastRun(m, OrderFor(size))
    ensures Fmalloc(m, size).Ran? ==> size <= Bytes(MAX_ORDER)
  {
    hide Buddy.Get, Slab.Inv, Owned, SlabPages, FastOwned, Accounted, OrderFor, Bytes;
    BuddyTheorems.Completeness(m.fast, OrderFor(size));
    OrderFits(size);
  }

  lemma FfreeShape(m: Mem, p: nat)
    ensures var ptr := Addr(m.fastOffset + p);
            Ffree(m, ptr) ==
              match Buddy.Release(m.fast, p)
              case FreePanic => Stopped
              case Freed(t) =>
                var bytes := Bytes(Buddy.OrderOf(m.fast, p));
                Ran(m.(fast := t, fused := m.fused - bytes, used := m.used - bytes,
                       fastOwned := m.fastOwned - {ptr}), 0)
  {
    hide Buddy.Release, Buddy.OrderOf, Bytes;
    AddrFacts(m.fastOffset + p, 0);
  }

  /** ffree of a held pointer never panics and gives back exactly that block. */
  lemma FfreeKeeps(m: Mem, ptr: nat)
    requires Inv(m) && ptr in m.fastOwned
    ensures var r := Ffree(m, ptr);
            r.Ran? && Inv(r.m) && r.m.owned == m.owned && r.m.fastOwned == m.fastOwned - {ptr}
  {
    hide Buddy.Inv, Slab.Inv, SlabPages, OwnedBut, LiveBytes, Ffree, Addr, Bytes, Buddy.Release;
    var p := m.fastOwned[ptr].pfn;
    assert FastOk(m.fast.live, m.fastOffset, ptr, m.fastOwned[ptr]);
    hide FastBook;
    FfreeShape(m, p);
    ReleasedBlock(m.fast, p);
    FastGiven(m.fast.live, m.fastOffset, m.fastOwned, ptr);
    OwnedElsewhere(m, Ffree(m, ptr).m);
  }

  /** Operations on the fast zone do not touch kernel pages or slabs. */
  lemma OwnedElsewhere(m: Mem, t: Mem)
    requires Owned(m) && SlabPages(m) && t.kernel == m.kernel && t.cache == m.cache && t.owned == m.owned
    ensures Owned(t) && SlabPages(t)
  {
    forall q | q in t.kernel.live ensures PageHeld(t, q) {
      assert PageHeld(m, q);
    }
    forall a | a in t.owned ensures OwnedOk(t, a, t.owned[a]) {
      assert OwnedOk(m, a, m.owned[a]);
    }
    forall p, i | Slab.LiveBuf(t.cache, p, i) ensures HeldBuf(t, p, i) {
      assert HeldBuf(m, p, i);
    }
  }

  // ---------------------------------------------------------------- histories

  lemma StepKeeps(m: Mem, op: Op)
    requires Inv(m) && Step(m, op).Ran?
    ensures Inv(Step(m, op).m)
  {
    hide Parts, SlabPages, Owned, FastOwned, Accounted;
    match op {
      case DoKmalloc(size) => KmallocKeeps(m, size);
      case DoKfree(ptr) => if ptr in m.owned { KfreeKeeps(m, ptr); }
      case DoKallocPage(order) => KallocKeeps(m, order, Bytes(order));
      case DoKfreePage(ptr) => if ptr != 0 { KfreePageKeeps(m, ptr); }
      case DoCreateSlab(size, pinned) => CreateSlabKeeps(m, size, pinned);
      case DoReap(page) => ReapKeeps(m, page);
      case DoFmalloc(size) => FmallocKeeps(m, size);
      case DoFfree(ptr) => if ptr in m.fastOwned { FfreeKeeps(m, ptr); }
    }
  }

  /** A held pointer of the fast zone stays held, as it is, until it is given back. */
  lemma StepSparesFast(m: Mem, op: Op, ptr: nat)
    requires Inv(m) && Step(m, op).Ran? && ptr in m.fastOwned && op != DoFfree(ptr)
    ensures var t := Step(m, op).m;
            ptr in t.fastOwned && t.fastOwned[ptr] == m.fastOwned[ptr]
  {
    hide Inv, Slab.HasRoom, HasRun, Kmalloc, KallocPage, Kfree, KfreePage, CreateSlab, Reap, Fmalloc, Ffree;
    match op {
      case DoKmalloc(size) => KmallocKeeps(m, size);
      case DoKfree(p) => if p in m.owned { KfreeKeeps(m, p); } else { NullReturned(m); }
      case DoKallocPage(order) => KallocKeeps(m, order, Bytes(order));
      case DoKfreePage(p) => if p != 0 { KfreePageKeeps(m, p); } else { NullReturned(m); }
      case DoCreateSlab(size, pinned) => CreateSlabKeeps(m, size, pinned);
      case DoReap(page) => ReapKeeps(m, page);
      case DoFmalloc(size) => FmallocKeeps(m, size);
      case DoFfree(p) => if p in m.fastOwned { FfreeKeeps(m, p); } else { NullReturned(m); }
    }
  }

  /** Returning NULL changes nothing. */
  lemma NullReturned(m: Mem)
    ensures KfreePage(m, 0) == Ran(m, 0) && (0 !in m.owned ==> Kfree(m, 0) == Ran(m, 0)) && Ffree(m, 0) == Ran(m, 0)
  {
  }

  lemma {:induction false} RunKeeps(m: Mem, ops: seq<Op>)
    requires Inv(m) && Run(m, ops).Ran?
    ensures Inv(Run(m, ops).m)
    decreases ops
  {
    hide Inv;
    if ops != [] {
      StepKeeps(m, ops[0]);
      RunKeeps(Step(m, ops[0]).m, ops[1..]);
    }
  }

  // ---------------------------------------------------------------- slabs over histories

  /** Every slab of `m` is one of `t` still, of the same size and pinned as before, or was neither
      pinned nor in use. */
  ghost predicate SlabsStay(c: Slab.Cache, d: Slab.Cache) {
    forall page :: page in c.slabs ==>
      if page in d.slabs then d.slabs[page].size == c.slabs[page].size && d.slabs[page].pinned == c.slabs[page].pinned
      else !c.slabs[page].pinned && c.slabs[page].alloc == 0
  }

  lemma SallocStays(m: Mem, size: nat, asked: nat)
    requires Slab.Inv(m.cache)
    ensures Salloc(m, size, asked).Ran? ==> SlabsStay(m.cache, Salloc(m, size, asked).m.cache)
    ensures Salloc(m, size, asked).Ran? ==> Salloc(m, size, asked).m.cache.slabs.Keys == m.cache.slabs.Keys
  {
    hide Slab.Inv, Slab.Salloc;
    Slab.SallocKeeps(m.cache, size);
  }

  lemma KmallocStays(m: Mem, asked: nat)
    requires Inv(m) && Kmalloc(m, asked).Ran?
    ensures SlabsStay(m.cache, Kmalloc(m, asked).m.cache)
  {
    hide Parts, SlabPages, Owned, FastOwned, Accounted, SlabsStay, Slab.HasRoom, NewSlab, CreateSlab, Salloc;
    if asked <= Slab.MAX_SLAB_SIZE {
      var size := if asked < Slab.MIN_SLAB_SIZE then Slab.MIN_SLAB_SIZE else asked;
      CacheInv(m);
      SallocKeeps(m, size, asked);
      SallocStays(m, size, asked);
      if Salloc(m, size, asked).ptr == 0 {
        CreateSlabKeeps(m, size, false);
        var u := CreateSlab(m, size, false);
        SallocKeeps(u.m, size, asked);
        CacheInv(u.m);
        SallocStays(u.m, size, asked);
        StayThrough(m.cache, u.m.cache, Salloc(u.m, size, asked).m.cache, u.ptr, size);
      }
    } else {
      OrderFits(asked);
      KallocKeeps(m, OrderFor(asked), asked);
      Unmoved(m.cache);
    }
  }

  lemma CacheInv(m: Mem)
    requires Inv(m)
    ensures Slab.Inv(m.cache)
  {
  }

  lemma Unmoved(c: Slab.Cache)
    ensures SlabsStay(c, c)
  {
  }

  lemma AddedStays(c: Slab.Cache, d: Slab.Cache, page: nat, size: nat, pinned: bool)
    requires NewSlab(c, d, page, size, pinned)
    ensures SlabsStay(c, d)
  {
  }

  lemma StayThrough(c: Slab.Cache, d: Slab.Cache, e: Slab.Cache, page: nat, size: nat)
    requires NewSlab(c, d, page, size, false) && SlabsStay(d, e) && e.slabs.Keys == d.slabs.Keys
    ensures SlabsStay(c, e)
  {
  }

  lemma KfreeStays(m: Mem, ptr: nat)
    requires Inv(m) && ptr in m.owned
    ensures Kfree(m, ptr).Ran? ==> SlabsStay(m.cache, Kfree(m, ptr).m.cache)
  {
    hide SlabPages, FastOwned, Accounted, Slab.Inv, Slab.Sfree, Buddy.Inv, KfreePage;
    if m.owned[ptr].Small? {
      assert OwnedOk(m, ptr, m.owned[ptr]);
      hide Owned;
      Slab.SfreeKeeps(m.cache, m.owned[ptr].page, m.owned[ptr].index);
    } else {
      KfreePageKeeps(m, ptr);
    }
  }

  lemma ReapStays(m: Mem, page: nat)
    requires Inv(m)
    ensures Reap(m, page).Ran? && SlabsStay(m.cache, Reap(m, page).m.cache)
  {
    hide Inv, Reap;
    ReapKeeps(m, page);
    CacheInv(m);
    if page in m.cache.free {
      FreeMeansNothingOut(m.cache, page);
    }
  }

  /** Whatever is called, a slab keeps its page, its size and its pin, and only the reaper takes one
      away, neither pinned nor in use. */
  lemma StepSlabs(m: Mem, op: Op)
    requires Inv(m) && Step(m, op).Ran?
    ensures SlabsStay(m.cache, Step(m, op).m.cache)
    ensures forall page :: page in m.cache.slabs && page !in Step(m, op).m.cache.slabs ==> op == DoReap(page)
  {
    hide Inv, Kmalloc, KallocPage, Kfree, KfreePage, CreateSlab, Reap, Fmalloc, Ffree, SlabsStay;
    Unmoved(m.cache);
    match op {
      case DoKmalloc(size) => KmallocStays(m, size); KmallocSlabs(m, size);
      case DoKfree(ptr) =>
        if ptr in m.owned {
          KfreeStays(m, ptr);
          KfreeSlabs(m, ptr);
        } else {
          NullReturned(m);
        }
      case DoKallocPage(order) => KallocKeeps(m, order, Bytes(order));
      case DoKfreePage(ptr) => if ptr != 0 { KfreePageKeeps(m, ptr); } else { NullReturned(m); }
      case DoCreateSlab(size, pinned) =>
        CreateSlabKeeps(m, size, pinned);
        AddedStays(m.cache, CreateSlab(m, size, pinned).m.cache, CreateSlab(m, size, pinned).ptr, size, pinned);
      case DoReap(page) =>
        ReapStays(m, page);
        ReapKeeps(m, page);
        ReapOneSlabs(m.cache, page);
      case DoFmalloc(size) => FastCache(m, size, 0);
      case DoFfree(ptr) => FastCache(m, 0, ptr);
    }
  }

  lemma FastCache(m: Mem, size: nat, ptr: nat)
    ensures Fmalloc(m, size).Ran? ==> Fmalloc(m, size).m.cache == m.cache
    ensures Ffree(m, ptr).Ran? ==> Ffree(m, ptr).m.cache == m.cache
  {
  }

  lemma KmallocSlabs(m: Mem, asked: nat)
    requires Inv(m) && Kmalloc(m, asked).Ran?
    ensures m.cache.slabs.Keys <= Kmalloc(m, asked).m.cache.slabs.Keys
  {
    hide Parts, SlabPages, Owned, FastOwned, Accounted, SlabsStay, Slab.HasRoom, CreateSlab, Salloc;
    if asked <= Slab.MAX_SLAB_SIZE {
      var size := if asked < Slab.MIN_SLAB_SIZE then Slab.MIN_SLAB_SIZE else asked;
      CacheInv(m);
      SallocKeeps(m, size, asked);
      SallocStays(m, size, asked);
      if Salloc(m, size, asked).ptr == 0 {
        CreateSlabKeeps(m, size, false);
        var u := CreateSlab(m, size, false);
        CacheInv(u.m);
        SallocStays(u.m, size, asked);
      }
    } else {
      OrderFits(asked);
      KallocKeeps(m, OrderFor(asked), asked);
    }
  }

  lemma KfreeSlabs(m: Mem, ptr: nat)
    requires Inv(m) && ptr in m.owned
    ensures Kfree(m, ptr).Ran? ==> Kfree(m, ptr).m.cache.slabs.Keys == m.cache.slabs.Keys
  {
    hide SlabPages, FastOwned, Accounted, Slab.Inv, Slab.Sfree, Buddy.Inv, KfreePage;
    if m.owned[ptr].Small? {
      assert OwnedOk(m, ptr, m.owned[ptr]);
      hide Owned;
      Slab.SfreeKeeps(m.cache, m.owned[ptr].page, m.owned[ptr].index);
    } else {
      KfreePageKeeps(m, ptr);
    }
  }

  /** A pinned slab is there for good: after any history, reaper included, it is a slab at the same
      page, of the same size, and pinned. */
  lemma {:induction false} PinnedStays(m: Mem, ops: seq<Op>, page: nat)
    requires Inv(m) && Run(m, ops).Ran? && page in m.cache.slabs && m.cache.slabs[page].pinned
    ensures var c := Run(m, ops).m.cache;
            page in c.slabs && c.slabs[page].pinned && c.slabs[page].size == m.cache.slabs[page].size
    decreases ops
  {
    hide Inv, Step;
    if ops != [] {
      StepKeeps(m, ops[0]);
      StepSlabs(m, ops[0]);
      PinnedStays(Step(m, ops[0]).m, ops[1..], page);
    }
  }

  /** A slab that createSlab pins, as at boot, is there for good. */
  lemma CreatedPinnedStays(m: Mem, size: nat, ops: seq<Op>)
    requires Inv(m) && CreateSlab(m, size, true).Ran? && Run(CreateSlab(m, size, true).m, ops).Ran?
    ensures var page, c := CreateSlab(m, size, true).ptr, Run(CreateSlab(m, size, true).m, ops).m.cache;
            page in c.slabs && c.slabs[page].pinned && c.slabs[page].size == size
  {
    hide Inv, CreateSlab, Run, Slab.HasRoom;
    CreateSlabKeeps(m, size, true);
    PinnedStays(CreateSlab(m, size, true).m, ops, CreateSlab(m, size, true).ptr);
  }

  /** So is every one that is created in the course of a history. */
  lemma {:induction false} PinnedInRun(m: Mem, ops: seq<Op>, i: nat, size: nat)
    requires Inv(m) && Run(m, ops).Ran? && i < |ops| && ops[i] == DoCreateSlab(size, true)
    ensures exists page :: HasPinned(Run(m, ops).m, page, size)
    decreases i
  {
    hide Inv, CreateSlab, Slab.HasRoom;
    if i == 0 {
      var r := CreateSlab(m, size, true);
      CreatedPinnedStays(m, size, ops[1..]);
      assert HasPinned(Run(m, ops).m, r.ptr, size);
    } else {
      hide Step;
      StepKeeps(m, ops[0]);
      PinnedInRun(Step(m, ops[0]).m, ops[1..], i - 1, size);
    }
  }

  predicate HasPinned(m: Mem, page: nat, size: nat) {
    page in m.cache.slabs && m.cache.slabs[page].pinned && m.cache.slabs[page].size == size
  }

  /** The slabs of init_slab_cache, of which three are pinned: those for threads, locks and wait queues. */
  function BootSlabs(thread: nat, lock: nat, waitq: nat): seq<Op> {
    [DoCreateSlab(4, false), DoCreateSlab(8, false), DoCreateSlab(16, false), DoCreateSlab(32, false),
     DoCreateSlab(64, false), DoCreateSlab(128, false),
     DoCreateSlab(thread, true), DoCreateSlab(lock, true), DoCreateSlab(waitq, true),
     DoCreateSlab(256, false), DoCreateSlab(512, false)]
  }

  /** After init_slab_cache and any history the kernel still has slabs for these three. */
  lemma BootSlabsStay(m: Mem, thread: nat, lock: nat, waitq: nat, ops: seq<Op>)
    requires Inv(m) && Run(m, BootSlabs(thread, lock, waitq) + ops).Ran?
    ensures var t := Run(m, BootSlabs(thread, lock, waitq) + ops).m;
            && (exists page :: HasPinned(t, page, thread)) && (exists page :: HasPinned(t, page, lock))
            && (exists page :: HasPinned(t, page, waitq))
  {
    hide Inv, Run, HasPinned;
    var all := BootSlabs(thread, lock, waitq) + ops;
    assert all[6] == DoCreateSlab(thread, true) && all[7] == DoCreateSlab(lock, true)
           && all[8] == DoCreateSlab(waitq, true);
    PinnedInRun(m, all, 6, thread);
    PinnedInRun(m, all, 7, lock);
    PinnedInRun(m, all, 8, waitq);
  }

  /** One round of the reaper takes away exactly the slabs that are neither pinned nor in use, and
      their pages are given back. */
  lemma ReapedExactly(m: Mem, page: nat)
    requires Inv(m) && page in m.cache.slabs
    ensures ReapAll(m, m.cache.free).Ran?
    ensures var t := ReapAll(m, m.cache.free).m;
            && (page !in t.cache.slabs <==> !m.cache.slabs[page].pinned && m.cache.slabs[page].alloc == 0)
            && (if page in t.cache.slabs then t.cache.slabs[page] == m.cache.slabs[page]
                else FrameAt(page) !in t.kernel.live)
  {
    hide ReapAll, Buddy.Inv, LiveBytes, FastOwned;
    assert [] + m.cache.free == m.cache.free;
    ReapAllKeeps(m, [], m.cache.free);
    var t := ReapAll(m, m.cache.free).m;
    FreeMeansFree(m.cache, page);
    hide Slab.Inv;
    SlabNotHeld(m, page);
    SlabLive(m, page);
    LiveIsHeld(t, FrameAt(page));
  }

  lemma LiveIsHeld(m: Mem, p: nat)
    requires Owned(m)
    ensures p in m.kernel.live ==> Addr(p) in m.cache.slabs || Addr(p) in m.owned
  {
    assert p in m.kernel.live ==> PageHeld(m, p);
  }

  lemma FreeMeansFree(c: Slab.Cache, page: nat)
    requires Slab.Inv(c) && page in c.slabs
    ensures page in c.free <==> c.slabs[page].alloc == 0
  {
  }

  /** A new slab survives a round of the reaper if and only if it was asked for as pinned. */
  lemma PinDecides(m: Mem, size: nat, pinned: bool)
    requires Inv(m) && CreateSlab(m, size, pinned).Ran?
    ensures var r := CreateSlab(m, size, pinned);
            && ReapAll(r.m, r.m.cache.free).Ran?
            && (r.ptr in ReapAll(r.m, r.m.cache.free).m.cache.slabs <==> pinned)
  {
    hide Inv, CreateSlab, ReapAll, Slab.HasRoom;
    CreateSlabKeeps(m, size, pinned);
    var r := CreateSlab(m, size, pinned);
    ReapedExactly(r.m, r.ptr);
  }

  // ---------------------------------------------------------------- the zones stay

  predicate SameZones(m: Mem, t: Mem) {
    t.fastOffset == m.fastOffset && t.kernel.tot == m.kernel.tot && t.fast.tot == m.fast.tot
  }

  lemma {:induction false} GetTot(s: Buddy.State, o: nat)
    ensures Buddy.Get(s, o).Got? ==> Buddy.Get(s, o).s.tot == s.tot
    decreases MAX_ORDER + 1 - o
  {
    if o < MAX_ORDER {
      GetTot(s, o + 1);
    }
  }

  lemma {:induction false} FreeTot(s: Buddy.State, b: nat, o: nat)
    ensures Buddy.Free(s, b, o).tot == s.tot
    decreases MAX_ORDER - o
  {
    if o < MAX_ORDER && Buddy.FreeBuddy(s, b, o) {
      FreeTot(Buddy.Merge(s, b), Buddy.MergeBase(s, b), o + 1);
    }
  }

  lemma PageZones(m: Mem, order: nat, asked: nat, ptr: nat)
    ensures KallocPage(m, order, asked).Ran? ==> SameZones(m, KallocPage(m, order, asked).m)
    ensures KfreePage(m, ptr).Ran? ==> SameZones(m, KfreePage(m, ptr).m)
  {
    hide Buddy.Get, Buddy.Free, Buddy.OrderOf, Bytes;
    GetTot(m.kernel, order);
    FreeTot(m.kernel, FrameAt(ptr), Buddy.OrderOf(m.kernel, FrameAt(ptr)));
  }

  lemma FastZones(m: Mem, size: nat, ptr: nat)
    ensures Fmalloc(m, size).Ran? ==> SameZones(m, Fmalloc(m, size).m)
    ensures Ffree(m, ptr).Ran? ==> SameZones(m, Ffree(m, ptr).m)
  {
    hide Buddy.Get, Buddy.Free, Buddy.OrderOf, Bytes, OrderFor;
    GetTot(m.fast, OrderFor(size));
    if FrameAt(ptr) >= m.fastOffset {
      var p := FrameAt(ptr) - m.fastOffset;
      FreeTot(m.fast, p, Buddy.OrderOf(m.fast, p));
    }
  }

  lemma SlabZones(m: Mem, size: nat, pinned: bool, asked: nat)
    ensures CreateSlab(m, size, pinned).Ran? ==> SameZones(m, CreateSlab(m, size, pinned).m)
    ensures Salloc(m, size, asked).Ran? ==> SameZones(m, Salloc(m, size, asked).m)
  {
    hide KallocPage, Slab.Salloc, Slab.CreateSlab, Slab.SetPinned;
    PageZones(m, 0, PAGE, 0);
  }

  lemma KmallocZones(m: Mem, asked: nat)
    ensures Kmalloc(m, asked).Ran? ==> SameZones(m, Kmalloc(m, asked).m)
  {
    hide KallocPage, CreateSlab, Salloc, OrderFor;
    var size := if asked < Slab.MIN_SLAB_SIZE then Slab.MIN_SLAB_SIZE else asked;
    PageZones(m, OrderFor(asked), asked, 0);
    SlabZones(m, size, false, asked);
    if CreateSlab(m, size, false).Ran? {
      SlabZones(CreateSlab(m, size, false).m, size, false, asked);
    }
  }

  /** No call moves or resizes a zone. */
  lemma StepZones(m: Mem, op: Op)
    ensures Step(m, op).Ran? ==> SameZones(m, Step(m, op).m)
  {
    hide KallocPage, KfreePage, CreateSlab, Kmalloc, Fmalloc, Ffree, Slab.Sfree, Slab.ReapOne, Bytes;
    match op {
      case DoKmalloc(size) => KmallocZones(m, size);
      case DoKfree(ptr) => PageZones(m, 0, 0, ptr);
      case DoKallocPage(order) => PageZones(m, order, Bytes(order), 0);
      case DoKfreePage(ptr) => PageZones(m, 0, 0, ptr);
      case DoCreateSlab(size, pinned) => SlabZones(m, size, pinned, 0);
      case DoReap(page) => PageZones(m.(cache := Slab.ReapOne(m.cache, page)), 0, 0, page);
      case DoFmalloc(size) => FastZones(m, size, 0);
      case DoFfree(ptr) => FastZones(m, 0, ptr);
    }
  }

  lemma {:induction false} RunZones(m: Mem, ops: seq<Op>)
    ensures Run(m, ops).Ran? ==> SameZones(m, Run(m, ops).m)
    decreases |ops|
  {
    hide Step;
    if ops != [] && Step(m, ops[0]).Ran? {
      StepZones(m, ops[0]);
      RunZones(Step(m, ops[0]).m, ops[1..]);
    }
  }

  /** The state at boot: both zones free, no slab, nothing held. */
  function Boot(kernelBlocks: nat, fastBlocks: nat, fastOffset: nat): Mem {
    Mem(Buddy.Init(kernelBlocks), Buddy.Init(fastBlocks), fastOffset, Slab.Cache(map[], [], [], []), 0, 0, 0, map[],
        map[])
  }

  lemma {:induction false} NoLiveBytes(n: nat)
    ensures LiveBytes(map[], n) == 0
  {
    if n > 0 {
      NoLiveBytes(n - 1);
    }
  }

  lemma BootInv(kernelBlocks: nat, fastBlocks: nat, fastOffset: nat)
    ensures Inv(Boot(kernelBlocks, fastBlocks, fastOffset))
  {
    var m := Boot(kernelBlocks, fastBlocks, fastOffset);
    BuddyTheorems.InitInv(kernelBlocks);
    BuddyTheorems.InitInv(fastBlocks);
    NoLiveBytes(m.kernel.tot);
    NoLiveBytes(m.fast.tot);
    hide Buddy.Inv;
  }

  // ---------------------------------------------------------------- what the callers get

  /** Bytes usable at a held pointer. */
  function SizeAt(m: Mem, ptr: nat): nat
    requires ptr in m.owned
  {
    match m.owned[ptr]
    case Small(page, _, _) => if page in m.cache.slabs then m.cache.slabs[page].size else 0
    case Large(_, order, _) => Bytes(order)
  }

  /** First page of the kernel block that a held pointer lies in. */
  function BlockAt(m: Mem, ptr: nat): nat
    requires ptr in m.owned
  {
    match m.owned[ptr]
    case Small(page, _, _) => FrameAt(page)
    case Large(pfn, _, _) => pfn
  }

  /** A held region has the size asked for and lies inside one live block of the zone. */
  lemma HeldInsideBlock(m: Mem, ptr: nat)
    requires Inv(m) && ptr in m.owned
    ensures m.owned[ptr].asked <= SizeAt(m, ptr)
    ensures var b := BlockAt(m, ptr);
            && b in m.kernel.live && b + Pages(m.kernel.live[b]) <= m.kernel.tot
            && Addr(b) <= ptr && ptr + SizeAt(m, ptr) <= Addr(b) + Bytes(m.kernel.live[b])
  {
    assert OwnedOk(m, ptr, m.owned[ptr]);
    var b := BlockAt(m, ptr);
    LiveInZone(m.kernel, b);
    hide Buddy.Inv, Slab.Inv, OwnedBut;
    match m.owned[ptr] {
      case Small(page, i, _) => SmallAddr(m.cache, page, i);
      case Large(_, _, _) =>
    }
  }

  lemma LiveInZone(s: Buddy.State, p: nat)
    requires Buddy.Inv(s)
    ensures p in s.live ==> p + Pages(s.live[p]) <= s.tot
  {
    if p in s.live {
      assert Buddy.Head(s, p);
    }
  }

  lemma LiveApart(s: Buddy.State, p: nat, q: nat)
    requires Buddy.Inv(s) && p in s.live && q in s.live && p != q
    ensures p + Pages(s.live[p]) <= q || q + Pages(s.live[q]) <= p
  {
    assert Buddy.Head(s, p) && Buddy.Head(s, q);
  }

  /** Two held regions never overlap. */
  lemma HeldDisjoint(m: Mem, ptr: nat, other: nat)
    requires Inv(m) && ptr in m.owned && other in m.owned && ptr != other
    ensures ptr + SizeAt(m, ptr) <= other || other + SizeAt(m, other) <= ptr
  {
    hide Buddy.Inv, Slab.Inv, Accounted, FastOwned;
    HeldInsideBlock(m, ptr);
    HeldInsideBlock(m, other);
    assert OwnedOk(m, ptr, m.owned[ptr]) && OwnedOk(m, other, m.owned[other]);
    var b, c := BlockAt(m, ptr), BlockAt(m, other);
    if b != c {
      LiveApart(m.kernel, b, c);
    } else if m.owned[ptr].Small? && m.owned[other].Small? {
      var r, q := m.owned[ptr], m.owned[other];
      BuffersDisjoint(m.cache, r.page, r.index, q.page, q.index);
    }
  }

  /** A held region of either zone, with the bytes usable there. */
  ghost predicate Held(m: Mem, ptr: nat, size: nat) {
    || (ptr in m.owned && size == SizeAt(m, ptr))
    || (ptr in m.fastOwned && m.fastOwned[ptr].Large? && size == Bytes(m.fastOwned[ptr].order))
  }

  /** A held region of the fast zone has the size asked for and is a live block of the zone. */
  lemma FastIsBlock(m: Mem, ptr: nat)
    requires Inv(m) && ptr in m.fastOwned
    ensures var r := m.fastOwned[ptr];
            && r.Large? && r.pfn in m.fast.live && m.fast.live[r.pfn] == r.order && r.asked <= Bytes(r.order)
            && ptr == Addr(m.fastOffset + r.pfn) && r.pfn + Pages(r.order) <= m.fast.tot
            && ptr + Bytes(r.order) <= Addr(m.fastOffset + m.fast.tot)
  {
    assert FastOk(m.fast.live, m.fastOffset, ptr, m.fastOwned[ptr]);
    LiveInZone(m.fast, m.fastOwned[ptr].pfn);
    hide Buddy.Inv, Slab.Inv, OwnedBut;
  }

  /** Two held regions of the fast zone never overlap. */
  lemma FastDisjoint(m: Mem, ptr: nat, other: nat)
    requires Inv(m) && ptr in m.fastOwned && other in m.fastOwned && ptr != other
    ensures m.fastOwned[ptr].Large? && m.fastOwned[other].Large?
    ensures ptr + Bytes(m.fastOwned[ptr].order) <= other || other + Bytes(m.fastOwned[other].order) <= ptr
  {
    FastIsBlock(m, ptr);
    FastIsBlock(m, other);
    LiveApart(m.fast, m.fastOwned[ptr].pfn, m.fastOwned[other].pfn);
    hide Buddy.Inv, Slab.Inv, OwnedBut;
  }

  /** Two held regions never overlap, whichever zones they are from, if the fast zone lies
      behind the kernel zone. */
  lemma RegionsDisjoint(m: Mem, a: nat, x: nat, b: nat, y: nat)
    requires Inv(m) && m.kernel.tot <= m.fastOffset && Held(m, a, x) && Held(m, b, y) && a != b
    ensures a + x <= b || b + y <= a
  {
    hide Inv, SizeAt;
    if a in m.owned && x == SizeAt(m, a) && b in m.owned && y == SizeAt(m, b) {
      HeldDisjoint(m, a, b);
    } else if a in m.owned && x == SizeAt(m, a) {
      KernelBelowFast(m, a, b);
    } else if b in m.owned && y == SizeAt(m, b) {
      KernelBelowFast(m, b, a);
    } else {
      FastDisjoint(m, a, b);
    }
  }

  lemma KernelBelowFast(m: Mem, ptr: nat, fast: nat)
    requires Inv(m) && m.kernel.tot <= m.fastOffset && ptr in m.owned && fast in m.fastOwned
    ensures ptr + SizeAt(m, ptr) <= fast
  {
    hide Inv, SizeAt;
    HeldInsideBlock(m, ptr);
    FastIsBlock(m, fast);
  }

  /** No counter underflows, and none exceeds the bytes of its zone. */
  lemma CountersBounded(m: Mem)
    requires Inv(m)
    ensures 0 <= m.kused <= m.kernel.tot * PAGE && 0 <= m.fused <= m.fast.tot * PAGE
    ensures m.used == m.kused + m.fused
  {
    forall p: nat | p in m.kernel.live ensures p + Pages(m.kernel.live[p]) <= m.kernel.tot {
      LiveInZone(m.kernel, p);
    }
    forall p: nat | p in m.fast.live ensures p + Pages(m.fast.live[p]) <= m.fast.tot {
      LiveInZone(m.fast, p);
    }
    LiveBytesBound(m.kernel, m.kernel.tot, m.kernel.tot);
    LiveBytesBound(m.fast, m.fast.tot, m.fast.tot);
  }

  /** End to end: after any history from boot, held regions of both zones are large enough, each
      inside its own live block, and pairwise disjoint if the zones are; the counters are exact. */
  lemma EndToEnd(kernelBlocks: nat, fastBlocks: nat, fastOffset: nat, ops: seq<Op>, a: nat, x: nat, b: nat, y: nat)
    requires Run(Boot(kernelBlocks, fastBlocks, fastOffset), ops).Ran?
    ensures var m := Run(Boot(kernelBlocks, fastBlocks, fastOffset), ops).m;
            && m.kused == LiveBytes(m.kernel.live, m.kernel.tot) && m.fused == LiveBytes(m.fast.live, m.fast.tot)
            && m.used == m.kused + m.fused
            && (a in m.owned ==>
                  && m.owned[a].asked <= SizeAt(m, a)
                  && BlockAt(m, a) in m.kernel.live
                  && Addr(BlockAt(m, a)) <= a
                  && a + SizeAt(m, a) <= Addr(BlockAt(m, a)) + Bytes(m.kernel.live[BlockAt(m, a)]))
            && (a in m.fastOwned ==>
                  var r := m.fastOwned[a];
                  && r.Large? && r.asked <= Bytes(r.order) && a == Addr(fastOffset + r.pfn)
                  && r.pfn in m.fast.live && m.fast.live[r.pfn] == r.order)
            && (a in m.owned && b in m.owned && a != b ==> a + SizeAt(m, a) <= b || b + SizeAt(m, b) <= a)
            && (kernelBlocks * TOP <= fastOffset && Held(m, a, x) && Held(m, b, y) && a != b ==>
                  a + x <= b || b + y <= a)
  {
    hide Parts, SlabPages, Owned, FastOwned, Run, Held, SizeAt, BlockAt;
    BootInv(kernelBlocks, fastBlocks, fastOffset);
    RunKeeps(Boot(kernelBlocks, fastBlocks, fastOffset), ops);
    RunZones(Boot(kernelBlocks, fastBlocks, fastOffset), ops);
    var m := Run(Boot(kernelBlocks, fastBlocks, fastOffset), ops).m;
    if a in m.owned {
      HeldInsideBlock(m, a);
      if b in m.owned && a != b {
        HeldDisjoint(m, a, b);
      }
    }
    if a in m.fastOwned {
      FastIsBlock(m, a);
    }
    if kernelBlocks * TOP <= fastOffset && Held(m, a, x) && Held(m, b, y) && a != b {
      RegionsDisjoint(m, a, x, b, y);
    }
  }
}
