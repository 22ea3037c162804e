/** The slab cache in memory: slab headers, `next_free` pointers and the three rings of
    slab headers, refining the state machine of module Slab.

    Pages that hold slabs are raw memory to the C code. Here the headers are found by
    page address, and the `Buf` headers by their page and position in the page. */
module SlabHeap {
  import opened Machine
  import opened Seqs
  import opened Rings
  import Slab

  datatype BufPtr = Null | At(page: nat, index: nat)

  /** The `Slab` structure at the start of a page, without its embedded list node. */
  datatype Header = Header(size: nat, pinned: bool, tot: nat, alloc: nat, first_free: BufPtr)

  /** The three lists of the cache. */
  datatype Name = Free | Used | Empty

  function Listed(c: Slab.Cache, name: Name): seq<nat> {
    match name case Free => c.free case Used => c.used case Empty => c.empty
  }

  /** A slab's page is on exactly one list, once. */
  ghost predicate OnlyOn(c: Slab.Cache, page: nat, name: Name) {
    && page in Listed(c, name) && Distinct(Listed(c, name))
    && forall other: Name :: other != name ==> page !in Listed(c, other)
  }

  /** In every reachable state a slab is on the one list its count calls for. */
  lemma AlwaysOnOneList(c: Slab.Cache, page: nat) returns (name: Name)
    requires Slab.Inv(c) && page in c.slabs
    ensures OnlyOn(c, page, name)
    ensures name == Free <==> c.slabs[page].alloc == 0
  {
    Slab.TotAtLeastSix(c.slabs[page].size);
    name := if c.slabs[page].alloc == 0 then Free else if c.slabs[page].alloc == c.slabs[page].tot then Empty else Used;
    assert page in Listed(c, name);
    forall other: Name | other != name ensures page !in Listed(c, other) {
      match other case Free => case Used => case Empty =>
    }
  }

  lemma OnListed(c: Slab.Cache, page: nat, name: Name)
    requires OnlyOn(c, page, name)
    ensures page in Listed(c, name)
  {
  }

  /** What sfree does, list by list. */
  lemma SfreeSteps(c: Slab.Cache, page: nat, index: nat, name: Name, k: nat)
    requires page in c.slabs && c.slabs[page].alloc > 0 && OnlyOn(c, page, name)
    requires k < |Listed(c, name)| && Listed(c, name)[k] == page
    ensures var s := Slab.Push(c.slabs[page], index);
            var without := (other: Name) => if other == name then Without(Listed(c, name), k) else Listed(c, other);
            Slab.Sfree(c, page, index) == Slab.Cache(c.slabs[page := s],
              if s.alloc == 0 then without(Free) + [page] else without(Free),
              if s.alloc == 0 then without(Used) else [page] + without(Used), without(Empty))
  {
    RemoveAtIndex(Listed(c, name), k);
    forall other: Name | other != name ensures Remove(Listed(c, other), page) == Listed(c, other) {
      RemoveAbsent(Listed(c, other), page);
    }
    assert Remove(Listed(c, Free), page) == if name == Free then Without(Listed(c, name), k) else Listed(c, Free);
    assert Remove(Listed(c, Used), page) == if name == Used then Without(Listed(c, name), k) else Listed(c, Used);
    assert Remove(Listed(c, Empty), page) == if name == Empty then Without(Listed(c, name), k) else Listed(c, Empty);
  }

  /** The pointer to the buffer at position `k` of a chain, or NULL behind its end. */
  function ChainPtr(page: nat, chain: seq<nat>, k: nat): BufPtr {
    if k < |chain| then At(page, chain[k]) else Null
  }

  /** `first_free` and the `next_free` pointers of a page visit exactly `chain`, then NULL. */
  ghost predicate Chained(next_free: map<(nat, nat), BufPtr>, page: nat, first: BufPtr, chain: seq<nat>) {
    && first == ChainPtr(page, chain, 0)
    && forall k :: 0 <= k < |chain| ==>
      (page, chain[k]) in next_free && next_free[(page, chain[k])] == ChainPtr(page, chain, k + 1)
  }

  /** The header of a page and its chain of pointers hold the slab `s`. */
  ghost predicate HeaderMatches(h: Header, next_free: map<(nat, nat), BufPtr>, s: Slab.Slab, lay: (nat, nat),
                                page: nat) {
    && lay == (s.size, s.tot)
    && h.size == s.size && h.pinned == s.pinned && h.tot == s.tot && h.alloc == s.alloc
    && Chained(next_free, page, h.first_free, s.chain)
  }

  /** Pointers of other pages do not matter to a slab. */
  lemma HeaderFramed(h: Header, before: map<(nat, nat), BufPtr>, after: map<(nat, nat), BufPtr>, s: Slab.Slab,
                     lay: (nat, nat), page: nat)
    requires HeaderMatches(h, before, s, lay, page)
    requires forall i: nat :: (page, i) in before ==> (page, i) in after && after[(page, i)] == before[(page, i)]
    ensures HeaderMatches(h, after, s, lay, page)
  {
    forall k | 0 <= k < |s.chain|
      ensures (page, s.chain[k]) in after && after[(page, s.chain[k])] == ChainPtr(page, s.chain, k + 1)
    {
      assert (page, s.chain[k]) in before;
    }
  }

  /** A pointer of another page does not matter to a slab. */
  lemma HeaderElsewhere(h: Header, next_free: map<(nat, nat), BufPtr>, s: Slab.Slab, lay: (nat, nat), page: nat,
                        other: (nat, nat), x: BufPtr)
    requires HeaderMatches(h, next_free, s, lay, page) && other.0 != page
    ensures HeaderMatches(h, next_free[other := x], s, lay, page)
  {
    HeaderFramed(h, next_free, next_free[other := x], s, lay, page);
  }

  /** The first buffer leaves the chain. */
  lemma PopMatches(h: Header, next_free: map<(nat, nat), BufPtr>, s: Slab.Slab, lay: (nat, nat), page: nat)
    requires HeaderMatches(h, next_free, s, lay, page) && s.chain != [] && Distinct(s.chain)
    ensures var first := (page, s.chain[0]);
            && h.first_free == At(page, s.chain[0]) && first in next_free
            && HeaderMatches(h.(alloc := h.alloc + 1, first_free := next_free[first]), next_free[first := Null],
                             Slab.Pop(s), lay, page)
  {
    assert forall k :: 0 <= k < |s.chain[1..]| ==> s.chain[1..][k] == s.chain[k + 1];
  }

  /** A buffer comes back to the front of the chain. */
  lemma PushMatches(h: Header, next_free: map<(nat, nat), BufPtr>, s: Slab.Slab, lay: (nat, nat), page: nat, index: nat)
    requires HeaderMatches(h, next_free, s, lay, page) && s.alloc > 0 && index !in s.chain
    ensures h.alloc == s.alloc
    ensures HeaderMatches(h.(alloc := h.alloc - 1, first_free := At(page, index)),
                          next_free[(page, index) := h.first_free], Slab.Push(s, index), lay, page)
  {
    var t := [index] + s.chain;
    assert forall k :: 0 < k < |t| ==> t[k] == s.chain[k - 1];
  }

  lemma NewHeaderMatches(next_free: map<(nat, nat), BufPtr>, page: nat, size: nat)
    requires Slab.TotFor(size) >= 0
    requires forall i: nat :: i <= Slab.TotFor(size) ==>
      (page, i) in next_free && next_free[(page, i)] == if i < Slab.TotFor(size) then At(page, i + 1) else Null
    ensures HeaderMatches(Header(size, false, Slab.TotFor(size), 0, At(page, 0)), next_free, Slab.NewSlab(size),
                          (size, Slab.TotFor(size)), page)
  {
  }

  /** Buffer `i` of the slab at page `p` is found at its address. */
  ghost predicate Found(memory: map<nat, (nat, nat)>, layout: map<nat, (nat, nat)>, p: nat, i: nat)
    requires p in layout
  {
    var a := Slab.UserAddr(p, layout[p].0, i);
    a in memory && memory[a] == (p, i)
  }

  /** Exactly the buffers of the slabs are found by address. */
  ghost predicate MemoryMatches(memory: map<nat, (nat, nat)>, layout: map<nat, (nat, nat)>) {
    && (forall a :: a in memory ==>
          var (p, i) := memory[a]; p in layout && i <= layout[p].1 && a == Slab.UserAddr(p, layout[p].0, i))
    && forall p, i: nat :: p in layout && i <= layout[p].1 ==> Found(memory, layout, p, i)
  }

  lemma MemoryExtended(mem: map<nat, (nat, nat)>, lay: map<nat, (nat, nat)>, after: map<nat, (nat, nat)>,
                       page: nat, size: nat, tot: nat)
    requires MemoryMatches(mem, lay) && page !in lay
    requires forall i: nat :: i <= tot ==>
               Slab.UserAddr(page, size, i) in after && after[Slab.UserAddr(page, size, i)] == (page, i)
    requires forall a :: a in mem ==> a in after && after[a] == mem[a]
    requires forall a :: a in after && a !in mem ==>
      after[a].0 == page && after[a].1 <= tot && a == Slab.UserAddr(page, size, after[a].1)
    ensures MemoryMatches(after, lay[page := (size, tot)])
  {
    var l := lay[page := (size, tot)];
    forall p, i: nat | p in l && i <= l[p].1 ensures Found(after, l, p, i) {
      assert p != page ==> Found(mem, lay, p, i);
    }
  }

  /** Forgetting a slab page forgets exactly its buffers. */
  lemma MemoryReduced(mem: map<nat, (nat, nat)>, lay: map<nat, (nat, nat)>, page: nat)
    requires MemoryMatches(mem, lay)
    ensures MemoryMatches(map a | a in mem && mem[a].0 != page :: mem[a], lay - {page})
  {
    var after, l := map a | a in mem && mem[a].0 != page :: mem[a], lay - {page};
    forall p, i: nat | p in l && i <= l[p].1 ensures Found(after, l, p, i) {
      assert Found(mem, lay, p, i);
    }
  }

  /** The nodes of a ring are those of the slabs of a list, in order. */
  ghost predicate Shown(xs: seq<nat>, ring: seq<ListNode>, heads: map<nat, ListNode>) {
    |ring| == |xs| && forall i :: 0 <= i < |xs| ==> xs[i] in heads && ring[i] == heads[xs[i]]
  }

  lemma ShownWithout(xs: seq<nat>, ring: seq<ListNode>, heads: map<nat, ListNode>, k: nat)
    requires Shown(xs, ring, heads) && k < |xs|
    ensures xs[k] in heads && k < |ring| && ring[k] == heads[xs[k]]
    ensures Shown(Without(xs, k), Without(ring, k), heads)
  {
  }

  lemma ShownMore(xs: seq<nat>, ring: seq<ListNode>, heads: map<nat, ListNode>, p: nat)
    requires Shown(xs, ring, heads) && p in heads
    ensures Shown([p] + xs, [heads[p]] + ring, heads) && Shown(xs + [p], ring + [heads[p]], heads)
  {
  }

  /** kMemCache with `slab_lock`. */
  class MemCache {
    const free: ListNode
    const used: ListNode
    const empty: ListNode
    var headers: map<nat, Header>
    /** The list node embedded in each slab structure. */
    var heads: map<nat, ListNode>
    var next_free: map<(nat, nat), BufPtr>
    /** Which buffer, if any, starts its user data at an address. */
    var memory: map<nat, (nat, nat)>
    var slab_locked: bool
    /** The values of the slabs and the page addresses on each list. */
    ghost var states: map<nat, Slab.Slab>
    /** Buffer size and count of each slab page, fixed when the slab is created. */
    ghost var layout: map<nat, (nat, nat)>
    ghost var lists: map<Name, seq<nat>>
    ghost var rings: RingTable
    ghost var nodes: set<ListNode>

    ghost function List(name: Name): ListNode {
      match name case Free => free case Used => used case Empty => empty
    }

    ghost predicate HeaderOk(p: nat)
      requires p in headers && p in states && p in layout
      reads this`headers, this`next_free, this`states, this`layout
    {
      HeaderMatches(headers[p], next_free, states[p], layout[p], p)
    }

    ghost predicate HeadersOk()
      reads this`headers, this`next_free, this`states, this`layout
    {
      && headers.Keys == states.Keys == layout.Keys
      && forall p :: p in headers ==> HeaderOk(p)
    }

    ghost predicate HeadsOk()
      reads this`heads, this`nodes
    {
      forall p :: p in heads ==> heads[p].id == p && heads[p] in nodes && heads[p] !in {free, used, empty}
    }

    ghost predicate NodesOk()
      reads this`heads, this`layout, this`nodes
    {
      HeadsOk() && heads.Keys == layout.Keys
    }

    /** The ring behind a list head holds the nodes of the listed slabs, in order. */
    ghost predicate ListOk(name: Name)
      reads this`heads, this`lists, this`rings
    {
      name in lists && List(name) in rings && Shown(lists[name], rings[List(name)], heads)
    }

    ghost predicate RingsOk()
      reads this`heads, this`lists, this`rings, this`nodes, nodes
    {
      && (forall a: Name, b: Name :: List(a) == List(b) ==> a == b)
      && (forall name: Name :: name in lists)
      && rings.Keys == {free, used, empty} && RingNodes(rings) <= nodes
      && AllRings(rings)
      && forall name: Name :: ListOk(name)
    }

    ghost predicate MemoryOk()
      reads this`layout, this`memory
    {
      MemoryMatches(memory, layout)
    }

    ghost predicate Valid()
      reads this, nodes
    {
      HeadersOk() && NodesOk() && RingsOk() && MemoryOk()
    }

    /** The state that headers, pointers and rings represent. */
    ghost function View(): Slab.Cache
      requires forall name: Name :: name in lists
      reads this`states, this`lists
    {
      Slab.Cache(states, lists[Free], lists[Used], lists[Empty])
    }

    constructor (f: ListNode, u: ListNode, e: ListNode, ghost table: RingTable)
      ensures free == f && used == u && empty == e && rings == table && nodes == {f, u, e} && !slab_locked
      ensures headers == map[] && heads == map[] && next_free == map[] && memory == map[]
      ensures states == map[] && layout == map[] && lists == map[Free := [], Used := [], Empty := []]
    {
      free, used, empty, slab_locked := f, u, e, false;
      headers, heads, next_free, memory := map[], map[], map[], map[];
      states, layout, lists := map[], map[], map[Free := [], Used := [], Empty := []];
      rings, nodes := table, {f, u, e};
    }

    /** The three empty lists with which init_slab_cache starts. */
    static method InitLists() returns (c: MemCache)
      ensures fresh(c) && fresh(c.nodes)
      ensures c.Valid() && c.View() == Slab.Cache(map[], [], [], []) && !c.slab_locked
    {
      hide AllRings, RingNodes, Ring, MemCache.HeadersOk, MemCache.RingsOk, MemCache.MemoryOk, MemCache.NodesOk;
      var f := new ListNode(0);
      var u := new ListNode(1);
      var e := new ListNode(2);
      ghost var table := ThreeRings(f, u, e);
      c := new MemCache(f, u, e, table);
      c.EmptyIsValid();
    }

    lemma EmptyIsValid()
      requires free != used && used != empty && free != empty
      requires rings == map[free := [], used := [], empty := []] && AllRings(rings) && RingNodes(rings) <= nodes
      requires headers == map[] && heads == map[] && memory == map[]
      requires states == map[] && layout == map[] && lists == map[Free := [], Used := [], Empty := []]
      ensures Valid()
    {
      hide AllRings, RingNodes;
      forall name: Name | true ensures name in lists && ListOk(name) {
        match name case Free => case Used => case Empty =>
      }
    }

    static lemma ThreeRings(f: ListNode, u: ListNode, e: ListNode) returns (table: RingTable)
      requires f != u && u != e && f != e && Ring(f, []) && Ring(u, []) && Ring(e, [])
      ensures table == map[f := [], u := [], e := []]
      ensures AllRings(table) && RingNodes(table) == {f, u, e}
    {
      table := map[f := [], u := [], e := []];
    }

    // -------------------------------------------------------------- the lists

    /** `list_remove(&s->head)`, with the slab at position `k` of a list. */
    method Unlink(p: nat, ghost name: Name, ghost k: nat)
      requires RingsOk() && p in heads && k < |lists[name]| && lists[name][k] == p
      modifies this`lists, this`rings, nodes
      ensures RingsOk() && lists == old(lists)[name := Without(old(lists)[name], k)]
      ensures heads[p] !in RingNodes(rings)
    {
      hide AllRings, RingNodes, Shown, Without;
      assert ListOk(name);
      ShownWithout(lists[name], rings[List(name)], heads, k);
      ListRemove(heads[p], rings, true, List(name), k);
      rings := rings[List(name) := Without(rings[List(name)], k)];
      lists := lists[name := Without(lists[name], k)];
      forall other: Name | other != name ensures ListOk(other) {
        assert old(ListOk(other));
      }
    }

    method LinkTail(p: nat, head: ListNode, ghost name: Name)
      requires RingsOk() && p in heads && heads[p] in nodes
      requires heads[p] !in RingNodes(rings) && head == List(name)
      modifies this`lists, this`rings, nodes
      ensures RingsOk() && lists == old(lists)[name := old(lists)[name] + [p]]
    {
      hide AllRings, RingNodes, Shown;
      assert ListOk(name);
      ShownMore(lists[name], rings[head], heads, p);
      ListAddTail(head, heads[p], rings);
      rings := rings[head := rings[head] + [heads[p]]];
      lists := lists[name := lists[name] + [p]];
      forall other: Name | other != name ensures ListOk(other) {
        assert old(ListOk(other));
      }
    }

    method LinkHead(p: nat, head: ListNode, ghost name: Name)
      requires RingsOk() && p in heads && heads[p] in nodes
      requires heads[p] !in RingNodes(rings) && head == List(name)
      modifies this`lists, this`rings, nodes
      ensures RingsOk() && lists == old(lists)[name := [p] + old(lists)[name]]
    {
      hide AllRings, RingNodes, Shown;
      assert ListOk(name);
      ShownMore(lists[name], rings[head], heads, p);
      ListAddHead(head, heads[p], rings);
      rings := rings[head := [heads[p]] + rings[head]];
      lists := lists[name := [p] + lists[name]];
      forall other: Name | other != name ensures ListOk(other) {
        assert old(ListOk(other));
      }
    }

    /** A slab moves from one list to the end of another. */
    method MoveTail(p: nat, ghost name: Name, ghost k: nat, head: ListNode, ghost to: Name)
      requires RingsOk() && p in heads && heads[p] in nodes && k < |lists[name]| && lists[name][k] == p
      requires head == List(to)
      modifies this`lists, this`rings, nodes
      ensures RingsOk()
      ensures var rest := old(lists)[name := Without(old(lists)[name], k)]; lists == rest[to := rest[to] + [p]]
    {
      hide RingsOk, RingNodes, Without;
      ListsKnown();
      Unlink(p, name, k);
      ListsKnown();
      LinkTail(p, head, to);
    }

    /** A slab moves from one list to the front of another. */
    method MoveHead(p: nat, ghost name: Name, ghost k: nat, head: ListNode, ghost to: Name)
      requires RingsOk() && p in heads && heads[p] in nodes && k < |lists[name]| && lists[name][k] == p
      requires head == List(to)
      modifies this`lists, this`rings, nodes
      ensures RingsOk()
      ensures var rest := old(lists)[name := Without(old(lists)[name], k)]; lists == rest[to := [p] + rest[to]]
    {
      hide RingsOk, RingNodes, Without;
      ListsKnown();
      Unlink(p, name, k);
      ListsKnown();
      LinkHead(p, head, to);
    }

    /** Position `k` of a list holds a slab of another size: the search goes on behind it. */
    static lemma NotHere(c: Slab.Cache, xs: seq<nat>, size: nat, k: nat)
      requires k < |xs| && xs[k] in c.slabs
      ensures c.slabs[xs[k]].size == size ==> Slab.Find(c, xs[k..], size) == 0
      ensures c.slabs[xs[k]].size != size ==> Slab.Find(c, xs[k..], size) == 1 + Slab.Find(c, xs[k + 1..], size)
    {
      assert xs[k..][0] == xs[k] && xs[k..][1..] == xs[k + 1..];
    }

    /** The scan of a slab list for a slab of the wanted size. */
    method Scan(size: nat, ghost name: Name, head: ListNode) returns (found: bool, page: nat)
      requires RingsOk() && NodesOk() && head == List(name)
      requires headers.Keys == states.Keys == heads.Keys && forall p :: p in headers ==>
                 headers[p].size == states[p].size
      ensures var k := Slab.Find(View(), lists[name], size);
              && (found <==> k < |lists[name]|)
              && (found ==> page in headers && page == lists[name][k])
    {
      hide AllRings, Ring, RingNodes, Slab.Find, RingsOk, NodesOk;
      IdsKnown();
      ListsKnown();
      ghost var c, xs := View(), lists[name];
      ghost var k := 0;
      ListRing(name);
      RingStep(head, rings[head], 0);
      var p := head.next;
      assert xs[0..] == xs;
      while p != head
        invariant k <= |xs| && p == Walk(head, rings[head])[k + 1]
        invariant Slab.Find(c, xs, size) == k + Slab.Find(c, xs[k..], size)
        decreases |xs| - k
      {
        assert k < |xs| && p == heads[xs[k]];
        NotHere(c, xs, size, k);
        page := p.id;
        if size == headers[page].size {
          return true, page;
        }
        RingStep(head, rings[head], k + 1);
        p := p.next;
        k := k + 1;
      }
      assert k == |xs|;
      found, page := false, 0;
    }

    lemma ListRing(name: Name)
      requires RingsOk()
      ensures ListOk(name) && Ring(List(name), rings[List(name)]) && List(name) !in rings[List(name)]
    {
      hide AllRings, RingNodes;
      assert ListOk(name);
      RingIn(rings, List(name));
    }

    lemma IdsKnown()
      requires NodesOk()
      ensures forall p :: p in heads ==> heads[p].id == p && heads[p] in nodes
    {
    }

    // -------------------------------------------------------------- salloc

    /** Take the first buffer off the chain of a slab. */
    method Pop(page: nat) returns (out: BufPtr)
      requires HeadersOk() && page in headers
      requires states[page].chain != [] && Distinct(states[page].chain)
      modifies this`states, this`headers, this`next_free
      ensures HeadersOk() && headers.Keys == old(headers).Keys
      ensures states == old(states)[page := Slab.Pop(old(states)[page])]
      ensures out == At(page, old(states)[page].chain[0])
    {
      hide HeaderMatches, Slab.Pop;
      var s := headers[page];
      assert HeaderOk(page);
      PopMatches(s, next_free, states[page], layout[page], page);
      ghost var links, first := next_free, (page, states[page].chain[0]);
      out := s.first_free;
      if out == Null {
        assert false; // the early return of salloc that would keep slab_lock
      }
      headers := headers[page := s.(alloc := s.alloc + 1, first_free := next_free[(out.page, out.index)])];
      next_free := next_free[(out.page, out.index) := Null];
      states := states[page := Slab.Pop(states[page])];
      forall p | p in headers && p != page ensures HeaderOk(p) {
        assert old(HeaderOk(p));
        HeaderElsewhere(headers[p], links, states[p], layout[p], p, first, Null);
      }
    }

    /** What salloc does, list by list, when the scans find a slab. */
    static lemma SallocSteps(c: Slab.Cache, size: nat)
      requires Slab.SallocSafe(c, size)
      ensures var k := Slab.Find(c, c.used, size);
              k < |c.used| ==>
                var p := c.used[k];
                var s := c.slabs[p];
                var full := s.alloc + 1 >= s.tot;
                Slab.Salloc(c, size) == Slab.Buffer(Slab.Cache(c.slabs[p := Slab.Pop(s)], c.free,
                  if full then Without(c.used, k) else c.used, if full then c.empty + [p] else c.empty), p, s.chain[0])
      ensures var k := Slab.Find(c, c.free, size);
              Slab.Find(c, c.used, size) == |c.used| && k < |c.free| ==>
                var p := c.free[k];
                var s := c.slabs[p];
                Slab.Salloc(c, size) == Slab.Buffer(Slab.Cache(c.slabs[p := Slab.Pop(s)], Without(c.free, k),
                  c.used + [p], c.empty), p, s.chain[0])
      ensures Slab.Find(c, c.used, size) == |c.used| && Slab.Find(c, c.free, size) == |c.free| ==>
                Slab.Salloc(c, size) == Slab.NoSlab
    {
      var k, j := Slab.Find(c, c.used, size), Slab.Find(c, c.free, size);
      if k < |c.used| {
        Slab.SallocUsedShape(c, size, c.used[k]);
        RemoveAtIndex(c.used, k);
      } else if j < |c.free| {
        Slab.SallocFreeShape(c, size, c.free[j]);
        RemoveAtIndex(c.free, j);
      }
    }

    /** salloc's work on the slab at position `k` of the partly used list. */
    method TakeUsed(page: nat, ghost k: nat) returns (out: BufPtr)
      requires HeadersOk() && RingsOk() && NodesOk() && page in headers
      requires k < |lists[Used]| && lists[Used][k] == page
      requires states[page].chain != [] && Distinct(states[page].chain)
      modifies this`states, this`headers, this`next_free, this`lists, this`rings, nodes
      ensures HeadersOk() && RingsOk()
      ensures states == old(states)[page := Slab.Pop(old(states)[page])]
      ensures var full := old(states)[page].alloc + 1 >= old(states)[page].tot;
              lists == if full
                       then old(lists)[Used := Without(old(lists)[Used], k)][Empty := old(lists)[Empty] + [page]]
                       else old(lists)
      ensures out == At(page, old(states)[page].chain[0])
    {
      hide RingsOk, HeaderOk, NodesOk, Without;
      SizesKnown();
      IdsKnown();
      ListsKnown();
      CountsKnown(page);
      out := Pop(page);
      CountsKnown(page);
      if headers[page].alloc >= headers[page].tot {
        MoveTail(page, Used, k, empty, Empty);
      }
    }

    /** salloc's work on the slab at position `k` of the free list. */
    method TakeFree(page: nat, ghost k: nat) returns (out: BufPtr)
      requires HeadersOk() && RingsOk() && NodesOk() && page in headers
      requires k < |lists[Free]| && lists[Free][k] == page
      requires states[page].chain != [] && Distinct(states[page].chain)
      modifies this`states, this`headers, this`next_free, this`lists, this`rings, nodes
      ensures HeadersOk() && RingsOk()
      ensures states == old(states)[page := Slab.Pop(old(states)[page])]
      ensures lists == old(lists)[Free := Without(old(lists)[Free], k)][Used := old(lists)[Used] + [page]]
      ensures out == At(page, old(states)[page].chain[0])
    {
      hide RingsOk, HeaderOk, NodesOk, Without;
      SizesKnown();
      IdsKnown();
      ListsKnown();
      out := Pop(page);
      MoveTail(page, Free, k, used, Used);
    }

    /** The two scans of salloc; `k` and `j` are where they stop. */
    method ScanLists(size: nat, ghost k: nat, ghost j: nat) returns (out: BufPtr)
      requires HeadersOk() && NodesOk() && RingsOk()
      requires k == Slab.Find(View(), lists[Used], size) && j == Slab.Find(View(), lists[Free], size)
      requires Slab.SallocSafe(View(), size)
      modifies this`states, this`headers, this`next_free, this`lists, this`rings, nodes
      ensures HeadersOk() && RingsOk()
      ensures if k < |old(lists)[Used]| then
                var p := old(lists)[Used][k];
                var s := old(states)[p];
                && states == old(states)[p := Slab.Pop(s)] && out == At(p, s.chain[0])
                && lists == if s.alloc + 1 >= s.tot
                            then old(lists)[Used := Without(old(lists)[Used], k)][Empty := old(lists)[Empty] + [p]]
                            else old(lists)
              else if j < |old(lists)[Free]| then
                var p := old(lists)[Free][j];
                var s := old(states)[p];
                && states == old(states)[p := Slab.Pop(s)] && out == At(p, s.chain[0])
                && lists == old(lists)[Free := Without(old(lists)[Free], j)][Used := old(lists)[Used] + [p]]
              else out == Null && states == old(states) && lists == old(lists)
    {
      hide AllRings, RingNodes, HeadersOk;
      SizesKnown();
      var found, page := Scan(size, Used, used);
      if found {
        out := TakeUsed(page, k);
        return;
      }
      found, page := Scan(size, Free, free);
      if found {
        out := TakeFree(page, j);
        return;
      }
      out := Null;
    }

    lemma SizesKnown()
      requires HeadersOk() && NodesOk()
      ensures headers.Keys == states.Keys == heads.Keys == layout.Keys
      ensures forall p :: p in headers ==>
        headers[p].size == states[p].size == layout[p].0 && headers[p].alloc == states[p].alloc
    {
    }

    /** salloc between taking and releasing the lock. */
    method FindBuffer(size: nat) returns (out: BufPtr)
      requires HeadersOk() && NodesOk() && RingsOk() && Slab.SallocSafe(View(), size)
      modifies this`states, this`headers, this`next_free, this`lists, this`rings, nodes
      ensures HeadersOk() && RingsOk()
      ensures match Slab.Salloc(old(View()), size)
              case Buffer(d, page, i) => View() == d && out == At(page, i) && page in states
              case _ => View() == old(View()) && out == Null
    {
      hide AllRings, RingNodes, HeadersOk, NodesOk;
      SallocSteps(View(), size);
      out := ScanLists(size, Slab.Find(View(), lists[Used], size), Slab.Find(View(), lists[Free], size));
    }

    /** salloc. Zero stands for NULL; the lock is released on every path. */
    method Salloc(size: nat) returns (outP: nat)
      requires Valid() && Slab.SallocSafe(View(), size) && !slab_locked
      modifies this`states, this`headers, this`next_free, this`lists, this`rings, this`slab_locked, nodes
      ensures Valid() && !slab_locked
      ensures match Slab.Salloc(old(View()), size)
              case Buffer(d, page, i) => View() == d && page in d.slabs
                  && outP == Slab.UserAddr(page, d.slabs[page].size, i)
              case _ => View() == old(View()) && outP == 0
    {
      hide AllRings, RingNodes, HeadersOk, NodesOk, MemoryOk, RingsOk, Slab.Salloc, Slab.SallocSafe, Slab.UserAddr;
      ListsKnown();
      slab_locked := true;
      var out := FindBuffer(size);
      outP := 0;
      if out != Null {
        SizesKnown();
        outP := Slab.UserAddr(out.page, headers[out.page].size, out.index);
      }
      slab_locked := false;
    }

    // -------------------------------------------------------------- sfree

    /** Put a buffer back at the front of the chain of its slab. */
    method Push(page: nat, index: nat)
      requires HeadersOk() && page in headers && states[page].alloc > 0 && index !in states[page].chain
      modifies this`states, this`headers, this`next_free
      ensures HeadersOk() && headers.Keys == old(headers).Keys
      ensures states == old(states)[page := Slab.Push(old(states)[page], index)]
    {
      hide HeaderMatches, Slab.Push;
      var s := headers[page];
      assert HeaderOk(page);
      PushMatches(s, next_free, states[page], layout[page], page, index);
      ghost var links := next_free;
      next_free := next_free[(page, index) := s.first_free];
      headers := headers[page := s.(alloc := s.alloc - 1, first_free := At(page, index))];
      states := states[page := Slab.Push(states[page], index)];
      forall p | p in headers && p != page ensures HeaderOk(p) {
        assert old(HeaderOk(p));
        HeaderElsewhere(headers[p], links, states[p], layout[p], p, (page, index), s.first_free);
      }
    }

    /** The part of sfree after its checks, for a slab at position `k` of a list. */
    method Return(page: nat, index: nat, ghost name: Name, ghost k: nat)
      requires HeadersOk() && RingsOk() && NodesOk() && page in headers
      requires states[page].alloc > 0 && index !in states[page].chain
      requires k < |lists[name]| && lists[name][k] == page
      modifies this`states, this`headers, this`next_free, this`lists, this`rings, nodes
      ensures HeadersOk() && RingsOk()
      ensures states == old(states)[page := Slab.Push(old(states)[page], index)]
      ensures var rest := old(lists)[name := Without(old(lists)[name], k)];
              lists == if old(states)[page].alloc == 1 then rest[Free := rest[Free] + [page]]
                       else rest[Used := [page] + rest[Used]]
    {
      hide RingsOk, HeadersOk, NodesOk, Without;
      SizesKnown();
      IdsKnown();
      ListsKnown();
      CountsKnown(page);
      Push(page, index);
      CountsKnown(page);
      if headers[page].alloc == 0 {
        MoveTail(page, name, k, free, Free);
      } else {
        MoveHead(page, name, k, used, Used);
      }
    }

    lemma CountsKnown(page: nat)
      requires HeadersOk() && page in headers
      ensures page in states && headers[page].alloc == states[page].alloc && headers[page].tot == states[page].tot
    {
      assert HeaderOk(page);
    }

    lemma BufferOfSlab(b: nat)
      requires MemoryOk()
      ensures b in memory ==> memory[b].0 in layout
    {
    }

    /** The body of sfree between taking and releasing the lock. */
    method Release(page: nat, index: nat, ghost name: Name)
      requires HeadersOk() && RingsOk() && NodesOk() && page in headers
      requires OnlyOn(View(), page, name) && states[page].alloc > 0 && index !in states[page].chain
      modifies this`states, this`headers, this`next_free, this`lists, this`rings, nodes
      ensures HeadersOk() && RingsOk() && View() == Slab.Sfree(old(View()), page, index)
    {
      hide RingsOk, HeadersOk, NodesOk, Without, Slab.Sfree, OnlyOn;
      ListsKnown();
      SizesKnown();
      OnListed(View(), page, name);
      assert lists[name] == Listed(View(), name);
      ghost var k :| 0 <= k < |lists[name]| && lists[name][k] == page;
      SfreeSteps(View(), page, index, name, k);
      Return(page, index, name, k);
    }

    /** sfree. On an address that is no slab buffer, or whose slab has nothing out, it
        changes nothing and returns FALSE; the lock is released on every path. */
    method Sfree(b: nat, ghost name: Name) returns (ok: bool)
      requires Valid() && !slab_locked
      requires b in memory ==> var (page, index) := memory[b];
        OnlyOn(View(), page, name) && (page in states && states[page].alloc > 0 ==> index !in states[page].chain)
      modifies this`states, this`headers, this`next_free, this`lists, this`rings, this`slab_locked, nodes
      ensures Valid() && !slab_locked
      ensures b in memory ==> memory[b].0 in old(states)
      ensures ok <==> b in memory && old(states)[memory[b].0].alloc > 0
      ensures View() == if b in memory then Slab.Sfree(old(View()), memory[b].0, memory[b].1) else old(View())
    {
      hide AllRings, RingNodes, HeadersOk, NodesOk, MemoryOk;
      SizesKnown();
      BufferOfSlab(b);
      slab_locked := true;
      ok := false;
      if b in memory {
        var (page, index) := memory[b];
        if headers[page].alloc > 0 {
          Release(page, index, name);
          ok := true;
        }
      }
      slab_locked := false;
    }

    // -------------------------------------------------------------- createSlab and reaping

    /** No buffer address of a slab of this size at `page` is in use. */
    ghost predicate FreshAddresses(page: nat, size: nat, tot: nat)
      reads this`memory
    {
      forall i: nat :: i <= tot ==> Slab.UserAddr(page, size, i) !in memory
    }

    /** The loop of createSlab: thread the `tot + 1` buffers of a new page on one chain. */
    method Thread(page: nat, size: nat, tot: nat)
      requires FreshAddresses(page, size, tot)
      modifies this`next_free, this`memory
      ensures forall i: nat :: i <= tot ==>
        (page, i) in next_free && next_free[(page, i)] == if i < tot then At(page, i + 1) else Null
      ensures forall q, i: nat :: q != page ==> ((q, i) in next_free <==> (q, i) in old(next_free))
      ensures forall q, i: nat :: q != page && (q, i) in next_free ==> next_free[(q, i)] == old(next_free)[(q, i)]
      ensures forall i: nat :: i <= tot ==>
                Slab.UserAddr(page, size, i) in memory && memory[Slab.UserAddr(page, size, i)] == (page, i)
      ensures forall a :: a in old(memory) ==> a in memory && memory[a] == old(memory)[a]
      ensures forall a :: a in memory && a !in old(memory) ==>
        memory[a].0 == page && memory[a].1 <= tot && a == Slab.UserAddr(page, size, memory[a].1)
    {
      var fb := Slab.UserAddr(page, size, 0);
      for i := 0 to tot + 1
        invariant fb == Slab.UserAddr(page, size, i)
        invariant forall k: nat :: k < i ==>
          (page, k) in next_free && next_free[(page, k)] == if k < tot then At(page, k + 1) else Null
        invariant forall q, k: nat :: q != page ==> ((q, k) in next_free <==> (q, k) in old(next_free))
        invariant forall q, k: nat :: q != page && (q, k) in next_free ==> next_free[(q, k)] == old(next_free)[(q, k)]
        invariant forall k: nat :: k < i ==>
                    Slab.UserAddr(page, size, k) in memory && memory[Slab.UserAddr(page, size, k)] == (page, k)
        invariant forall a :: a in old(memory) ==> a in memory && memory[a] == old(memory)[a]
        invariant forall a :: a in memory && a !in old(memory) ==>
          memory[a].0 == page && memory[a].1 < i && a == Slab.UserAddr(page, size, memory[a].1)
      {
        forall k: nat | k < i ensures Slab.UserAddr(page, size, k) < fb {
          Slab.OffsetOrder(size, k, i);
        }
        memory := memory[fb := (page, i)];
        next_free := next_free[(page, i) := if i < tot then At(page, i + 1) else Null];
        fb := fb + Slab.BUF_HEADER + size;
      }
    }

    /** The part of createSlab that fills in the header and the buffers. */
    method Carve(page: nat, size: nat)
      requires HeadersOk() && MemoryOk() && page !in headers && Slab.TotFor(size) >= 0
      requires FreshAddresses(page, size, Slab.TotFor(size))
      modifies this`headers, this`next_free, this`memory, this`states, this`layout
      ensures HeadersOk() && MemoryOk()
      ensures states == old(states)[page := Slab.NewSlab(size)]
      ensures layout.Keys == old(layout).Keys + {page}
    {
      hide MemoryMatches, HeaderMatches, Slab.NewSlab, Slab.UserAddr;
      ghost var mem, lay, links := memory, layout, next_free;
      var tot := BuffersFor(size);
      Thread(page, size, tot);
      MemoryExtended(mem, lay, memory, page, size, tot);
      NewHeaderMatches(next_free, page, size);
      forall p | p in headers ensures HeaderMatches(headers[p], next_free, states[p], layout[p], p) {
        assert old(HeaderOk(p));
        HeaderFramed(headers[p], links, next_free, states[p], layout[p], p);
      }
      headers := headers[page := Header(size, false, tot, 0, At(page, 0))];
      states := states[page := Slab.NewSlab(size)];
      layout := layout[page := (size, tot)];
    }

    /** `tot` of a new slab. */
    static method BuffersFor(size: nat) returns (tot: nat)
      requires Slab.TotFor(size) >= 0
      ensures tot == Slab.TotFor(size)
    {
      Slab.FitsIsQuotient(PAGE - Slab.SLAB_HEADER, size + Slab.BUF_HEADER);
      tot := (PAGE - Slab.SLAB_HEADER) / (size + Slab.BUF_HEADER) - 1;
    }

    /** `LIST_INIT(&slab->head)`. */
    method InitNode(page: nat)
      requires RingsOk() && HeadsOk() && page !in heads
      modifies this`heads, this`nodes
      ensures RingsOk() && HeadsOk() && heads.Keys == old(heads).Keys + {page}
      ensures nodes == old(nodes) + {heads[page]} && heads[page] !in RingNodes(rings) && fresh(heads[page])
    {
      hide AllRings;
      var node := new ListNode(page);
      heads := heads[page := node];
      nodes := nodes + {node};
      forall name: Name | true ensures ListOk(name) {
        assert old(ListOk(name));
      }
    }

    /** The part of createSlab that puts the slab on the free list. */
    method Enlist(page: nat)
      requires RingsOk() && HeadsOk() && page !in heads && !slab_locked
      modifies this`heads, this`nodes, this`lists, this`rings, this`slab_locked, nodes
      ensures RingsOk() && HeadsOk() && heads.Keys == old(heads).Keys + {page} && !slab_locked
      ensures nodes == old(nodes) + {heads[page]} && fresh(heads[page])
      ensures Free in old(lists) && lists == old(lists)[Free := old(lists)[Free] + [page]]
    {
      hide AllRings, RingNodes, RingsOk;
      ListsKnown();
      InitNode(page);
      slab_locked := true;
      LinkTail(page, free, Free);
      slab_locked := false;
    }

    /** createSlab on a page the page allocator just handed out. */
    method CreateSlab(page: nat, size: nat)
      requires Valid() && !slab_locked && page !in headers && Slab.TotFor(size) >= 0
      requires FreshAddresses(page, size, Slab.TotFor(size))
      modifies this, nodes
      ensures Valid() && !slab_locked
      ensures page in heads && nodes == old(nodes) + {heads[page]} && fresh(heads[page])
      ensures View() == Slab.CreateSlab(old(View()), page, size)
    {
      hide AllRings, RingNodes, HeadersOk, HeadsOk, MemoryOk, RingsOk, Slab.NewSlab, Slab.UserAddr;
      SizesKnown();
      ListsKnown();
      Carve(page, size);
      Enlist(page);
    }

    lemma ListsKnown()
      requires RingsOk()
      ensures forall name: Name :: name in lists
    {
    }

    method DropNode(page: nat)
      requires RingsOk() && HeadsOk() && forall name: Name :: name in lists ==> page !in lists[name]
      modifies this`heads
      ensures RingsOk() && HeadsOk() && heads == old(heads) - {page}
    {
      hide AllRings, RingNodes;
      heads := heads - {page};
      forall name: Name | true ensures ListOk(name) {
        assert old(ListOk(name));
        assert forall i :: 0 <= i < |lists[name]| ==> lists[name][i] in lists[name];
      }
    }

    /** The page stops holding a slab: no header, no buffers. */
    method DropHeader(page: nat)
      requires HeadersOk() && MemoryOk()
      modifies this`headers, this`memory, this`states, this`layout
      ensures HeadersOk() && MemoryOk() && layout == old(layout) - {page} && states == old(states) - {page}
    {
      hide MemoryMatches, HeaderMatches;
      MemoryReduced(memory, layout, page);
      headers := headers - {page};
      memory := map a | a in memory && memory[a].0 != page :: memory[a];
      states, layout := states - {page}, layout - {page};
      forall p | p in headers ensures HeaderOk(p) {
        assert old(HeaderOk(p));
      }
    }

    /** The reaper's `list_remove(&do_me->head)` and the page's return to plain memory,
        for the slab at position `k` of the free list. */
    method Forget(page: nat, ghost k: nat)
      requires Valid() && k < |lists[Free]| && lists[Free][k] == page && Distinct(lists[Free])
      requires forall name: Name :: name != Free ==> page !in lists[name]
      modifies this`headers, this`heads, this`memory, this`states, this`layout, this`lists, this`rings, nodes
      ensures Valid() && View() == Slab.ReapOne(old(View()), page)
      ensures lists == old(lists)[Free := Without(old(lists)[Free], k)] && heads == old(heads) - {page}
    {
      hide AllRings, RingNodes, ListOk, HeadsOk, HeadersOk, MemoryOk, Distinct, Without, Remove;
      FreeListed(k);
      WithoutIsGone(lists[Free], k);
      Unlink(page, Free, k);
      DropNode(page);
      DropHeader(page);
    }

    /** `s->pinned = TRUE`. */
    method Pin(page: nat)
      requires Valid() && page in headers
      modifies this`headers, this`states
      ensures Valid() && View() == Slab.SetPinned(old(View()), page)
    {
      hide AllRings, RingNodes, ListOk, HeadsOk, MemoryOk, Chained;
      headers := headers[page := headers[page].(pinned := true)];
      states := states[page := states[page].(pinned := true)];
      forall p | p in headers ensures HeaderOk(p) {
        assert old(HeaderOk(p));
      }
    }

    /** A page without a slab has no buffer address in it. */
    lemma PageIsFresh(page: nat, size: nat)
      requires MemoryOk() && HeadersOk() && page !in states && page % PAGE == 0
      requires Slab.MIN_SLAB_SIZE <= size <= Slab.MAX_SLAB_SIZE && Slab.TotFor(size) >= 0
      requires forall p :: p in states ==> Slab.SlabOk(states[p]) && p % PAGE == 0
      ensures FreshAddresses(page, size, Slab.TotFor(size))
    {
      forall i: nat | i <= Slab.TotFor(size) ensures Slab.UserAddr(page, size, i) !in memory {
        Slab.NewSlabOk(size);
        Slab.BufferInPage(Slab.NewSlab(size), page, i);
        forall a | a in memory ensures a != Slab.UserAddr(page, size, i) {
          var (p, j) := memory[a];
          assert HeaderOk(p);
          Slab.BufferInPage(states[p], p, j);
          Slab.PagesApart(p, page);
        }
      }
    }

    /** The node at position `k` of the free list, or the head behind its end. */
    ghost function NodeAt(k: nat): ListNode
      requires Free in lists && forall p :: p in lists[Free] ==> p in heads
      reads this`heads, this`lists
    {
      if k < |lists[Free]| then heads[lists[Free][k]] else free
    }

    /** What `list_for_each_safe` reads along the free list. */
    lemma FreeWalk(k: nat)
      requires RingsOk() && NodesOk()
      ensures forall p :: p in lists[Free] ==> p in heads
      ensures free.next == NodeAt(0)
      ensures NodeAt(k) != free <==> k < |lists[Free]|
      ensures k < |lists[Free]| ==> NodeAt(k).next == NodeAt(k + 1) && NodeAt(k).id == lists[Free][k]
    {
      hide AllRings, Ring, RingNodes;
      IdsKnown();
      assert ListOk(Free);
      RingIn(rings, free);
      RingStep(free, rings[free], 0);
      if k < |lists[Free]| {
        RingStep(free, rings[free], k + 1);
      }
    }

    lemma PinKnown(page: nat)
      requires HeadersOk() && page in headers
      ensures headers[page].pinned == states[page].pinned
    {
      assert HeaderOk(page);
    }

    lemma FreeListed(k: nat)
      requires RingsOk() && k < |lists[Free]|
      ensures lists[Free][k] in heads
    {
      assert ListOk(Free);
    }
  }
}
