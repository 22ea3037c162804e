/** The buddy allocator of mem/buddy.c as a state machine on values.

    A state holds, for every page frame of the zone, the `order` and `free`
    fields of its `BuddyBlockNew` record, the eleven free lists as sequences of
    page numbers in list order, and the blocks handed out and not yet returned. */
module Buddy {
  import opened Blocks
  import opened Seqs

  datatype State = State(
    tot: nat,
    order: seq<nat>,
    free: seq<bool>,
    lists: seq<seq<nat>>,
    live: map<nat, nat>)

  /** `Panic` is the kernel stopping in `panic`. */
  datatype AllocResult = Panic | Got(s: State, pfn: nat)
  datatype FreeResult = FreePanic | Freed(s: State)

  function Set<T>(xs: seq<T>, i: nat, x: T): (r: seq<T>)
    ensures |r| == |xs|
    ensures i < |xs| ==> r == xs[i := x]
  {
    if i < |xs| then xs[i := x] else xs
  }

  function OrderOf(s: State, p: nat): nat {
    if p < |s.order| then s.order[p] else 0
  }

  predicate IsFree(s: State, p: nat) {
    p < |s.free| && s.free[p]
  }

  function ListOf(s: State, o: nat): seq<nat> {
    if o < |s.lists| then s.lists[o] else []
  }

  // ---------------------------------------------------------------- invariant

  /** Page `p` is the first page of a free or a live block. */
  predicate Head(s: State, p: nat) {
    IsFree(s, p) || p in s.live
  }

  /** Page `x` lies in the block headed by `p`. */
  predicate Owns(s: State, p: nat, x: nat) {
    Head(s, p) && p <= x < p + Pages(OrderOf(s, p))
  }

  predicate Shape(s: State) {
    && |s.order| == |s.free| == s.tot
    && |s.lists| == MAX_ORDER + 1
    && Aligned(s.tot, MAX_ORDER)
  }

  ghost predicate ListedAreFree(s: State) {
    forall o: nat, p: nat :: p in ListOf(s, o) ==> IsFree(s, p) && OrderOf(s, p) == o
  }

  /** `free` is set exactly on the heads linked in the list of their own order. */
  ghost predicate ListsExact(s: State) {
    && ListedAreFree(s)
    && (forall p: nat :: IsFree(s, p) ==> p in ListOf(s, OrderOf(s, p)))
    && (forall o: nat :: Distinct(ListOf(s, o)))
  }

  ghost predicate LiveExact(s: State) {
    forall p: nat :: p in s.live ==> p < s.tot && !IsFree(s, p) && OrderOf(s, p) == s.live[p] <= MAX_ORDER
  }

  ghost predicate Placed(s: State) {
    forall p: nat :: Head(s, p) ==> Aligned(p, OrderOf(s, p)) && p + Pages(OrderOf(s, p)) <= s.tot
  }

  ghost predicate Apart(s: State) {
    forall p: nat, q: nat :: p < q && Head(s, p) && Head(s, q) ==> p + Pages(OrderOf(s, p)) <= q
  }

  ghost predicate Covered(s: State, x: nat) {
    exists p :: Owns(s, p, x)
  }

  /** Every page of the zone lies in exactly one block. */
  ghost predicate Tiled(s: State) {
    && Apart(s)
    && forall x: nat :: x < s.tot ==> Covered(s, x)
  }

  /** calc_free_buddy: the buddy of a block is free and of the same order. */
  predicate FreeBuddy(s: State, p: nat, o: nat) {
    IsFree(s, BuddyOf(p, o)) && OrderOf(s, BuddyOf(p, o)) == o
  }

  /** No two halves of a larger block are both free. */
  ghost predicate Coalesced(s: State) {
    forall p: nat :: IsFree(s, p) && OrderOf(s, p) < MAX_ORDER ==> !FreeBuddy(s, p, OrderOf(s, p))
  }

  ghost predicate Inv(s: State) {
    && Shape(s)
    && ListsExact(s)
    && LiveExact(s)
    && Placed(s)
    && Tiled(s)
    && Coalesced(s)
  }

  lemma InvParts(s: State)
    requires Inv(s)
    ensures Shape(s) && ListedAreFree(s) && LiveExact(s) && Placed(s) && Apart(s)
  {
  }

  lemma NotFreeNotListed(s: State, p: nat, o: nat)
    requires ListedAreFree(s) && !IsFree(s, p)
    ensures p !in ListOf(s, o)
  {
  }

  // ---------------------------------------------------------------- the four elementary moves

  /** Remove the first block of a non-empty list and hand it out. */
  function Take(s: State, o: nat): State {
    var l := ListOf(s, o);
    if l == [] then s else
      s.(free := Set(s.free, l[0], false), lists := Set(s.lists, o, l[1..]), live := s.live[l[0] := o])
  }

  /** Shrink a block in hand to its lower half and free the upper half. */
  function Split(s: State, p: nat, o: nat): State {
    var b := p + Pages(o);
    s.(order := Set(Set(s.order, p, o), b, o),
       free := Set(Set(s.free, b, true), p, false),
       lists := Set(s.lists, o, [b] + ListOf(s, o)),
       live := s.live[p := o])
  }

  /** Unlink the free buddy of `b` and hand out the joined block instead of `b`. */
  function Merge(s: State, b: nat): State {
    var o := OrderOf(s, b);
    var q := BuddyOf(b, o);
    var base := MergeBase(s, b);
    s.(order := Set(s.order, base, o + 1),
       free := Set(s.free, q, false),
       lists := Set(s.lists, o, Remove(ListOf(s, o), q)),
       live := (s.live - {b})[base := o + 1])
  }

  /** The first page of the block that merging `b` with its buddy yields. */
  function MergeBase(s: State, b: nat): nat {
    var q := BuddyOf(b, OrderOf(s, b));
    if b > q then q else b
  }

  /** Link a block in hand at the head of its list. */
  function Put(s: State, b: nat): State {
    var o := OrderOf(s, b);
    s.(free := Set(s.free, b, true), lists := Set(s.lists, o, [b] + ListOf(s, o)), live := s.live - {b})
  }

  /** get_buddy_new. */
  function Get(s: State, o: nat): AllocResult
    decreases MAX_ORDER + 1 - o
  {
    if o > MAX_ORDER then Panic
    else if ListOf(s, o) != [] then Got(Take(s, o), ListOf(s, o)[0])
    else if o == MAX_ORDER then Panic
    else
      match Get(s, o + 1)
      case Panic => Panic
      case Got(t, p) => Got(Split(t, p, o), p)
  }

  /** free_buddy_new after its panics, for a block in hand of order `o`. */
  function Free(s: State, b: nat, o: nat): State
    decreases MAX_ORDER - o
  {
    if o < MAX_ORDER && FreeBuddy(s, b, o) then
      Free(Merge(s, b), MergeBase(s, b), o + 1)
    else Put(s, b)
  }

  /** free_buddy_new with its panics. */
  function Release(s: State, b: nat): FreeResult {
    if OrderOf(s, b) > MAX_ORDER || IsFree(s, b) then FreePanic
    else Freed(Free(s, b, OrderOf(s, b)))
  }

  /** init_buddy_new: every block of the largest order is free, in ascending order. */
  function Init(blocks: nat): State {
    State(blocks * TOP,
          seq(blocks * TOP, i => if i % TOP == 0 then MAX_ORDER else 0),
          seq(blocks * TOP, i => i % TOP == 0),
          seq(MAX_ORDER, _ => []) + [seq(blocks, i => i * TOP)],
          map[])
  }

  // ---------------------------------------------------------------- lists under the moves

  /** Linking a new block at the head of its list keeps the lists exact. */
  lemma LinkKeepsLists(s: State, t: State, b: nat, o: nat)
    requires Shape(s) && Shape(t) && ListsExact(s) && t.tot == s.tot
    requires b < s.tot && o <= MAX_ORDER && !IsFree(s, b)
    requires t.lists == Set(s.lists, o, [b] + ListOf(s, o)) && t.free == Set(s.free, b, true)
    requires OrderOf(t, b) == o && forall p: nat :: IsFree(s, p) ==> OrderOf(t, p) == OrderOf(s, p)
    ensures ListsExact(t)
  {
    assert b !in ListOf(s, o);
    DistinctExtended(ListOf(s, o), b);
    forall k: nat | true
      ensures ListOf(t, k) == if k == o then [b] + ListOf(s, o) else ListOf(s, k)
    {
    }
    forall k: nat, p: nat | p in ListOf(t, k) ensures IsFree(t, p) && OrderOf(t, p) == k {
      if p != b || k != o {
        assert p in ListOf(s, k) && IsFree(s, p);
      }
    }
    forall p: nat | IsFree(t, p) ensures p in ListOf(t, OrderOf(t, p)) {
      if p != b {
        assert IsFree(s, p) && p in ListOf(s, OrderOf(s, p));
      }
    }
    forall k: nat | true ensures Distinct(ListOf(t, k)) {
      assert Distinct(ListOf(s, k));
    }
  }

  /** Unlinking a block from its list keeps the lists exact. */
  lemma UnlinkKeepsLists(s: State, t: State, q: nat, o: nat)
    requires Shape(s) && Shape(t) && ListsExact(s) && t.tot == s.tot
    requires o <= MAX_ORDER && q in ListOf(s, o)
    requires t.lists == Set(s.lists, o, Remove(ListOf(s, o), q)) && t.free == Set(s.free, q, false)
    requires forall p: nat :: IsFree(t, p) ==> OrderOf(t, p) == OrderOf(s, p)
    ensures ListsExact(t)
  {
    assert IsFree(s, q) && OrderOf(s, q) == o;
    RemoveFacts(ListOf(s, o), q);
    forall k: nat | true ensures Distinct(ListOf(t, k)) {
      assert Distinct(ListOf(s, k));
    }
    forall k: nat, p: nat | p in ListOf(t, k) ensures IsFree(t, p) && OrderOf(t, p) == k {
      assert p in ListOf(s, k) && IsFree(s, p) && OrderOf(s, p) == k;
    }
    forall p: nat | IsFree(t, p) ensures p in ListOf(t, OrderOf(t, p)) {
      assert IsFree(s, p) && p in ListOf(s, OrderOf(s, p));
    }
  }

  // ---------------------------------------------------------------- tiles under the moves

  /** Moving heads between free and live changes no tile. */
  lemma SameTiles(s: State, t: State)
    requires t.tot == s.tot && t.order == s.order && Placed(s) && Tiled(s)
    requires forall p: nat :: Head(t, p) <==> Head(s, p)
    ensures Placed(t) && Tiled(t)
  {
    forall x: nat | x < t.tot ensures Covered(t, x) {
      assert Covered(s, x);
      var q :| Owns(s, q, x);
      assert Owns(t, q, x);
    }
  }

  /** `halves` is `whole` with the block at `p` cut in two blocks of order `o`. */
  ghost predicate Halved(whole: State, halves: State, p: nat, o: nat) {
    var b := p + Pages(o);
    && halves.tot == whole.tot
    && Head(whole, p) && OrderOf(whole, p) == o + 1 && !Head(whole, b)
    && Head(halves, p) && Head(halves, b) && OrderOf(halves, p) == OrderOf(halves, b) == o
    && (forall q: nat :: q != p && q != b ==> (Head(whole, q) <==> Head(halves, q)))
    && (forall q: nat :: q != p && q != b && Head(whole, q) ==> OrderOf(whole, q) == OrderOf(halves, q))
  }

  lemma HalvedApart(whole: State, halves: State, p: nat, o: nat)
    requires Halved(whole, halves, p, o)
    ensures Apart(whole) <==> Apart(halves)
  {
    var b := p + Pages(o);
    assert Pages(o + 1) == 2 * Pages(o);
    if Apart(whole) {
      forall x: nat, y: nat | x < y && Head(halves, x) && Head(halves, y)
        ensures x + Pages(OrderOf(halves, x)) <= y
      {
        assert x != p && x != b && y == b ==> x + Pages(OrderOf(whole, x)) <= p || p < x;
      }
    }
    if Apart(halves) {
      forall x: nat, y: nat | x < y && Head(whole, x) && Head(whole, y)
        ensures x + Pages(OrderOf(whole, x)) <= y
      {
        assert x == p ==> b + Pages(o) <= y || y < b;
      }
    }
  }

  lemma HalvedCovered(whole: State, halves: State, p: nat, o: nat, x: nat)
    requires Halved(whole, halves, p, o)
    ensures Covered(whole, x) <==> Covered(halves, x)
  {
    var b := p + Pages(o);
    assert Pages(o + 1) == 2 * Pages(o);
    if Covered(whole, x) {
      var q :| Owns(whole, q, x);
      assert if q == p && x >= b then Owns(halves, b, x) else Owns(halves, q, x);
    }
    if Covered(halves, x) {
      var q :| Owns(halves, q, x);
      assert if q == b then Owns(whole, p, x) else Owns(whole, q, x);
    }
  }

  lemma HalvedTiled(whole: State, halves: State, p: nat, o: nat)
    requires Halved(whole, halves, p, o)
    ensures Tiled(whole) <==> Tiled(halves)
  {
    HalvedApart(whole, halves, p, o);
    forall x: nat | x < whole.tot ensures Covered(whole, x) <==> Covered(halves, x) {
      HalvedCovered(whole, halves, p, o, x);
    }
  }

  lemma HalvedPlaced(whole: State, halves: State, p: nat, o: nat)
    requires Halved(whole, halves, p, o) && Aligned(p, o + 1) && p + 2 * Pages(o) <= whole.tot
    ensures Placed(whole) <==> Placed(halves)
  {
    BuddyFacts(p, o);
    assert Pages(o + 1) == 2 * Pages(o);
  }

  // ---------------------------------------------------------------- free blocks stay coalesced

  /** Freeing one more head keeps blocks coalesced if its buddy is not free. */
  lemma FreeingKeepsCoalesced(s: State, t: State, b: nat)
    requires Placed(s) && Coalesced(s)
    requires t.free == Set(s.free, b, true)
    requires forall p: nat :: IsFree(s, p) ==> OrderOf(t, p) == OrderOf(s, p)
    requires Aligned(b, OrderOf(t, b))
    requires OrderOf(t, b) < MAX_ORDER ==> !FreeBuddy(t, b, OrderOf(t, b))
    ensures Coalesced(t)
  {
    forall q: nat | IsFree(t, q) && OrderOf(t, q) < MAX_ORDER ensures !FreeBuddy(t, q, OrderOf(t, q)) {
      if q != b {
        assert Head(s, q) && !FreeBuddy(s, q, OrderOf(s, q));
        BuddySymmetric(q, OrderOf(t, q));
      }
    }
  }

  lemma TakingKeepsCoalesced(s: State, t: State, b: nat)
    requires Coalesced(s) && t.free == Set(s.free, b, false)
    requires forall p: nat :: IsFree(t, p) ==> OrderOf(t, p) == OrderOf(s, p)
    ensures Coalesced(t)
  {
    forall q: nat | IsFree(t, q) && OrderOf(t, q) < MAX_ORDER ensures !FreeBuddy(t, q, OrderOf(t, q)) {
      assert IsFree(s, q) && !FreeBuddy(s, q, OrderOf(s, q));
    }
  }

  // ---------------------------------------------------------------- moves keep the invariant

  lemma TakeKeeps(s: State, o: nat)
    requires Inv(s) && ListOf(s, o) != []
    ensures Inv(Take(s, o)) && ListOf(s, o)[0] !in s.live
  {
    var p := ListOf(s, o)[0];
    var t := Take(s, o);
    assert p in ListOf(s, o);
    assert IsFree(s, p) && OrderOf(s, p) == o;
    forall q: nat | q in t.live ensures q < t.tot && !IsFree(t, q) && OrderOf(t, q) == t.live[q] <= MAX_ORDER {
      assert q != p ==> q in s.live;
    }
    UnlinkKeepsLists(s, t, p, o);
    SameTiles(s, t);
    TakingKeepsCoalesced(s, t, p);
  }

  lemma PutKeeps(s: State, b: nat)
    requires Inv(s) && b in s.live
    requires OrderOf(s, b) < MAX_ORDER ==> !FreeBuddy(s, b, OrderOf(s, b))
    ensures Inv(Put(s, b))
  {
    var t := Put(s, b);
    assert Head(s, b);
    LinkKeepsLists(s, t, b, OrderOf(s, b));
    SameTiles(s, t);
    FreeingKeepsCoalesced(s, t, b);
  }

  /** The fields after a split inside the zone. */
  lemma SplitFields(s: State, p: nat, o: nat)
    requires Shape(s) && p + Pages(o) < s.tot
    ensures var t, b := Split(s, p, o), p + Pages(o);
            && t.tot == s.tot && t.live == s.live[p := o]
            && (forall q: nat :: IsFree(t, q) <==> q != p && (q == b || IsFree(s, q)))
            && (forall q: nat :: OrderOf(t, q) == if q == p || q == b then o else OrderOf(s, q))
  {
    hide Aligned;
  }

  lemma UpperHalf(s: State, p: nat, o: nat)
    requires Placed(s) && Apart(s) && LiveExact(s) && p in s.live && s.live[p] == o + 1
    ensures Head(s, p) && OrderOf(s, p) == o + 1 && Aligned(p, o + 1) && p + 2 * Pages(o) <= s.tot
    ensures !Head(s, p + Pages(o)) && !IsFree(s, p + Pages(o))
  {
    hide Aligned;
    assert Head(s, p) && Pages(o + 1) == 2 * Pages(o);
    assert !Head(s, p + Pages(o));
  }

  /** The upper half of a live block is not a head, so a split is a cut in two. */
  lemma SplitHalved(s: State, p: nat, o: nat)
    requires Shape(s) && Placed(s) && Apart(s) && LiveExact(s)
    requires o < MAX_ORDER && p in s.live && s.live[p] == o + 1
    ensures Halved(s, Split(s, p, o), p, o) && Aligned(p, o + 1) && p + 2 * Pages(o) <= s.tot
  {
    hide Split, Aligned, Pages, Placed, Apart, LiveExact;
    UpperHalf(s, p, o);
    SplitFields(s, p, o);
  }

  /** The upper half of a live block is inside the zone and on no list. */
  lemma SplitInBounds(s: State, p: nat, o: nat)
    requires Inv(s) && o < MAX_ORDER && p in s.live && s.live[p] == o + 1
    ensures p + Pages(o) < s.tot && !IsFree(s, p + Pages(o)) && p < s.tot
    ensures forall k: nat :: k <= MAX_ORDER ==> p + Pages(o) !in ListOf(s, k)
  {
    hide Inv, Shape, Placed, Apart, LiveExact, ListedAreFree, ListOf, Aligned, Pages, IsFree;
    InvParts(s);
    UpperHalf(s, p, o);
    var b := p + Pages(o);
    forall k: nat | k <= MAX_ORDER ensures b !in ListOf(s, k) {
      NotFreeNotListed(s, b, k);
    }
  }

  lemma SplitShape(s: State, p: nat, o: nat)
    requires Shape(s) && Placed(s) && Apart(s) && LiveExact(s)
    requires o < MAX_ORDER && p in s.live && s.live[p] == o + 1
    ensures Shape(Split(s, p, o)) && LiveExact(Split(s, p, o))
  {
    hide Placed, Apart, Aligned, Pages;
    UpperHalf(s, p, o);
    SplitFields(s, p, o);
  }

  lemma SplitLists(s: State, p: nat, o: nat)
    requires Shape(s) && Shape(Split(s, p, o)) && Placed(s) && Apart(s) && LiveExact(s) && ListsExact(s)
    requires o < MAX_ORDER && p in s.live && s.live[p] == o + 1
    ensures ListsExact(Split(s, p, o)) && Split(s, p, o).free == Set(s.free, p + Pages(o), true)
  {
    hide Placed, Apart, Aligned, Pages, ListsExact, LiveExact, ListOf;
    UpperHalf(s, p, o);
    SplitFields(s, p, o);
    LiveNotFree(s, p);
    FreeAfterSplit(s, p, o);
    LinkKeepsLists(s, Split(s, p, o), p + Pages(o), o);
  }

  lemma FreeAfterSplit(s: State, p: nat, o: nat)
    requires Shape(s) && p < s.tot && !IsFree(s, p)
    ensures Split(s, p, o).free == Set(s.free, p + Pages(o), true)
  {
    hide Aligned, Pages, ListOf;
    SetAgain(s.free, p, p + Pages(o));
  }

  lemma SetAgain(free: seq<bool>, p: nat, b: nat)
    requires p < |free| && !free[p] && p != b
    ensures Set(Set(free, b, true), p, false) == Set(free, b, true)
  {
  }

  /** A live block is no free one, nor the other way round. */
  lemma LiveNotFree(s: State, b: nat)
    requires LiveExact(s) && b in s.live
    ensures b < s.tot && !IsFree(s, b) && forall q: nat :: IsFree(s, q) ==> q !in s.live
  {
  }

  lemma SplitCoalesced(s: State, p: nat, o: nat)
    requires Shape(s) && Placed(s) && Apart(s) && LiveExact(s) && Coalesced(s)
    requires Split(s, p, o).free == Set(s.free, p + Pages(o), true)
    requires o < MAX_ORDER && p in s.live && s.live[p] == o + 1
    ensures Coalesced(Split(s, p, o))
  {
    hide Placed, Apart, Coalesced;
    UpperHalf(s, p, o);
    SplitFields(s, p, o);
    BuddyFacts(p, o);
    BuddySymmetric(p, o);
    assert !IsFree(s, p);
    FreeingKeepsCoalesced(s, Split(s, p, o), p + Pages(o));
  }

  lemma SplitKeeps(s: State, p: nat, o: nat)
    requires Inv(s) && o < MAX_ORDER && p in s.live && s.live[p] == o + 1
    ensures Inv(Split(s, p, o))
  {
    hide Shape, ListsExact, LiveExact, Placed, Apart, Coalesced, Split, Halved;
    var t := Split(s, p, o);
    SplitHalved(s, p, o);
    HalvedTiled(s, t, p, o);
    HalvedPlaced(s, t, p, o);
    SplitShape(s, p, o);
    SplitLists(s, p, o);
    SplitCoalesced(s, p, o);
  }

  /** The fields after a merge. */
  lemma MergeFields(s: State, b: nat)
    requires Shape(s) && FreeBuddy(s, b, OrderOf(s, b)) && b < s.tot && !IsFree(s, b)
    ensures var t, o, base := Merge(s, b), OrderOf(s, b), MergeBase(s, b);
            var q := BuddyOf(b, o);
            && t.tot == s.tot && t.live == (s.live - {b})[base := o + 1] && q < s.tot && q != b
            && base == (if b > q then q else b)
            && (forall x: nat :: IsFree(t, x) <==> x != q && IsFree(s, x))
            && (forall x: nat :: OrderOf(t, x) == if x == base then o + 1 else OrderOf(s, x))
  {
    hide Aligned, Pages;
  }

  /** Of two buddies the lower one is the start of the joined block. */
  lemma JoinedBlock(b: nat, o: nat, tot: nat)
    requires Aligned(b, o) && Aligned(BuddyOf(b, o), o)
    requires b + Pages(o) <= tot && BuddyOf(b, o) + Pages(o) <= tot
    ensures var q := BuddyOf(b, o);
            var base := if b > q then q else b;
            && q != b && Aligned(base, o + 1) && base + 2 * Pages(o) <= tot
            && (if b > q then b else q) == base + Pages(o)
  {
    BuddyFacts(b, o);
  }

  lemma MergeHalved(s: State, b: nat)
    requires Shape(s) && Placed(s) && b in s.live && b < s.tot && !IsFree(s, b)
    requires FreeBuddy(s, b, OrderOf(s, b)) && BuddyOf(b, OrderOf(s, b)) !in s.live
    ensures var o := OrderOf(s, b);
            var base := MergeBase(s, b);
            && Halved(Merge(s, b), s, base, o) && Aligned(base, o + 1) && base + 2 * Pages(o) <= s.tot
            && Merge(s, b).tot == s.tot
  {
    var o := OrderOf(s, b);
    var q := BuddyOf(b, o);
    assert Head(s, b) && Head(s, q);
    JoinedBlock(b, o, s.tot);
    MergeFields(s, b);
    hide Merge, Aligned, Pages, Placed, BuddyOf;
  }

  lemma MergeShape(s: State, b: nat)
    requires Shape(s) && LiveExact(s) && b in s.live && OrderOf(s, b) < MAX_ORDER && FreeBuddy(s, b, OrderOf(s, b))
    ensures Shape(Merge(s, b)) && LiveExact(Merge(s, b))
  {
    hide Aligned, Pages;
    MergeFields(s, b);
  }

  lemma MergeLists(s: State, b: nat)
    requires Shape(s) && Shape(Merge(s, b)) && LiveExact(s) && ListsExact(s)
    requires b in s.live && OrderOf(s, b) < MAX_ORDER && FreeBuddy(s, b, OrderOf(s, b))
    ensures ListsExact(Merge(s, b))
  {
    hide Aligned, Pages;
    var o := OrderOf(s, b);
    var q := BuddyOf(b, o);
    MergeFields(s, b);
    assert q in ListOf(s, o);
    hide ListsExact, LiveExact;
    UnlinkKeepsLists(s, Merge(s, b), q, o);
  }

  lemma MergeCoalesced(s: State, b: nat)
    requires Shape(s) && LiveExact(s) && Coalesced(s)
    requires b in s.live && OrderOf(s, b) < MAX_ORDER && FreeBuddy(s, b, OrderOf(s, b))
    ensures Coalesced(Merge(s, b))
  {
    hide Aligned, Pages, Coalesced;
    MergeFields(s, b);
    TakingKeepsCoalesced(s, Merge(s, b), BuddyOf(b, OrderOf(s, b)));
  }

  lemma MergeKeeps(s: State, b: nat)
    requires Inv(s) && b in s.live && OrderOf(s, b) < MAX_ORDER && FreeBuddy(s, b, OrderOf(s, b))
    ensures Inv(Merge(s, b))
  {
    hide Shape, ListsExact, LiveExact, Placed, Apart, Coalesced, Merge, Halved, MergeBase;
    var o := OrderOf(s, b);
    var base := MergeBase(s, b);
    var t := Merge(s, b);
    LiveNotFree(s, b);
    MergeHalved(s, b);
    HalvedTiled(t, s, base, o);
    HalvedPlaced(t, s, base, o);
    MergeShape(s, b);
    MergeLists(s, b);
    MergeCoalesced(s, b);
  }

  // ---------------------------------------------------------------- allocation and release

  /** An allocation records one block of the requested order as handed out. */
  lemma {:induction false} GetEffect(s: State, o: nat)
    requires Get(s, o).Got?
    ensures Get(s, o).s.live == s.live[Get(s, o).pfn := o]
    ensures Get(s, o).s.tot == s.tot
    decreases MAX_ORDER + 1 - o
  {
    if ListOf(s, o) == [] {
      GetEffect(s, o + 1);
    }
  }

  /** An allocation keeps the invariant; the block it hands out was not out before. */
  lemma {:induction false} GetKeeps(s: State, o: nat)
    requires Inv(s) && Get(s, o).Got?
    ensures Inv(Get(s, o).s) && Get(s, o).pfn !in s.live
    decreases MAX_ORDER + 1 - o
  {
    hide Inv, Take, Split, ListOf;
    if ListOf(s, o) != [] {
      TakeKeeps(s, o);
    } else {
      GetKeeps(s, o + 1);
      GetEffect(s, o + 1);
      SplitKeeps(Get(s, o + 1).s, Get(s, o + 1).pfn, o);
    }
  }

  lemma MergeEffect(s: State, b: nat)
    requires LiveExact(s) && b in s.live && FreeBuddy(s, b, OrderOf(s, b))
    ensures var base := MergeBase(s, b);
            && base in Merge(s, b).live && Merge(s, b).live[base] == OrderOf(s, b) + 1
            && Merge(s, b).live - {base} == s.live - {b}
  {
    assert BuddyOf(b, OrderOf(s, b)) !in s.live;
  }

  /** A release keeps the invariant and forgets exactly the released block. */
  lemma {:induction false} FreeKeeps(s: State, b: nat, o: nat)
    requires Inv(s) && b in s.live && OrderOf(s, b) == o
    ensures Inv(Free(s, b, o)) && Free(s, b, o).tot == s.tot && Free(s, b, o).live == s.live - {b}
    decreases MAX_ORDER - o
  {
    if o < MAX_ORDER && FreeBuddy(s, b, o) {
      MergeKeeps(s, b);
      MergeEffect(s, b);
      LiveOrder(Merge(s, b), MergeBase(s, b));
      FreeKeeps(Merge(s, b), MergeBase(s, b), o + 1);
    } else {
      PutKeeps(s, b);
    }
  }

  lemma LiveOrder(s: State, b: nat)
    requires LiveExact(s) && b in s.live
    ensures OrderOf(s, b) == s.live[b]
  {
  }
}
