/** What every history of the buddy allocator satisfies. */
module BuddyTheorems {
  import opened Blocks
  import opened Buddy
  import opened Seqs

  // ---------------------------------------------------------------- the initial state

  lemma {:induction false} MultipleAligned(k: nat, order: nat)
    ensures Aligned(k * Pages(order), order)
  {
    if order > 0 {
      MultipleAligned(k, order - 1);
      var m := k * Pages(order - 1);
      assert k * Pages(order) == 2 * m;
    }
  }

  /** The free blocks of the initial state are the multiples of the largest block. */
  lemma InitHeads(blocks: nat, p: nat)
    ensures var s := Init(blocks);
            && (IsFree(s, p) <==> p < s.tot && p % TOP == 0)
            && (p in ListOf(s, MAX_ORDER) <==> IsFree(s, p))
            && (IsFree(s, p) ==> Aligned(p, MAX_ORDER) && p + TOP <= s.tot && OrderOf(s, p) == MAX_ORDER)
  {
    var s := Init(blocks);
    var l := ListOf(s, MAX_ORDER);
    assert l == seq(blocks, i => i * TOP);
    TopPages();
    MultipleAligned(p / TOP, MAX_ORDER);
    if IsFree(s, p) {
      assert l[p / TOP] == p;
    }
  }

  /** Free heads at the multiples of the largest block, all in the list of the largest order. */
  ghost predicate TopBlocksFree(s: State) {
    && s.live == map[]
    && (forall p: nat :: IsFree(s, p) <==> p < s.tot && p % TOP == 0)
    && (forall p: nat :: p in ListOf(s, MAX_ORDER) <==> IsFree(s, p))
    && (forall p: nat :: IsFree(s, p) ==>
          Aligned(p, MAX_ORDER) && p + TOP <= s.tot && OrderOf(s, p) == MAX_ORDER)
  }

  lemma InitFree(blocks: nat)
    ensures TopBlocksFree(Init(blocks))
  {
    var s := Init(blocks);
    assert s.live == map[];
    hide Init, ListOf, IsFree, OrderOf, Aligned;
    forall p: nat | true
      ensures (IsFree(s, p) <==> p < s.tot && p % TOP == 0) && (p in ListOf(s, MAX_ORDER) <==> IsFree(s, p))
      ensures IsFree(s, p) ==> Aligned(p, MAX_ORDER) && p + TOP <= s.tot && OrderOf(s, p) == MAX_ORDER
    {
      InitHeads(blocks, p);
    }
  }

  lemma InitLists(blocks: nat)
    ensures Shape(Init(blocks)) && Distinct(ListOf(Init(blocks), MAX_ORDER))
    ensures forall o: nat :: o != MAX_ORDER ==> ListOf(Init(blocks), o) == []
  {
    hide Pages;
    TopPages();
    MultipleAligned(blocks, MAX_ORDER);
    assert ListOf(Init(blocks), MAX_ORDER) == seq(blocks, i => i * TOP);
  }

  lemma TopBlocksListed(s: State)
    requires TopBlocksFree(s) && Distinct(ListOf(s, MAX_ORDER))
    requires forall o: nat :: o != MAX_ORDER ==> ListOf(s, o) == []
    ensures ListsExact(s) && LiveExact(s) && Coalesced(s)
  {
    hide ListOf, IsFree, OrderOf, Aligned;
  }

  lemma TopBlocksTiled(s: State)
    requires TopBlocksFree(s)
    ensures Placed(s) && Tiled(s)
  {
    hide ListOf, IsFree, OrderOf, Aligned, Pages;
    TopPages();
    forall p: nat, q: nat | p < q && Head(s, p) && Head(s, q) ensures p + Pages(OrderOf(s, p)) <= q {
      BlockGap(p, q, MAX_ORDER);
    }
    forall x: nat | x < s.tot ensures Covered(s, x) {
      assert Owns(s, x / TOP * TOP, x);
    }
  }

  lemma InitInv(blocks: nat)
    ensures Inv(Init(blocks))
  {
    hide Init, TopBlocksFree, Shape, ListsExact, LiveExact, Placed, Tiled, Coalesced;
    InitFree(blocks);
    InitLists(blocks);
    TopBlocksListed(Init(blocks));
    TopBlocksTiled(Init(blocks));
  }

  // ---------------------------------------------------------------- histories

  datatype Op = Alloc(o: nat) | Give(p: nat)
  datatype Outcome = Stopped | Ran(s: State)

  /** One call; the kernel stops on a panic, and a caller returns only what it holds. */
  function Step(s: State, op: Op): Outcome {
    match op
    case Alloc(o) => (match Get(s, o) case Panic => Stopped case Got(t, p) => Ran(t))
    case Give(p) =>
      if p !in s.live then Stopped
      else (match Release(s, p) case FreePanic => Stopped case Freed(t) => Ran(t))
  }

  function Run(s: State, ops: seq<Op>): Outcome
    decreases ops
  {
    if ops == [] then Ran(s)
    else match Step(s, ops[0])
      case Stopped => Stopped
      case Ran(t) => Run(t, ops[1..])
  }

  lemma StepKeeps(s: State, op: Op)
    requires Inv(s) && Step(s, op).Ran?
    ensures Inv(Step(s, op).s) && Step(s, op).s.tot == s.tot
  {
    match op {
      case Alloc(o) => GetKeeps(s, o); GetEffect(s, o);
      case Give(p) => FreeKeeps(s, p, OrderOf(s, p));
    }
  }

  /** Every history keeps the tiling, the lists and the coalescing. */
  lemma {:induction false} RunKeeps(s: State, ops: seq<Op>)
    requires Inv(s) && Run(s, ops).Ran?
    ensures Inv(Run(s, ops).s) && Run(s, ops).s.tot == s.tot
    decreases ops
  {
    if ops != [] {
      StepKeeps(s, ops[0]);
      var t := Step(s, ops[0]).s;
      RunKeeps(t, ops[1..]);
    }
  }

  /** Returning a block that is held never reaches the panics of free_buddy_new. */
  lemma ReleaseNeverPanics(s: State, p: nat)
    requires Inv(s) && p in s.live
    ensures Release(s, p).Freed?
  {
  }

  // ---------------------------------------------------------------- free blocks are the maximal free runs

  predicate LivePage(s: State, x: nat) {
    exists p :: p in s.live && p <= x < p + Pages(s.live[p])
  }

  /** No page of the run of 2^o pages at `p` is handed out. */
  ghost predicate AllFree(s: State, p: nat, o: nat) {
    p + Pages(o) <= s.tot && forall x: nat :: p <= x < p + Pages(o) ==> !LivePage(s, x)
  }

  ghost predicate FreeRun(s: State, p: nat, o: nat) {
    Aligned(p, o) && AllFree(s, p, o)
  }

  /** A page in a free block is in no live block. */
  lemma FreeBlockPages(s: State, p: nat, x: nat)
    requires Inv(s) && IsFree(s, p) && p <= x < p + Pages(OrderOf(s, p))
    ensures !LivePage(s, x)
  {
    forall q: nat | q in s.live ensures !(q <= x < q + Pages(s.live[q])) {
      assert Head(s, p) && Head(s, q);
    }
  }

  /** A free aligned run lies inside one free block of at least its order. */
  lemma {:induction false} FreeRunInBlock(s: State, p: nat, o: nat) returns (q: nat)
    requires Inv(s) && FreeRun(s, p, o) && o <= MAX_ORDER
    ensures IsFree(s, q) && o <= OrderOf(s, q) <= MAX_ORDER
    ensures q <= p && p + Pages(o) <= q + Pages(OrderOf(s, q))
    decreases o
  {
    if o == 0 {
      assert Covered(s, p);
      q :| Owns(s, q, p);
      assert !LivePage(s, p);
      assert IsFree(s, q) && q in ListOf(s, OrderOf(s, q));
    } else {
      BuddyFacts(p, o - 1);
      var b := p + Pages(o - 1);
      q := FreeRunInBlock(s, p, o - 1);
      var r := FreeRunInBlock(s, b, o - 1);
      HalvesNotBothFree(s, p, o);
      HalvesInBlock(s, p, o, q, r);
    }
  }

  lemma TwoHeads(s: State, q: nat, r: nat)
    requires Placed(s) && Apart(s) && IsFree(s, q) && IsFree(s, r)
    ensures Aligned(q, OrderOf(s, q)) && Aligned(r, OrderOf(s, r))
    ensures q == r || q + Pages(OrderOf(s, q)) <= r || r + Pages(OrderOf(s, r)) <= q
  {
    assert Head(s, q) && Head(s, r);
  }

  lemma PagesStep(o: nat)
    requires o > 0
    ensures Pages(o) == 2 * Pages(o - 1)
  {
  }

  /** Two halves inside free blocks, not both filling them: the first block holds both. */
  lemma HalvesInBlock(s: State, p: nat, o: nat, q: nat, r: nat)
    requires Placed(s) && Apart(s) && 0 < o <= MAX_ORDER && Aligned(p, o)
    requires IsFree(s, q) && o - 1 <= OrderOf(s, q) <= MAX_ORDER
    requires q <= p && p + Pages(o - 1) <= q + Pages(OrderOf(s, q))
    requires IsFree(s, r) && o - 1 <= OrderOf(s, r) <= MAX_ORDER
    requires r <= p + Pages(o - 1) && p + Pages(o) <= r + Pages(OrderOf(s, r))
    requires var b := p + Pages(o - 1);
             !(IsFree(s, p) && OrderOf(s, p) == o - 1 && IsFree(s, b) && OrderOf(s, b) == o - 1)
    ensures o <= OrderOf(s, q) && p + Pages(o) <= q + Pages(OrderOf(s, q))
  {
    hide Aligned, IsFree, OrderOf, Placed, Apart, Pages;
    var b := p + Pages(o - 1);
    TwoHeads(s, q, r);
    PagesStep(o);
    BuddyFacts(p, o - 1);
    BlockStart(p, q, o - 1);
    BlockStart(b, r, o - 1);
    if OrderOf(s, q) >= o {
      NestedOrDisjoint(p, o, q, OrderOf(s, q));
    } else if OrderOf(s, r) >= o {
      NestedOrDisjoint(p, o, r, OrderOf(s, r));
      assert false;
    }
  }

  lemma HalvesNotBothFree(s: State, p: nat, o: nat)
    requires Inv(s) && 0 < o <= MAX_ORDER && Aligned(p, o)
    ensures var b := p + Pages(o - 1);
            !(IsFree(s, p) && OrderOf(s, p) == o - 1 && IsFree(s, b) && OrderOf(s, b) == o - 1)
  {
    BuddyFacts(p, o - 1);
    assert IsFree(s, p) && OrderOf(s, p) == o - 1 ==> !FreeBuddy(s, p, o - 1);
  }

  /** The only block boundary of an order inside a block of that order is its start. */
  lemma BlockStart(p: nat, q: nat, o: nat)
    requires Aligned(p, o)
    ensures Aligned(q, o) && q <= p < q + Pages(o) ==> p == q
  {
    if Aligned(q, o) && q < p {
      BlockGap(q, p, o);
    }
  }

  /** The block of order `o` around a page. */
  lemma {:induction false} BlockAround(x: nat, o: nat) returns (p: nat)
    ensures Aligned(p, o) && p <= x < p + Pages(o)
  {
    if o == 0 {
      p := x;
    } else {
      var h := BlockAround(x / 2, o - 1);
      p := 2 * h;
    }
  }

  /** The free blocks are exactly the maximal aligned runs of free pages. */
  lemma MaximalRuns(s: State, p: nat, o: nat)
    requires Inv(s) && o <= MAX_ORDER
    ensures p in ListOf(s, o) <==>
            FreeRun(s, p, o) && (o == MAX_ORDER || !FreeRun(s, ParentOf(p, o), o + 1))
  {
    if p in ListOf(s, o) {
      FreeBlockIsMaximal(s, p, o);
    }
    if FreeRun(s, p, o) && (o == MAX_ORDER || !FreeRun(s, ParentOf(p, o), o + 1)) {
      MaximalRunIsBlock(s, p, o);
    }
  }

  lemma FreeBlockIsRun(s: State, p: nat)
    requires Inv(s) && IsFree(s, p)
    ensures FreeRun(s, p, OrderOf(s, p))
  {
    assert Head(s, p);
    forall x: nat | p <= x < p + Pages(OrderOf(s, p)) ensures !LivePage(s, x) {
      FreeBlockPages(s, p, x);
    }
  }

  /** Two free blocks that share a page are the same block. */
  lemma SharedPage(s: State, p: nat, q: nat, x: nat)
    requires Inv(s) && Owns(s, p, x) && Owns(s, q, x)
    ensures p == q
  {
  }

  lemma FreeBlockIsMaximal(s: State, p: nat, o: nat)
    requires Inv(s) && p in ListOf(s, o) && o <= MAX_ORDER
    ensures FreeRun(s, p, o) && (o < MAX_ORDER ==> !FreeRun(s, ParentOf(p, o), o + 1))
  {
    assert IsFree(s, p) && OrderOf(s, p) == o && Head(s, p);
    FreeBlockIsRun(s, p);
    if o < MAX_ORDER && FreeRun(s, ParentOf(p, o), o + 1) {
      var q := FreeRunInBlock(s, ParentOf(p, o), o + 1);
      SharedPage(s, p, q, p);
      assert false;
    }
  }

  /** A run inside a larger free block has a free run around it. */
  lemma ParentIsFree(s: State, p: nat, q: nat, o: nat)
    requires Inv(s) && FreeRun(s, p, o) && Owns(s, q, p) && IsFree(s, q) && o < OrderOf(s, q) <= MAX_ORDER
    ensures FreeRun(s, ParentOf(p, o), o + 1)
  {
    FreeBlockIsRun(s, q);
    NestedOrDisjoint(ParentOf(p, o), o + 1, q, OrderOf(s, q));
  }

  lemma MaximalRunIsBlock(s: State, p: nat, o: nat)
    requires Inv(s) && o <= MAX_ORDER
    requires FreeRun(s, p, o) && (o == MAX_ORDER || !FreeRun(s, ParentOf(p, o), o + 1))
    ensures p in ListOf(s, o)
  {
    var q := FreeRunInBlock(s, p, o);
    var k := OrderOf(s, q);
    FreeBlockIsRun(s, q);
    if k == o {
      BlockStart(p, q, o);
    } else {
      ParentIsFree(s, p, q, o);
      assert false;
    }
  }

  /** Canonical form: the free lists hold the same blocks whenever the live pages are the same. */
  lemma CanonicalForm(s: State, t: State, o: nat, p: nat)
    requires Inv(s) && Inv(t) && s.tot == t.tot
    requires forall x: nat :: x < s.tot ==> (LivePage(s, x) <==> LivePage(t, x))
    ensures p in ListOf(s, o) <==> p in ListOf(t, o)
  {
    if o <= MAX_ORDER {
      SameRuns(s, t, p, o);
      SameRuns(s, t, ParentOf(p, o), o + 1);
      MaximalRuns(s, p, o);
      MaximalRuns(t, p, o);
    }
  }

  lemma SameRuns(s: State, t: State, p: nat, o: nat)
    requires s.tot == t.tot
    requires forall x: nat :: x < s.tot ==> (LivePage(s, x) <==> LivePage(t, x))
    ensures FreeRun(s, p, o) <==> FreeRun(t, p, o)
  {
    if AllFree(s, p, o) {
      assert AllFree(t, p, o);
    }
    if AllFree(t, p, o) {
      assert AllFree(s, p, o);
    }
  }

  ghost predicate SameFreeSets(s: State, t: State) {
    && s.tot == t.tot
    && forall o: nat, p: nat :: p in ListOf(s, o) <==> p in ListOf(t, o)
  }

  lemma SameLiveSameFree(s: State, t: State)
    requires Inv(s) && Inv(t) && s.tot == t.tot
    requires forall x: nat :: x < s.tot ==> (LivePage(s, x) <==> LivePage(t, x))
    ensures SameFreeSets(s, t)
  {
    forall o: nat, p: nat | true ensures p in ListOf(s, o) <==> p in ListOf(t, o) {
      CanonicalForm(s, t, o, p);
    }
  }

  lemma EqualLiveSameFree(s: State, t: State)
    requires Inv(s) && Inv(t) && s.tot == t.tot && s.live == t.live
    ensures SameFreeSets(s, t)
  {
    SameLiveSameFree(s, t);
  }

  /** Two histories from boot that leave the same pages handed out leave the same free sets. */
  lemma HistoryIndependence(blocks: nat, a: seq<Op>, b: seq<Op>)
    requires Run(Init(blocks), a).Ran? && Run(Init(blocks), b).Ran?
    requires var s, t := Run(Init(blocks), a).s, Run(Init(blocks), b).s;
             forall x: nat :: x < s.tot ==> (LivePage(s, x) <==> LivePage(t, x))
    ensures SameFreeSets(Run(Init(blocks), a).s, Run(Init(blocks), b).s)
  {
    InitInv(blocks);
    RunKeeps(Init(blocks), a);
    RunKeeps(Init(blocks), b);
    var s, t := Run(Init(blocks), a).s, Run(Init(blocks), b).s;
    SameLiveSameFree(s, t);
  }

  /** Once everything is returned the free sets are those of boot. */
  lemma DrainedIsInitial(blocks: nat, ops: seq<Op>)
    requires Run(Init(blocks), ops).Ran? && Run(Init(blocks), ops).s.live == map[]
    ensures SameFreeSets(Run(Init(blocks), ops).s, Init(blocks))
  {
    HistoryIndependence(blocks, ops, []);
  }

  lemma FreeNewBlock(s: State, t: State, p: nat, o: nat)
    requires Inv(s) && Inv(t) && s.tot == t.tot && p !in s.live && t.live == s.live[p := o]
    ensures SameFreeSets(Free(t, p, o), s) && Free(t, p, o).live == s.live
  {
    LiveOrder(t, p);
    FreeKeeps(t, p, o);
    assert s.live[p := o] - {p} == s.live;
    EqualLiveSameFree(Free(t, p, o), s);
  }

  /** Returning a block undoes its allocation: every free set is as before. */
  lemma GetThenFree(s: State, o: nat)
    requires Inv(s) && Get(s, o).Got?
    ensures SameFreeSets(Free(Get(s, o).s, Get(s, o).pfn, o), s)
    ensures Free(Get(s, o).s, Get(s, o).pfn, o).live == s.live
  {
    GetKeeps(s, o);
    GetEffect(s, o);
    FreeNewBlock(s, Get(s, o).s, Get(s, o).pfn, o);
  }

  /** And an allocation undoes a release: if the buddy of a held block is not free, the next request
      of its order gets the block back, and then every list is as before, in order. */
  lemma FreeThenGet(s: State, b: nat, o: nat)
    requires Inv(s) && b in s.live && OrderOf(s, b) == o && (o < MAX_ORDER ==> !FreeBuddy(s, b, o))
    ensures Get(Free(s, b, o), o) == Got(s, b)
  {
    hide Tiled, Placed, Coalesced, ListsExact;
    var t := Free(s, b, o);
    assert t == Put(s, b) && t.lists[o] == [b] + s.lists[o];
    assert ([b] + s.lists[o])[1..] == s.lists[o];
    assert s.lists[o := t.lists[o]][o := s.lists[o]] == s.lists;
    assert s.free[b := true][b := false] == s.free;
    assert (s.live - {b})[b := o] == s.live;
  }

  /** Joined with free buddies or not, the released block is the first of its list, and the next
      request of that order gets it. */
  lemma {:induction false} FreedIsNext(s: State, b: nat, o: nat) returns (k: nat, base: nat)
    requires Inv(s) && b in s.live && OrderOf(s, b) == o
    ensures o <= k <= MAX_ORDER && base <= b && b + Pages(o) <= base + Pages(k)
    ensures ListOf(Free(s, b, o), k) != [] && ListOf(Free(s, b, o), k)[0] == base
    ensures Get(Free(s, b, o), k).Got? && Get(Free(s, b, o), k).pfn == base
    decreases MAX_ORDER - o
  {
    hide Inv, Merge, MergeBase, Put, Get, Pages, BuddyOf, ListOf;
    if o < MAX_ORDER && FreeBuddy(s, b, o) {
      MergedLive(s, b);
      MergedHolds(s, b);
      k, base := FreedIsNext(Merge(s, b), MergeBase(s, b), o + 1);
    } else {
      k, base := o, b;
      PutIsNext(s, b);
    }
  }

  lemma MergedLive(s: State, b: nat)
    requires Inv(s) && b in s.live && OrderOf(s, b) < MAX_ORDER && FreeBuddy(s, b, OrderOf(s, b))
    ensures Inv(Merge(s, b)) && MergeBase(s, b) in Merge(s, b).live
    ensures OrderOf(Merge(s, b), MergeBase(s, b)) == OrderOf(s, b) + 1
  {
    hide Inv, Merge, MergeBase;
    MergeKeeps(s, b);
    InvParts(s);
    MergeEffect(s, b);
    InvParts(Merge(s, b));
    LiveOrder(Merge(s, b), MergeBase(s, b));
  }

  lemma PutIsNext(s: State, b: nat)
    requires Inv(s) && b in s.live
    ensures var o, t := OrderOf(s, b), Put(s, b);
            o <= MAX_ORDER && ListOf(t, o) != [] && ListOf(t, o)[0] == b && Get(t, o).Got? && Get(t, o).pfn == b
  {
    hide Inv, Take, Split;
    InvParts(s);
    LiveOrder(s, b);
  }

  /** Which second release of a block is caught: exactly if the block is the first part of the free
      block that the first release left, so never if its lower buddy was free. */
  lemma SecondRelease(s: State, b: nat) returns (k: nat, base: nat)
    requires Inv(s) && b in s.live
    ensures var o := s.live[b];
            && Release(s, b) == Freed(Free(s, b, o))
            && ListOf(Free(s, b, o), k) != [] && ListOf(Free(s, b, o), k)[0] == base && base <= b < base + Pages(k)
            && (Release(Free(s, b, o), b).FreePanic? <==> base == b)
  {
    hide Inv, Free, Get, Pages;
    InvParts(s);
    LiveOrder(s, b);
    LiveNotFree(s, b);
    var o := s.live[b];
    k, base := FreedIsNext(s, b, o);
    FreeKeeps(s, b, o);
    FreedOrder(s, b, o, b);
    var t := Free(s, b, o);
    FirstOfBlock(t, k, base, b);
    PagesMonotone(0, o);
  }

  /** Within a free block only the first page is marked as free. */
  lemma FirstOfBlock(t: State, k: nat, base: nat, b: nat)
    requires Inv(t) && base in ListOf(t, k) && base <= b < base + Pages(k)
    ensures IsFree(t, b) <==> base == b
  {
    hide Pages;
    assert Head(t, base) && OrderOf(t, base) == k;
    if IsFree(t, b) {
      assert Head(t, b);
    }
  }

  /** No record gets an order above the largest. */
  lemma {:induction false} FreedOrder(s: State, b: nat, o: nat, x: nat)
    requires Inv(s) && b in s.live && OrderOf(s, b) == o && OrderOf(s, x) <= MAX_ORDER
    ensures OrderOf(Free(s, b, o), x) <= MAX_ORDER
    decreases MAX_ORDER - o
  {
    hide Inv, BuddyOf, ListOf;
    if o < MAX_ORDER && FreeBuddy(s, b, o) {
      MergedLive(s, b);
      InvParts(s);
      LiveNotFree(s, b);
      MergeFields(s, b);
      FreedOrder(Merge(s, b), MergeBase(s, b), o + 1, x);
    }
  }

  /** The joined block holds the released one. */
  lemma MergedHolds(s: State, b: nat)
    requires Inv(s) && b in s.live && OrderOf(s, b) < MAX_ORDER && FreeBuddy(s, b, OrderOf(s, b))
    ensures MergeBase(s, b) <= b && b + Pages(OrderOf(s, b)) <= MergeBase(s, b) + Pages(OrderOf(s, b) + 1)
  {
    var o := OrderOf(s, b);
    assert Head(s, b) && Head(s, BuddyOf(b, o));
    JoinedBlock(b, o, s.tot);
    assert Pages(o + 1) == 2 * Pages(o);
  }

  // ---------------------------------------------------------------- completeness and best fit

  /** The smallest order at or above `o` with a free block, or MAX_ORDER + 1. */
  function SmallestFit(s: State, o: nat): (k: nat)
    requires o <= MAX_ORDER + 1
    ensures o <= k <= MAX_ORDER + 1
    ensures k <= MAX_ORDER ==> ListOf(s, k) != []
    ensures forall j: nat :: o <= j < k ==> ListOf(s, j) == []
    decreases MAX_ORDER + 1 - o
  {
    if o > MAX_ORDER then o
    else if ListOf(s, o) != [] then o
    else SmallestFit(s, o + 1)
  }

  /** An allocation panics exactly when no aligned run of its size is free. */
  lemma Completeness(s: State, o: nat)
    requires Inv(s)
    ensures Get(s, o).Got? <==> o <= MAX_ORDER && exists p :: FreeRun(s, p, o)
  {
    if o <= MAX_ORDER {
      GetWhenFit(s, o);
      var k := SmallestFit(s, o);
      if k <= MAX_ORDER {
        var p := RunWhenFit(s, o, k);
      }
      if exists p :: FreeRun(s, p, o) {
        var p :| FreeRun(s, p, o);
        FitWhenRun(s, p, o);
      }
    }
  }

  lemma RunWhenFit(s: State, o: nat, k: nat) returns (p: nat)
    requires Inv(s) && o <= k <= MAX_ORDER && ListOf(s, k) != []
    ensures FreeRun(s, p, o)
  {
    p := ListOf(s, k)[0];
    assert p in ListOf(s, k);
    FreeBlockIsRun(s, p);
    AlignedDown(p, k, o);
    PagesMonotone(o, k);
  }

  lemma FitWhenRun(s: State, p: nat, o: nat)
    requires Inv(s) && o <= MAX_ORDER && FreeRun(s, p, o)
    ensures SmallestFit(s, o) <= MAX_ORDER
  {
    var q := FreeRunInBlock(s, p, o);
    assert q in ListOf(s, OrderOf(s, q));
  }

  lemma {:induction false} GetWhenFit(s: State, o: nat)
    requires o <= MAX_ORDER
    ensures Get(s, o).Got? <==> SmallestFit(s, o) <= MAX_ORDER
    decreases MAX_ORDER + 1 - o
  {
    if ListOf(s, o) == [] && o < MAX_ORDER {
      GetWhenFit(s, o + 1);
    }
  }

  /** The lists of `t` are those of `s` with the first block of order `k`, at `p`,
      replaced by its upper halves, one in each order from `o` up. */
  ghost predicate CutDown(s: State, t: State, p: nat, o: nat, k: nat) {
    && |s.lists| == |t.lists| == MAX_ORDER + 1
    && ListOf(s, k) == [p] + ListOf(t, k)
    && (forall j: nat :: o <= j < k ==> ListOf(s, j) == [] && ListOf(t, j) == [p + Pages(j)])
    && (forall j: nat :: j < o || k < j ==> ListOf(t, j) == ListOf(s, j))
  }

  lemma SplitCutsDown(s: State, t: State, p: nat, o: nat, k: nat)
    requires CutDown(s, t, p, o + 1, k) && o < k <= MAX_ORDER && ListOf(s, o) == []
    ensures CutDown(s, Split(t, p, o), p, o, k)
  {
    var u := Split(t, p, o);
    forall j: nat | true ensures ListOf(u, j) == if j == o then [p + Pages(o)] else ListOf(t, j) {
    }
  }

  /** Best fit: the first block of the smallest non-empty order is cut down, and
      nothing else in the free lists changes. */
  lemma {:induction false} BestFit(s: State, o: nat)
    requires |s.lists| == MAX_ORDER + 1 && Get(s, o).Got?
    ensures SmallestFit(s, o) <= MAX_ORDER
    ensures CutDown(s, Get(s, o).s, Get(s, o).pfn, o, SmallestFit(s, o))
    decreases MAX_ORDER + 1 - o
  {
    if ListOf(s, o) == [] {
      BestFit(s, o + 1);
      var r := Get(s, o + 1);
      SplitCutsDown(s, r.s, r.pfn, o, SmallestFit(s, o + 1));
    }
  }
}
