/** The slab cache of mem/slab.c as a state machine on values.

    A slab is one page holding a header and `tot + 1` equal buffers. Its free chain
    is the sequence of buffer numbers reached from `first_free` along `next_free`. */
module Slab {
  import Blocks
  import opened Machine
  import opened Seqs

  const MAX_SLAB_SIZE := 512
  const MIN_SLAB_SIZE := 4
  /** sizeof(Slab) and sizeof(Buf) on the 32-bit target. */
  const SLAB_HEADER := 36
  const BUF_HEADER := 8

  datatype Slab = Slab(size: nat, pinned: bool, tot: nat, alloc: nat, chain: seq<nat>)

  /** Slabs by page address, and the three lists of page addresses in list order. */
  datatype Cache = Cache(slabs: map<nat, Slab>, free: seq<nat>, used: seq<nat>, empty: seq<nat>)

  /** `Stuck` is the early `return NULL` of salloc, taken while the lock is held. */
  datatype SallocResult = NoSlab | Stuck | Buffer(c: Cache, page: nat, i: nat)

  /** How many pieces of `d` bytes fit in `n` bytes: the quotient, counted piece by piece. */
  function Fits(n: nat, d: nat): nat
    requires d > 0
  {
    if n < d then 0 else 1 + Fits(n - d, d)
  }

  lemma {:induction false} FitsIsQuotient(n: nat, d: nat)
    requires d > 0
    ensures Fits(n, d) == n / d
  {
    if n < d {
      Blocks.QuotientUnique(n, d, 0, n);
    } else {
      FitsIsQuotient(n - d, d);
      var q := (n - d) / d;
      assert n - d == q * d + (n - d) % d;
      assert (q + 1) * d == q * d + d;
      Blocks.QuotientUnique(n, d, q + 1, (n - d) % d);
    }
  }

  function TotFor(size: nat): int {
    Fits(PAGE - SLAB_HEADER, size + BUF_HEADER) - 1
  }

  /** Distance of buffer `i` from the first one: createSlab steps from one to the next. */
  function Offset(size: nat, i: nat): nat {
    if i == 0 then 0 else Offset(size, i - 1) + BUF_HEADER + size
  }

  /** Address of buffer `i` as handed to a caller, past its header. */
  function UserAddr(page: nat, size: nat, i: nat): nat {
    page + SLAB_HEADER + Offset(size, i) + BUF_HEADER
  }

  // ---------------------------------------------------------------- invariant

  /** The chain visits each buffer that is not handed out exactly once: it has
      `tot + 1 - alloc` different members, so at least one while `alloc <= tot`. */
  ghost predicate SlabOk(s: Slab) {
    && MIN_SLAB_SIZE <= s.size <= MAX_SLAB_SIZE
    && s.tot == TotFor(s.size)
    && s.alloc <= s.tot
    && |s.chain| == s.tot + 1 - s.alloc
    && Distinct(s.chain)
    && forall i :: i in s.chain ==> i <= s.tot
  }

  /** Every slab is in exactly the list its count calls for. */
  ghost predicate Sorted(c: Cache) {
    && (forall p :: p in c.free <==> p in c.slabs && c.slabs[p].alloc == 0)
    && (forall p :: p in c.used <==> p in c.slabs && 0 < c.slabs[p].alloc < c.slabs[p].tot)
    && (forall p :: p in c.empty <==> p in c.slabs && c.slabs[p].alloc == c.slabs[p].tot)
    && Distinct(c.free) && Distinct(c.used) && Distinct(c.empty)
  }

  ghost predicate Inv(c: Cache) {
    && (forall p :: p in c.slabs ==> SlabOk(c.slabs[p]) && p % PAGE == 0)
    && Sorted(c)
  }

  /** Buffer `i` of the slab at `page` is handed out. */
  predicate LiveBuf(c: Cache, page: nat, i: nat) {
    page in c.slabs && i <= c.slabs[page].tot && i !in c.slabs[page].chain
  }

  // ---------------------------------------------------------------- operations

  /** Index of the first slab of the wanted size in a list, or the list's length. */
  function Find(c: Cache, xs: seq<nat>, size: nat): (k: nat)
    ensures k <= |xs|
    ensures k < |xs| ==> xs[k] in c.slabs && c.slabs[xs[k]].size == size
    ensures forall j :: 0 <= j < k ==> !(xs[j] in c.slabs && c.slabs[xs[j]].size == size)
  {
    if xs == [] then 0
    else if xs[0] in c.slabs && c.slabs[xs[0]].size == size then 0
    else
      var k := Find(c, xs[1..], size);
      assert forall j :: 0 < j < 1 + k ==> xs[j] == xs[1..][j - 1];
      1 + k
  }

  /** Pop the first buffer of a slab's chain. */
  function Pop(s: Slab): Slab
    requires s.chain != []
  {
    s.(alloc := s.alloc + 1, chain := s.chain[1..])
  }

  function Push(s: Slab, i: nat): Slab
    requires s.alloc > 0
  {
    s.(alloc := s.alloc - 1, chain := [i] + s.chain)
  }

  /** salloc: first a partly used slab, else a free one. */
  function Salloc(c: Cache, size: nat): SallocResult {
    var k := Find(c, c.used, size);
    if k < |c.used| then
      var p := c.used[k];
      var s := c.slabs[p];
      if s.chain == [] then Stuck
      else if s.alloc + 1 >= s.tot then
        Buffer(Cache(c.slabs[p := Pop(s).(alloc := s.tot)], c.free, Remove(c.used, p), c.empty + [p]), p, s.chain[0])
      else
        Buffer(c.(slabs := c.slabs[p := Pop(s)]), p, s.chain[0])
    else
      var j := Find(c, c.free, size);
      if j < |c.free| then
        var p := c.free[j];
        var s := c.slabs[p];
        if s.chain == [] then Stuck
        else Buffer(Cache(c.slabs[p := Pop(s)], Remove(c.free, p), c.used + [p], c.empty), p, s.chain[0])
      else NoSlab
  }

  /** sfree on a buffer of a slab with `alloc > 0`; otherwise it changes nothing and returns FALSE. */
  function Sfree(c: Cache, page: nat, i: nat): Cache {
    if page !in c.slabs || c.slabs[page].alloc == 0 then c
    else
      var s := Push(c.slabs[page], i);
      var d := c.(slabs := c.slabs[page := s], free := Remove(c.free, page),
                  used := Remove(c.used, page), empty := Remove(c.empty, page));
      if s.alloc == 0 then d.(free := d.free + [page]) else d.(used := [page] + d.used)
  }

  /** A slab as createSlab leaves it, with all its buffers chained in address order. */
  function NewSlab(size: nat): Slab
    requires TotFor(size) >= 0
  {
    var tot := TotFor(size) as nat;
    Slab(size, false, tot, 0, seq(tot + 1, i => i))
  }

  /** createSlab on a page fresh from the page allocator. */
  function CreateSlab(c: Cache, page: nat, size: nat): Cache
    requires TotFor(size) >= 0
  {
    c.(slabs := c.slabs[page := NewSlab(size)], free := c.free + [page])
  }

  function SetPinned(c: Cache, page: nat): Cache
    requires page in c.slabs
  {
    c.(slabs := c.slabs[page := c.slabs[page].(pinned := true)])
  }

  /** One turn of the reaping loop of kswap for one slab of the free list. */
  function ReapOne(c: Cache, page: nat): Cache {
    c.(slabs := c.slabs - {page}, free := Remove(c.free, page))
  }

  // ---------------------------------------------------------------- reaping a whole list

  /** The pinned slabs of a list, in list order; the reaper leaves them alone. */
  function Pinned(c: Cache, xs: seq<nat>): seq<nat> {
    if xs == [] then []
    else (if xs[0] in c.slabs && c.slabs[xs[0]].pinned then [xs[0]] else []) + Pinned(c, xs[1..])
  }

  ghost function Unpinned(c: Cache, xs: seq<nat>): set<nat> {
    set p | p in xs && p in c.slabs && !c.slabs[p].pinned
  }

  /** The cache without the unpinned slabs of `rest`, where `kept + rest` is the free list. */
  ghost function Reaped(c: Cache, kept: seq<nat>, rest: seq<nat>): Cache {
    Cache(c.slabs - Unpinned(c, rest), kept + Pinned(c, rest), c.used, c.empty)
  }

  lemma {:induction false} PinsUnchanged(c: Cache, d: Cache, xs: seq<nat>)
    requires forall p :: p in xs ==> (p in c.slabs <==> p in d.slabs) && (p in c.slabs ==> c.slabs[p] == d.slabs[p])
    ensures Pinned(c, xs) == Pinned(d, xs) && Unpinned(c, xs) == Unpinned(d, xs)
  {
    if xs != [] {
      PinsUnchanged(c, d, xs[1..]);
    }
  }

  lemma ReapedPinned(c: Cache, kept: seq<nat>, rest: seq<nat>)
    requires rest != [] && rest[0] in c.slabs && c.slabs[rest[0]].pinned
    ensures Reaped(c, kept + [rest[0]], rest[1..]) == Reaped(c, kept, rest)
  {
    assert (kept + [rest[0]]) + Pinned(c, rest[1..]) == kept + Pinned(c, rest);
    assert Unpinned(c, rest[1..]) == Unpinned(c, rest);
  }

  lemma FirstRemoved(kept: seq<nat>, rest: seq<nat>)
    requires rest != [] && Distinct(kept + rest)
    ensures Remove(kept + rest, rest[0]) == kept + rest[1..]
    ensures rest[0] !in rest[1..]
  {
    var xs, n := kept + rest, |kept|;
    assert xs[n] == rest[0];
    RemoveAtIndex(xs, n);
    assert kept + rest[1..] == Without(xs, n);
    forall k | 0 <= k < |rest| - 1 ensures rest[1..][k] != rest[0] {
      assert xs[n + 1 + k] == rest[1..][k];
    }
  }

  lemma ReapedUnpinned(c: Cache, kept: seq<nat>, rest: seq<nat>)
    requires rest != [] && rest[0] in c.slabs && !c.slabs[rest[0]].pinned && c.free == kept + rest && Distinct(c.free)
    ensures var d := ReapOne(c, rest[0]);
            d.free == kept + rest[1..] && Reaped(d, kept, rest[1..]) == Reaped(c, kept, rest)
  {
    FirstRemoved(kept, rest);
    hide Distinct, Remove, Unpinned;
    var d := ReapOne(c, rest[0]);
    PinsUnchanged(c, d, rest[1..]);
    UnpinnedFirst(c, rest);
    LessBoth(c.slabs, rest[0], Unpinned(c, rest[1..]));
  }

  lemma UnpinnedFirst(c: Cache, rest: seq<nat>)
    requires rest != [] && rest[0] in c.slabs && !c.slabs[rest[0]].pinned
    ensures Unpinned(c, rest) == Unpinned(c, rest[1..]) + {rest[0]}
  {
  }

  lemma LessBoth<K, V>(m: map<K, V>, k: K, ks: set<K>)
    ensures m - {k} - ks == m - (ks + {k})
  {
  }

  // ---------------------------------------------------------------- the invariant is kept

  lemma {:induction false} FitsAtLeast(n: nat, size: nat, k: nat)
    requires Offset(size, k) <= n
    ensures Fits(n, size + BUF_HEADER) >= k
  {
    if k > 0 {
      FitsAtLeast(n - (size + BUF_HEADER), size, k - 1);
    }
  }

  /** The pieces that fit end inside the space. */
  lemma {:induction false} OffsetFits(n: nat, size: nat)
    ensures Offset(size, Fits(n, size + BUF_HEADER)) <= n
  {
    if n >= size + BUF_HEADER {
      OffsetFits(n - (size + BUF_HEADER), size);
    }
  }

  lemma TotAtLeastSix(size: nat)
    requires size <= MAX_SLAB_SIZE
    ensures TotFor(size) >= 6
  {
    assert Offset(size, 1) == size + BUF_HEADER;
    assert Offset(size, 3) == 3 * (size + BUF_HEADER);
    assert Offset(size, 5) == 5 * (size + BUF_HEADER);
    assert Offset(size, 7) == 7 * (size + BUF_HEADER);
    FitsAtLeast(PAGE - SLAB_HEADER, size, 7);
  }

  /** A slab uses its page up: behind a header of 36 bytes lie `tot + 1` buffers of `size` bytes, each
      behind 8 bytes of its own and next to the one before, and there is no room for one more. */
  lemma PageFilled(page: nat, size: nat, i: nat)
    requires MIN_SLAB_SIZE <= size <= MAX_SLAB_SIZE
    ensures TotFor(size) >= 0 && TotFor(size) == 4060 / (size + 8) - 1
    ensures 36 + (TotFor(size) + 1) * (size + 8) <= 4096 < 36 + (TotFor(size) + 2) * (size + 8)
    ensures UserAddr(page, size, i) == page + 36 + i * (size + 8) + 8
  {
    FitsIsQuotient(PAGE - SLAB_HEADER, size + BUF_HEADER);
    TotAtLeastSix(size);
    OffsetProduct(size, i);
    var q := 4060 / (size + 8);
    assert 4060 == q * (size + 8) + 4060 % (size + 8);
    assert (q + 1) * (size + 8) == q * (size + 8) + (size + 8);
  }

  lemma {:induction false} OffsetProduct(size: nat, i: nat)
    ensures Offset(size, i) == i * (size + 8)
  {
    if i > 0 {
      OffsetProduct(size, i - 1);
      assert i * (size + 8) == (i - 1) * (size + 8) + (size + 8);
    }
  }

  /** The list `ys` after slab `p` was taken out of `xs`, or moved to an end of it, or left. */
  ghost predicate Relinked(xs: seq<nat>, ys: seq<nat>, p: nat, stays: bool) {
    && Distinct(ys)
    && (forall q :: q != p ==> (q in ys <==> q in xs))
    && (p in ys <==> stays)
  }

  lemma MovedRelinked(xs: seq<nat>, p: nat)
    requires Distinct(xs)
    ensures Relinked(xs, Remove(xs, p), p, false)
    ensures Relinked(xs, [p] + Remove(xs, p), p, true)
    ensures Relinked(xs, Remove(xs, p) + [p], p, true)
    ensures Relinked(xs, xs, p, p in xs)
    ensures p !in xs ==> Remove(xs, p) == xs
  {
    RemoveFacts(xs, p);
    DistinctExtended(Remove(xs, p), p);
  }

  /** Moving one slab to the list its new count calls for keeps the lists sorted. */
  lemma SortedAfterMove(c: Cache, d: Cache, p: nat)
    requires Sorted(c) && p in c.slabs && p in d.slabs && d.slabs == c.slabs[p := d.slabs[p]]
    requires var s := d.slabs[p];
             && s.tot > 0
             && Relinked(c.free, d.free, p, s.alloc == 0)
             && Relinked(c.used, d.used, p, 0 < s.alloc < s.tot)
             && Relinked(c.empty, d.empty, p, s.alloc == s.tot)
    ensures Sorted(d)
  {
  }

  lemma PopKeeps(s: Slab)
    requires SlabOk(s) && s.alloc < s.tot
    ensures s.chain != [] && SlabOk(Pop(s))
    ensures forall i :: i in Pop(s).chain <==> i in s.chain && i != s.chain[0]
  {
    DistinctTail(s.chain);
  }

  lemma PushKeeps(s: Slab, i: nat)
    requires SlabOk(s) && s.alloc > 0 && i <= s.tot && i !in s.chain
    ensures SlabOk(Push(s, i))
    ensures forall j :: j in Push(s, i).chain <==> j in s.chain || j == i
  {
    DistinctExtended(s.chain, i);
  }

  /** Sizes, totals and pins are unchanged, and so is every buffer but one. */
  ghost predicate OnlyChanged(c: Cache, d: Cache, page: nat, i: nat) {
    && d.slabs.Keys == c.slabs.Keys
    && (forall p :: p in c.slabs ==>
          d.slabs[p].size == c.slabs[p].size && d.slabs[p].tot == c.slabs[p].tot
              && d.slabs[p].pinned == c.slabs[p].pinned)
    && forall p, k :: p != page || k != i ==> (LiveBuf(c, p, k) <==> LiveBuf(d, p, k))
  }

  lemma ChangedSlab(c: Cache, d: Cache, p: nat, i: nat)
    requires p in c.slabs && p in d.slabs && d.slabs == c.slabs[p := d.slabs[p]]
    requires var s, t := c.slabs[p], d.slabs[p];
             && t.size == s.size && t.tot == s.tot && t.pinned == s.pinned
             && forall k :: k != i ==> (k in s.chain <==> k in t.chain)
    ensures OnlyChanged(c, d, p, i)
  {
  }

  /** A buffer of the wanted size that was not out is out now, and nothing else changed. */
  ghost predicate Allocated(c: Cache, size: nat, r: SallocResult)
    requires r.Buffer?
  {
    && Inv(r.c) && r.page in c.slabs && c.slabs[r.page].size == size
    && !LiveBuf(c, r.page, r.i) && LiveBuf(r.c, r.page, r.i)
    && OnlyChanged(c, r.c, r.page, r.i)
  }

  lemma SallocUsedShape(c: Cache, size: nat, p: nat)
    requires Find(c, c.used, size) < |c.used| && p == c.used[Find(c, c.used, size)]
    requires c.slabs[p].chain != [] && c.slabs[p].alloc < c.slabs[p].tot
    ensures var full := c.slabs[p].alloc + 1 == c.slabs[p].tot;
            Salloc(c, size) == Buffer(
              Cache(c.slabs[p := Pop(c.slabs[p])], c.free,
                    if full then Remove(c.used, p) else c.used,
                    if full then c.empty + [p] else c.empty),
              p, c.slabs[p].chain[0])
  {
    hide Find, Remove, Fits, TotFor;
  }

  lemma UsedPopped(c: Cache, d: Cache, p: nat)
    requires Inv(c) && p in c.used && p !in c.free && p !in c.empty
    requires c.slabs[p].chain != [] && SlabOk(Pop(c.slabs[p]))
    requires var full := c.slabs[p].alloc + 1 == c.slabs[p].tot;
             d == Cache(c.slabs[p := Pop(c.slabs[p])], c.free,
                        if full then Remove(c.used, p) else c.used, if full then c.empty + [p] else c.empty)
    ensures Inv(d) && OnlyChanged(c, d, p, c.slabs[p].chain[0])
  {
    PopKeeps(c.slabs[p]);
    MovedRelinked(c.free, p);
    MovedRelinked(c.used, p);
    MovedRelinked(c.empty, p);
    SortedAfterMove(c, d, p);
    ChangedSlab(c, d, p, c.slabs[p].chain[0]);
  }

  lemma SallocUsed(c: Cache, size: nat)
    requires Inv(c) && Find(c, c.used, size) < |c.used|
    ensures Salloc(c, size).Buffer? && Allocated(c, size, Salloc(c, size))
  {
    var p := c.used[Find(c, c.used, size)];
    assert p in c.used && p !in c.free && p !in c.empty;
    PopKeeps(c.slabs[p]);
    SallocUsedShape(c, size, p);
    UsedPopped(c, Salloc(c, size).c, p);
  }

  lemma SallocFreeShape(c: Cache, size: nat, p: nat)
    requires Find(c, c.used, size) == |c.used|
    requires Find(c, c.free, size) < |c.free| && p == c.free[Find(c, c.free, size)] && c.slabs[p].chain != []
    ensures Salloc(c, size) == Buffer(
              Cache(c.slabs[p := Pop(c.slabs[p])], Remove(c.free, p), c.used + [p], c.empty), p, c.slabs[p].chain[0])
  {
    hide Find, Remove, Fits, TotFor;
  }

  lemma FreePopped(c: Cache, d: Cache, p: nat)
    requires Inv(c) && p in c.free && p !in c.used && p !in c.empty
    requires c.slabs[p].chain != [] && SlabOk(Pop(c.slabs[p])) && c.slabs[p].alloc == 0 && c.slabs[p].tot > 1
    requires d == Cache(c.slabs[p := Pop(c.slabs[p])], Remove(c.free, p), c.used + [p], c.empty)
    ensures Inv(d) && OnlyChanged(c, d, p, c.slabs[p].chain[0])
  {
    PopKeeps(c.slabs[p]);
    MovedRelinked(c.free, p);
    MovedRelinked(c.used, p);
    MovedRelinked(c.empty, p);
    SortedAfterMove(c, d, p);
    ChangedSlab(c, d, p, c.slabs[p].chain[0]);
  }

  lemma SallocFree(c: Cache, size: nat)
    requires Inv(c) && Find(c, c.used, size) == |c.used| && Find(c, c.free, size) < |c.free|
    ensures Salloc(c, size).Buffer? && Allocated(c, size, Salloc(c, size))
  {
    hide Find, Remove, TotFor;
    var p := c.free[Find(c, c.free, size)];
    assert p in c.free && p !in c.used;
    TotAtLeastSix(c.slabs[p].size);
    assert p !in c.empty;
    PopKeeps(c.slabs[p]);
    SallocFreeShape(c, size, p);
    FreePopped(c, Salloc(c, size).c, p);
  }

  /** What salloc relies on when it takes a buffer of a slab it found on a list. */
  lemma ListedHasRoom(c: Cache, p: nat)
    requires Inv(c) && (p in c.used || p in c.free)
    ensures p in c.slabs && c.slabs[p].chain != [] && Distinct(c.slabs[p].chain) && c.slabs[p].alloc < c.slabs[p].tot
    ensures Distinct(c.free) && Distinct(c.used)
  {
    TotAtLeastSix(c.slabs[p].size);
  }

  /** What salloc dereferences: the slab it settles on, if any, has a buffer on its chain. */
  ghost predicate SallocSafe(c: Cache, size: nat) {
    var k, j := Find(c, c.used, size), Find(c, c.free, size);
    && Distinct(c.used) && Distinct(c.free)
    && (k < |c.used| ==> HasChain(c.slabs[c.used[k]]))
    && (k == |c.used| && j < |c.free| ==> HasChain(c.slabs[c.free[j]]))
  }

  ghost predicate HasChain(s: Slab) {
    s.chain != [] && Distinct(s.chain) && s.alloc < s.tot
  }

  lemma AlwaysSafe(c: Cache, size: nat)
    requires Inv(c)
    ensures SallocSafe(c, size)
  {
    var k, j := Find(c, c.used, size), Find(c, c.free, size);
    if k < |c.used| {
      assert c.used[k] in c.used;
      ListedHasRoom(c, c.used[k]);
    } else if j < |c.free| {
      assert c.free[j] in c.free;
      ListedHasRoom(c, c.free[j]);
    }
  }

  /** Some slab of the wanted size is not used up. */
  ghost predicate HasRoom(c: Cache, size: nat) {
    exists p :: p in c.slabs && c.slabs[p].size == size && c.slabs[p].alloc < c.slabs[p].tot
  }

  /** salloc never meets an empty chain, so it never returns with the lock held; it
      finds a buffer exactly when some slab of the wanted size is not used up. */
  lemma SallocKeeps(c: Cache, size: nat)
    requires Inv(c)
    ensures !Salloc(c, size).Stuck?
    ensures Salloc(c, size).Buffer? ==> Allocated(c, size, Salloc(c, size))
    ensures Salloc(c, size).Buffer? <==> HasRoom(c, size)
  {
    var k, j := Find(c, c.used, size), Find(c, c.free, size);
    if k < |c.used| {
      assert c.used[k] in c.used;
      SallocUsed(c, size);
    } else if j < |c.free| {
      assert c.free[j] in c.free;
      TotAtLeastSix(c.slabs[c.free[j]].size);
      SallocFree(c, size);
    } else {
      forall p | p in c.slabs && c.slabs[p].size == size ensures c.slabs[p].alloc >= c.slabs[p].tot {
        assert p !in c.used && p !in c.free;
      }
    }
  }

  /** sfree on a buffer that is out returns exactly that buffer. */
  lemma SfreeKeeps(c: Cache, page: nat, i: nat)
    requires Inv(c) && LiveBuf(c, page, i)
    ensures c.slabs[page].alloc > 0
    ensures var d := Sfree(c, page, i);
            && Inv(d) && !LiveBuf(d, page, i) && OnlyChanged(c, d, page, i)
  {
    var s := c.slabs[page];
    LiveMeansAllocated(s, i);
    TotAtLeastSix(s.size);
    PushKeeps(s, i);
    var d := Sfree(c, page, i);
    assert d.slabs == c.slabs[page := Push(s, i)];
    MovedRelinked(c.free, page);
    MovedRelinked(c.used, page);
    MovedRelinked(c.empty, page);
    SortedAfterMove(c, d, page);
    ChangedSlab(c, d, page, i);
  }

  /** A slab with a buffer missing from its chain has handed something out. */
  lemma LiveMeansAllocated(s: Slab, i: nat)
    requires SlabOk(s) && i <= s.tot && i !in s.chain
    ensures s.alloc > 0
  {
    DistinctExtended(s.chain, i);
    Pigeonhole([i] + s.chain, s.tot + 1);
  }

  /** Different numbers below `n` are at most `n` many. */
  lemma {:induction false} Pigeonhole(xs: seq<nat>, n: nat)
    requires Distinct(xs) && forall k :: k in xs ==> k < n
    ensures |xs| <= n
    decreases n
  {
    if xs != [] {
      assert xs[0] in xs;
      var top: nat := n - 1;
      RemoveFacts(xs, top);
      Pigeonhole(Remove(xs, top), top);
      RemoveLength(xs, top);
    }
  }

  lemma {:induction false} RemoveLength(xs: seq<nat>, x: nat)
    ensures |Remove(xs, x)| >= |xs| - 1
  {
    if xs != [] {
      RemoveLength(xs[1..], x);
    }
  }

  /** sfree undoes salloc: every slab is as it was. */
  lemma SallocThenSfree(c: Cache, size: nat)
    requires Inv(c) && Salloc(c, size).Buffer?
    ensures var r := Salloc(c, size); Sfree(r.c, r.page, r.i).slabs == c.slabs
  {
    hide Salloc, Inv, Sfree;
    var r := Salloc(c, size);
    SallocPops(c, size);
    SfreePushes(r.c, r.page, r.i);
    var s := c.slabs[r.page];
    assert Push(Pop(s), r.i) == s;
    assert c.slabs[r.page := Pop(s)][r.page := s] == c.slabs;
  }

  lemma SfreePushes(c: Cache, page: nat, i: nat)
    requires page in c.slabs && c.slabs[page].alloc > 0
    ensures Sfree(c, page, i).slabs == c.slabs[page := Push(c.slabs[page], i)]
    ensures c.slabs[page].alloc == 1 ==> Sfree(c, page, i).free == Remove(c.free, page) + [page]
    ensures c.slabs[page].alloc > 1 ==> Sfree(c, page, i).used == [page] + Remove(c.used, page)
  {
  }

  lemma SallocPops(c: Cache, size: nat)
    requires Inv(c) && Salloc(c, size).Buffer?
    ensures var r := Salloc(c, size);
            && r.page in c.slabs && c.slabs[r.page].chain != [] && r.i == c.slabs[r.page].chain[0]
            && r.c.slabs == c.slabs[r.page := Pop(c.slabs[r.page])]
  {
    hide Find, Remove, TotFor;
    var k, j := Find(c, c.used, size), Find(c, c.free, size);
    if k < |c.used| {
      assert c.used[k] in c.used;
      ListedHasRoom(c, c.used[k]);
      SallocUsedShape(c, size, c.used[k]);
    } else {
      assert c.free[j] in c.free;
      ListedHasRoom(c, c.free[j]);
      SallocFreeShape(c, size, c.free[j]);
    }
  }

  /** The last buffer given back to a slab with others out is the next one handed out, and then
      every slab is as before; a slab with nothing out any more goes to the tail of the free list. */
  lemma SfreeThenSalloc(c: Cache, page: nat, i: nat)
    requires Inv(c) && LiveBuf(c, page, i)
    ensures var d := Sfree(c, page, i);
            if c.slabs[page].alloc > 1 then
              var r := Salloc(d, c.slabs[page].size);
              r.Buffer? && r.page == page && r.i == i && r.c.slabs == c.slabs
            else d.free != [] && d.free[|d.free| - 1] == page
  {
    hide Inv, Sfree, Salloc, Remove;
    SfreeKeeps(c, page, i);
    SfreePushes(c, page, i);
    var d := Sfree(c, page, i);
    if c.slabs[page].alloc > 1 {
      FirstUsed(d, page, c.slabs[page].size);
      assert ([i] + c.slabs[page].chain)[1..] == c.slabs[page].chain;
      assert Pop(d.slabs[page]) == c.slabs[page];
      assert c.slabs[page := Push(c.slabs[page], i)][page := c.slabs[page]] == c.slabs;
    }
  }

  /** The slab at the head of the used list serves the requests of its size. */
  lemma FirstUsed(c: Cache, page: nat, size: nat)
    requires Inv(c) && c.used != [] && c.used[0] == page && page in c.slabs && c.slabs[page].size == size
    ensures c.slabs[page].chain != []
    ensures var r := Salloc(c, size);
            && r.Buffer? && r.page == page && r.i == c.slabs[page].chain[0]
            && r.c.slabs == c.slabs[page := Pop(c.slabs[page])]
  {
    assert Find(c, c.used, size) == 0;
    ListedHasRoom(c, page);
    hide Find, Inv, TotFor;
    SallocUsedShape(c, size, page);
  }

  /** createSlab adds a slab with nothing out and room for every request of its size. */
  lemma CreateKeeps(c: Cache, page: nat, size: nat)
    requires Inv(c) && page !in c.slabs && page % PAGE == 0 && MIN_SLAB_SIZE <= size <= MAX_SLAB_SIZE
    ensures TotFor(size) >= 6
    ensures var d := CreateSlab(c, page, size);
            && Inv(d) && d.slabs.Keys == c.slabs.Keys + {page} && d.slabs[page].size == size && HasRoom(d, size)
            && !d.slabs[page].pinned && d.slabs[page].alloc == 0 && d.free == c.free + [page]
            && (forall k :: 0 <= k < |d.slabs[page].chain| ==> d.slabs[page].chain[k] == k)
            && (forall p :: p in c.slabs ==> d.slabs[p] == c.slabs[p])
            && forall p, k :: LiveBuf(d, p, k) <==> LiveBuf(c, p, k)
  {
    TotAtLeastSix(size);
    var d := CreateSlab(c, page, size);
    DistinctExtended(c.free, page);
    assert d.slabs[page].alloc < d.slabs[page].tot;
    forall i: nat | i <= d.slabs[page].tot ensures i in d.slabs[page].chain {
      assert d.slabs[page].chain[i] == i;
    }
  }

  /** Reaping one unpinned slab of the free list loses no buffer that is out. */
  lemma ReapKeeps(c: Cache, page: nat)
    requires Inv(c) && page in c.free
    ensures var d := ReapOne(c, page);
            && Inv(d) && d.slabs == c.slabs - {page}
            && (forall k :: !LiveBuf(c, page, k))
            && forall p, k :: LiveBuf(d, p, k) <==> LiveBuf(c, p, k)
  {
    RemoveFacts(c.free, page);
    var s := c.slabs[page];
    TotAtLeastSix(s.size);
    forall k: nat | true ensures !LiveBuf(c, page, k) {
      if k <= s.tot && k !in s.chain {
        LiveMeansAllocated(s, k);
        assert false;
      }
    }
  }

  // ---------------------------------------------------------------- addresses

  lemma {:induction false} OffsetOrder(size: nat, i: nat, j: nat)
    requires i < j
    ensures Offset(size, i) + BUF_HEADER + size <= Offset(size, j)
  {
    if i < j - 1 {
      OffsetOrder(size, i, j - 1);
    }
  }

  /** Every buffer lies inside the page of its slab, behind the header. */
  lemma BufferInPage(s: Slab, page: nat, i: nat)
    requires SlabOk(s) && i <= s.tot
    ensures page + SLAB_HEADER + BUF_HEADER <= UserAddr(page, s.size, i)
    ensures UserAddr(page, s.size, i) + s.size <= page + PAGE
  {
    OffsetFits(PAGE - SLAB_HEADER, s.size);
    assert Offset(s.size, s.tot + 1) == Offset(s.size, s.tot) + BUF_HEADER + s.size;
    if i < s.tot {
      OffsetOrder(s.size, i, s.tot);
    }
  }

  /** Different buffers of one slab do not overlap, headers included. */
  lemma BuffersApart(s: Slab, page: nat, i: nat, j: nat)
    requires i < j
    ensures UserAddr(page, s.size, i) + s.size <= UserAddr(page, s.size, j) - BUF_HEADER
  {
    OffsetOrder(s.size, i, j);
  }

  lemma NewSlabOk(size: nat)
    requires MIN_SLAB_SIZE <= size <= MAX_SLAB_SIZE && TotFor(size) >= 0
    ensures SlabOk(NewSlab(size))
  {
  }

  lemma PagesApart(p: nat, q: nat)
    requires p % PAGE == 0 && q % PAGE == 0 && p != q
    ensures p + PAGE <= q || q + PAGE <= p
  {
  }
}
