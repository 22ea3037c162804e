/** Power-of-two page blocks: sizes, alignment and buddies (mem/mem.h, mem/buddy.c).
    Alignment is defined by repeated halving, so its laws follow by induction on
    the order. */
module Blocks {

  const MAX_ORDER := 10

  /** PAGES_PER_BLOCK: the number of pages in a block of the given order. */
  function Pages(order: nat): (n: nat)
    ensures n >= 1
  {
    if order == 0 then 1 else 2 * Pages(order - 1)
  }

  /** PAGES_PER_BLOCK(MAX_ORDER). */
  const TOP := 1024

  lemma TopPages()
    ensures Pages(MAX_ORDER) == TOP
  {
    assert Pages(4) == 16;
    assert Pages(8) == 256;
  }

  /** Page number `p` is a multiple of Pages(order). */
  predicate Aligned(p: nat, order: nat) {
    order == 0 || (p % 2 == 0 && Aligned(p / 2, order - 1))
  }

  /** The other half of the block of the next order that contains block `p`. */
  function BuddyOf(p: nat, order: nat): (q: nat)
    ensures Aligned(p, order) ==>
              && Aligned(q, order) && q != p
              && (if Aligned(p, order + 1) then q == p + Pages(order)
                  else p == q + Pages(order) && Aligned(q, order + 1))
              && !(Aligned(p, order + 1) && Aligned(q, order + 1))
  {
    BuddyFacts(p, order);
    if Aligned(p, order + 1) then p + Pages(order)
    else if p >= Pages(order) then p - Pages(order)
    else p
  }

  lemma BuddySymmetric(p: nat, order: nat)
    requires Aligned(p, order)
    ensures BuddyOf(BuddyOf(p, order), order) == p
  {
  }

  lemma {:induction false} BuddyFacts(p: nat, order: nat)
    ensures Aligned(p, order) ==> Aligned(p + Pages(order), order)
    ensures Aligned(p, order + 1) ==> Aligned(p, order) && !Aligned(p + Pages(order), order + 1)
    ensures Aligned(p, order) && !Aligned(p, order + 1) ==>
              p >= Pages(order) && Aligned(p - Pages(order), order + 1) && Aligned(p - Pages(order), order)
  {
    if order > 0 {
      BuddyFacts(p / 2, order - 1);
      assert (p + Pages(order)) / 2 == p / 2 + Pages(order - 1);
      if Aligned(p, order) && !Aligned(p, order + 1) {
        assert (p - Pages(order)) / 2 == p / 2 - Pages(order - 1);
      }
    } else {
      assert Aligned(p / 2, 0) && Aligned((p + 1) / 2, 0);
      if p % 2 == 1 {
        assert Aligned((p - 1) / 2, 0);
      }
    }
  }

  /** The parity test of calc_my_buddy_new_pfn decides which half a block is. */
  lemma {:induction false} ParityTest(p: nat, order: nat)
    requires Aligned(p, order)
    ensures (p / Pages(order)) % 2 == 0 <==> Aligned(p, order + 1)
  {
    if order > 0 {
      ParityTest(p / 2, order - 1);
      var m := Pages(order - 1);
      assert p == 2 * (p / 2);
      HalveQuotient(p / 2, m);
    }
  }

  lemma HalveQuotient(q: nat, m: nat)
    requires m >= 1
    ensures (2 * q) / (2 * m) == q / m
  {
    var d := q / m;
    assert q == d * m + q % m;
    assert 2 * q == d * (2 * m) + 2 * (q % m);
    assert 2 * (q % m) < 2 * m;
    QuotientUnique(2 * q, 2 * m, d, 2 * (q % m));
  }

  lemma NonzeroMultiple(k: int, m: nat)
    ensures k >= 1 ==> k * m >= m
    ensures k <= -1 ==> k * m <= 0 - m
  {
    assert k * m == (k - 1) * m + m == (k + 1) * m - m;
  }

  lemma QuotientUnique(x: nat, m: nat, d: nat, r: nat)
    requires m >= 1 && r < m && x == d * m + r
    ensures x / m == d
  {
    var e := x / m;
    assert x == e * m + x % m;
    assert (d - e) * m == d * m - e * m;
    NonzeroMultiple(d - e, m);
  }

  lemma {:induction false} AlignedDown(p: nat, hi: nat, lo: nat)
    requires Aligned(p, hi) && lo <= hi
    ensures Aligned(p, lo)
  {
    if lo > 0 {
      AlignedDown(p / 2, hi - 1, lo - 1);
    }
  }

  lemma {:induction false} PagesMonotone(lo: nat, hi: nat)
    requires lo <= hi
    ensures Pages(lo) <= Pages(hi)
    ensures lo < hi ==> 2 * Pages(lo) <= Pages(hi)
  {
    if lo < hi {
      PagesMonotone(lo, hi - 1);
    }
  }

  /** A whole block fits between two different block boundaries. */
  lemma {:induction false} BlockGap(p: nat, q: nat, order: nat)
    requires Aligned(p, order) && Aligned(q, order) && p < q
    ensures p + Pages(order) <= q
  {
    if order > 0 {
      BlockGap(p / 2, q / 2, order - 1);
    }
  }

  lemma BlockEnd(q: nat, hi: nat, lo: nat) returns (end: nat)
    requires Aligned(q, hi) && lo <= hi
    ensures end == q + Pages(hi) && Aligned(end, lo)
  {
    end := q + Pages(hi);
    BuddyFacts(q, hi);
    AlignedDown(end, hi, lo);
  }

  /** Two aligned blocks are disjoint or the smaller lies inside the larger. */
  lemma NestedOrDisjoint(p: nat, lo: nat, q: nat, hi: nat)
    requires Aligned(p, lo) && Aligned(q, hi) && lo <= hi
    ensures || p + Pages(lo) <= q
            || q + Pages(hi) <= p
            || (q <= p && p + Pages(lo) <= q + Pages(hi))
  {
    AlignedDown(q, hi, lo);
    var end := BlockEnd(q, hi, lo);
    if p < q {
      BlockGap(p, q, lo);
    } else if p < end {
      BlockGap(p, end, lo);
    }
  }

  /** Below the largest order, the buddy of a block of the zone is in the zone. */
  lemma BuddyInZone(p: nat, order: nat, tot: nat)
    requires Aligned(p, order) && order < MAX_ORDER && Aligned(tot, MAX_ORDER) && p < tot
    ensures BuddyOf(p, order) < tot
  {
    if Aligned(p, order + 1) {
      AlignedDown(tot, MAX_ORDER, order + 1);
      BlockGap(p, tot, order + 1);
    }
  }

  /** The start of the block of the next order around block `p`. */
  function ParentOf(p: nat, order: nat): (q: nat)
    ensures Aligned(p, order) ==>
              && Aligned(q, order + 1)
              && q <= p && p + Pages(order) <= q + Pages(order + 1)
              && (q == p || q == BuddyOf(p, order))
  {
    if Aligned(p, order + 1) then p else BuddyOf(p, order)
  }
}
