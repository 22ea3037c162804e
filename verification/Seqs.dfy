/** Sequences without duplicates, as the contents of lists. */
module Seqs {
  ghost predicate Distinct<T>(xs: seq<T>) {
    forall i, j :: 0 <= i < j < |xs| ==> xs[i] != xs[j]
  }

  /** `xs` without its element at index `i`. */
  function Without<T>(xs: seq<T>, i: nat): (r: seq<T>)
    requires i < |xs|
  {
    xs[..i] + xs[i + 1..]
  }

  /** `xs` without its first occurrence of `x`. */
  function Remove<T(==)>(xs: seq<T>, x: T): seq<T> {
    if xs == [] then [] else if xs[0] == x then xs[1..] else [xs[0]] + Remove(xs[1..], x)
  }

  lemma DistinctTail<T>(xs: seq<T>)
    requires Distinct(xs) && xs != []
    ensures Distinct(xs[1..]) && xs[0] !in xs[1..]
    ensures forall y :: y in xs <==> y == xs[0] || y in xs[1..]
  {
    assert forall i, j :: 0 <= i < j < |xs[1..]| ==> xs[1..][i] == xs[i + 1] && xs[1..][j] == xs[j + 1];
  }

  lemma {:induction false} RemoveFacts<T>(xs: seq<T>, x: T)
    requires Distinct(xs)
    ensures Distinct(Remove(xs, x))
    ensures forall y :: y in Remove(xs, x) <==> y in xs && y != x
    ensures x !in xs ==> Remove(xs, x) == xs
  {
    if xs != [] {
      DistinctTail(xs);
      RemoveFacts(xs[1..], x);
    }
  }

  lemma {:induction false} RemoveAbsent<T>(xs: seq<T>, x: T)
    requires x !in xs
    ensures Remove(xs, x) == xs
  {
    if xs != [] {
      RemoveAbsent(xs[1..], x);
    }
  }

  lemma {:induction false} RemoveAtIndex<T>(xs: seq<T>, i: nat)
    requires Distinct(xs) && i < |xs|
    ensures Remove(xs, xs[i]) == Without(xs, i)
  {
    if i > 0 {
      DistinctTail(xs);
      RemoveAtIndex(xs[1..], i - 1);
    }
  }

  lemma WithoutIsGone<T>(xs: seq<T>, i: nat)
    requires Distinct(xs) && i < |xs|
    ensures Without(xs, i) == Remove(xs, xs[i]) && xs[i] !in Without(xs, i)
  {
    RemoveAtIndex(xs, i);
    RemoveFacts(xs, xs[i]);
  }

  lemma DistinctExtended<T>(xs: seq<T>, x: T)
    requires Distinct(xs) && x !in xs
    ensures Distinct(xs + [x]) && Distinct([x] + xs)
    ensures forall y :: y in xs + [x] <==> y in xs || y == x
    ensures forall y :: y in [x] + xs <==> y in xs || y == x
  {
  }

  lemma Assoc<T>(a: seq<T>, b: seq<T>, c: seq<T>)
    ensures (a + b) + c == a + (b + c) && [] + c == c
  {
  }
}
