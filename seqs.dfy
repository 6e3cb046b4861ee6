/** Generic operations on sequences: the boolean-mask selection that pandas
    performs with `df[mask]`, subsequences, and duplicate-free sequences. */
module Seqs {

  /** `a` can be obtained from `b` by deleting elements, keeping the order. */
  predicate IsSubsequence<T(==,!new)>(a: seq<T>, b: seq<T>)
    decreases |b|
  {
    a == [] || (b != [] && ((a[0] == b[0] && IsSubsequence(a[1..], b[1..])) || IsSubsequence(a, b[1..])))
  }

  /** The elements of `xs` for which the mask `f` is true, in their original order. */
  function Where<T(==,!new)>(xs: seq<T>, f: T -> bool): (r: seq<T>)
    ensures |r| <= |xs|
    ensures forall x :: x in r <==> x in xs && f(x)
  {
    if xs == [] then []
    else if f(xs[0]) then [xs[0]] + Where(xs[1..], f)
    else Where(xs[1..], f)
  }

  /** Selection keeps the relative order of the kept elements. */
  lemma {:induction false} WhereIsSubsequence<T(!new)>(xs: seq<T>, f: T -> bool)
    ensures IsSubsequence(Where(xs, f), xs)
  {
    if xs != [] {
      WhereIsSubsequence(xs[1..], f);
      if !f(xs[0]) {
        SubsequenceOfTail(Where(xs[1..], f), xs);
      }
    }
  }

  /** A subsequence of the tail is a subsequence of the whole. */
  lemma {:induction false} SubsequenceOfTail<T(!new)>(a: seq<T>, b: seq<T>)
    requires b != [] && IsSubsequence(a, b[1..])
    ensures IsSubsequence(a, b)
  {
  }

  /** A mask that is true everywhere keeps the sequence unchanged. */
  lemma {:induction false} WhereKeepsAll<T(!new)>(xs: seq<T>, f: T -> bool)
    requires forall x :: x in xs ==> f(x)
    ensures Where(xs, f) == xs
  {
    if xs != [] {
      WhereKeepsAll(xs[1..], f);
      assert xs == [xs[0]] + xs[1..];
    }
  }

  /** A mask that is false everywhere keeps nothing. */
  lemma {:induction false} WhereKeepsNone<T(!new)>(xs: seq<T>, f: T -> bool)
    requires forall x :: x in xs ==> !f(x)
    ensures Where(xs, f) == []
  {
    if xs != [] {
      WhereKeepsNone(xs[1..], f);
    }
  }

  /** Two masks that agree on the elements give the same selection. */
  lemma {:induction false} WhereExtensional<T(!new)>(xs: seq<T>, f: T -> bool, g: T -> bool)
    requires forall x :: x in xs ==> f(x) == g(x)
    ensures Where(xs, f) == Where(xs, g)
  {
    if xs != [] {
      WhereExtensional(xs[1..], f, g);
    }
  }

  /** Selecting twice is selecting once with the conjunction of the masks. */
  lemma {:induction false} WhereFuse<T(!new)>(xs: seq<T>, f: T -> bool, g: T -> bool, h: T -> bool)
    requires forall x :: x in xs ==> h(x) == (f(x) && g(x))
    ensures Where(Where(xs, f), g) == Where(xs, h)
  {
    if xs != [] {
      WhereFuse(xs[1..], f, g, h);
      if f(xs[0]) {
        assert Where(xs, f) == [xs[0]] + Where(xs[1..], f);
        assert Where(xs, f)[1..] == Where(xs[1..], f);
      }
    }
  }

  /** Selections commute. */
  lemma WhereCommute<T(!new)>(xs: seq<T>, f: T -> bool, g: T -> bool)
    ensures Where(Where(xs, f), g) == Where(Where(xs, g), f)
  {
    WhereFuse(xs, f, g, x => f(x) && g(x));
    WhereFuse(xs, g, f, x => f(x) && g(x));
  }

  /** Selecting again with the same mask changes nothing. */
  lemma WhereIdempotent<T(!new)>(xs: seq<T>, f: T -> bool)
    ensures Where(Where(xs, f), f) == Where(xs, f)
  {
    WhereKeepsAll(Where(xs, f), f);
  }

  /** Every element goes to exactly one side of a mask. */
  lemma {:induction false} WherePartition<T(!new)>(xs: seq<T>, f: T -> bool, g: T -> bool)
    requires forall x :: g(x) == !f(x)
    ensures |Where(xs, f)| + |Where(xs, g)| == |xs|
  {
    if xs != [] {
      WherePartition(xs[1..], f, g);
    }
  }

  /** No value occurs twice. */
  predicate Distinct<T(==,!new)>(xs: seq<T>) {
    forall i, j :: 0 <= i < j < |xs| ==> xs[i] != xs[j]
  }

  /** The distinct values of `xs` in order of first appearance, as pandas' `unique()` returns them. */
  function Unique<T(==,!new)>(xs: seq<T>): (r: seq<T>)
    ensures Distinct(r)
    ensures forall x :: x in r <==> x in xs
  {
    if xs == [] then []
    else
      var rest := Unique(xs[..|xs| - 1]);
      assert xs == xs[..|xs| - 1] + [xs[|xs| - 1]];
      if xs[|xs| - 1] in rest then rest else rest + [xs[|xs| - 1]]
  }

  /** In a duplicate-free sequence every value occurs at most once. */
  lemma {:induction false} DistinctCounts<T(!new)>(xs: seq<T>, x: T)
    requires Distinct(xs)
    ensures multiset(xs)[x] <= 1
  {
    if xs != [] {
      assert xs == [xs[0]] + xs[1..];
      DistinctCounts(xs[1..], x);
      if xs[0] == x {
        assert x !in xs[1..];
      }
    }
  }

  /** Two positions holding the same value make it occur at least twice. */
  lemma RepeatedCounts<T(!new)>(xs: seq<T>, i: nat, j: nat)
    requires i < j < |xs| && xs[i] == xs[j]
    ensures multiset(xs)[xs[i]] >= 2
  {
    assert xs == xs[..j] + xs[j..];
    assert xs[i] in xs[..j];
    assert xs[j] in xs[j..];
  }

  /** A permutation of a duplicate-free sequence is duplicate-free. */
  lemma PermutationKeepsDistinct<T(!new)>(a: seq<T>, b: seq<T>)
    requires Distinct(a) && multiset(a) == multiset(b)
    ensures Distinct(b)
  {
    forall i, j | 0 <= i < j < |b|
      ensures b[i] != b[j]
    {
      if b[i] == b[j] {
        RepeatedCounts(b, i, j);
        DistinctCounts(a, b[i]);
      }
    }
  }
}
