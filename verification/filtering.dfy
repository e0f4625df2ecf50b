/**
 Keeping, in order, the elements of a sequence that pass a test: the shape
 shared by both search variants. Besides the recursive definition this module
 gives an independent description of the result -- an order-preserving
 subsequence holding only passing elements, each passing value as often as in
 the input -- and proves that `Filter` is the one sequence that fits it.
 */
module Filtering {

  function Filter<T>(xs: seq<T>, keep: T -> bool): (r: seq<T>)
    ensures |r| <= |xs|
    ensures forall y :: y in r ==> y in xs && keep(y)
  {
    if |xs| == 0 then []
    else (if keep(xs[0]) then [xs[0]] else []) + Filter(xs[1..], keep)
  }

  /** `r` is obtained from `xs` by deleting elements, without reordering. */
  ghost predicate IsSubsequence<T>(r: seq<T>, xs: seq<T>)
    decreases |xs|
  {
    || |r| == 0
    || (&& |xs| > 0
        && ((r[0] == xs[0] && IsSubsequence(r[1..], xs[1..])) || IsSubsequence(r, xs[1..])))
  }

  /** `r` keeps every element of `xs` that passes `keep`, as often as it occurs there. */
  ghost predicate KeepsAllPassing<T(!new)>(r: seq<T>, xs: seq<T>, keep: T -> bool)
  {
    forall v :: keep(v) ==> multiset(r)[v] == multiset(xs)[v]
  }

  /** Filtering the concatenation is concatenating the filtered parts. */
  lemma {:induction false} FilterAppend<T>(a: seq<T>, b: seq<T>, keep: T -> bool)
    ensures Filter(a + b, keep) == Filter(a, keep) + Filter(b, keep)
    decreases |a|
  {
    if |a| > 0 {
      var head := if keep(a[0]) then [a[0]] else [];
      assert (a + b)[0] == a[0];
      assert (a + b)[1..] == a[1..] + b;
      FilterAppend(a[1..], b, keep);
      assert Filter(a + b, keep) == head + Filter(a[1..] + b, keep);
      assert Filter(a, keep) == head + Filter(a[1..], keep);
    } else {
      assert a + b == b;
    }
  }

  /** Extending the scanned prefix by one element appends it exactly when it passes. */
  lemma FilterSnoc<T>(xs: seq<T>, i: nat, keep: T -> bool)
    requires i < |xs|
    ensures Filter(xs[..i + 1], keep) == Filter(xs[..i], keep) + (if keep(xs[i]) then [xs[i]] else [])
  {
    assert xs[..i + 1] == xs[..i] + [xs[i]];
    FilterAppend(xs[..i], [xs[i]], keep);
  }

  /** The filtered sequence is a subsequence of the input. */
  lemma {:induction false} FilterIsSubsequence<T>(xs: seq<T>, keep: T -> bool)
    ensures IsSubsequence(Filter(xs, keep), xs)
    decreases |xs|
  {
    if |xs| > 0 {
      FilterIsSubsequence(xs[1..], keep);
      var r := Filter(xs, keep);
      if keep(xs[0]) {
        assert r[0] == xs[0] && r[1..] == Filter(xs[1..], keep);
      } else if |r| > 0 {
        assert r == Filter(xs[1..], keep);
      }
    }
  }

  /** Each value occurs in the result as often as in the input if it passes, and never otherwise. */
  lemma {:induction false} FilterCount<T>(xs: seq<T>, keep: T -> bool, v: T)
    ensures multiset(Filter(xs, keep))[v] == if keep(v) then multiset(xs)[v] else 0
    decreases |xs|
  {
    if |xs| > 0 {
      FilterCount(xs[1..], keep, v);
      assert xs == [xs[0]] + xs[1..];
      assert multiset(xs) == multiset{xs[0]} + multiset(xs[1..]);
    }
  }

  lemma FilterKeepsAllPassing<T(!new)>(xs: seq<T>, keep: T -> bool)
    ensures KeepsAllPassing(Filter(xs, keep), xs, keep)
  {
    forall v | keep(v)
      ensures multiset(Filter(xs, keep))[v] == multiset(xs)[v]
    {
      FilterCount(xs, keep, v);
    }
  }

  /** A subsequence never holds a value more often than the sequence it was taken from. */
  lemma {:induction false} SubsequenceMultiset<T>(r: seq<T>, xs: seq<T>)
    requires IsSubsequence(r, xs)
    ensures multiset(r) <= multiset(xs)
    decreases |xs|
  {
    if |r| > 0 {
      assert xs == [xs[0]] + xs[1..];
      if r[0] == xs[0] && IsSubsequence(r[1..], xs[1..]) {
        SubsequenceMultiset(r[1..], xs[1..]);
        assert r == [r[0]] + r[1..];
      } else {
        SubsequenceMultiset(r, xs[1..]);
      }
    }
  }

  /** When nothing passes, nothing is kept. */
  lemma NoneKept<T>(xs: seq<T>, keep: T -> bool)
    requires forall y :: y in xs ==> !keep(y)
    ensures Filter(xs, keep) == []
  {
  }

  /** Filtering keeps everything when everything passes. */
  lemma {:induction false} AllKept<T>(xs: seq<T>, keep: T -> bool)
    requires forall y :: y in xs ==> keep(y)
    ensures Filter(xs, keep) == xs
    decreases |xs|
  {
    if |xs| > 0 {
      assert xs[0] in xs;
      assert forall y :: y in xs[1..] ==> y in xs;
      AllKept(xs[1..], keep);
      assert xs == [xs[0]] + xs[1..];
    }
  }

  /**
   `Filter` is the only sequence that is a subsequence of the input, holds
   only passing elements, and holds every passing value as often as the input.
   */
  lemma {:induction false} FilterUnique<T(!new)>(r: seq<T>, xs: seq<T>, keep: T -> bool)
    requires IsSubsequence(r, xs)
    requires forall y :: y in r ==> keep(y)
    requires KeepsAllPassing(r, xs, keep)
    ensures r == Filter(xs, keep)
    decreases |xs|
  {
    if |r| == 0 {
      assert forall y :: y in xs ==> !keep(y);
      NoneKept(xs, keep);
    } else {
      var x := xs[0];
      var tail := xs[1..];
      assert xs == [x] + tail;
      assert multiset(xs) == multiset{x} + multiset(tail);
      if r[0] == x && IsSubsequence(r[1..], tail) {
        assert r == [x] + r[1..];
        assert multiset(r) == multiset{x} + multiset(r[1..]);
        assert r[0] in r;
        forall y | y in r[1..]
          ensures keep(y)
        {
          assert y in r;
        }
        FilterUnique(r[1..], tail, keep);
      } else {
        assert IsSubsequence(r, tail);
        SubsequenceMultiset(r, tail);
        if keep(x) {
          assert false;
        }
        FilterUnique(r, tail, keep);
      }
    }
  }

  /** Both directions: a sequence is the filtered input exactly when it fits the independent description. */
  lemma FilterCharacterization<T(!new)>(r: seq<T>, xs: seq<T>, keep: T -> bool)
    ensures r == Filter(xs, keep) <==>
              && IsSubsequence(r, xs)
              && (forall y :: y in r ==> keep(y))
              && KeepsAllPassing(r, xs, keep)
  {
    if r == Filter(xs, keep) {
      FilterIsSubsequence(xs, keep);
      FilterKeepsAllPassing(xs, keep);
    } else if IsSubsequence(r, xs) && (forall y :: y in r ==> keep(y)) && KeepsAllPassing(r, xs, keep) {
      FilterUnique(r, xs, keep);
    }
  }
}
