/**
 Order-preserving selection from a sequence, the shape shared by both passes of
 the pivot reconciliation: keep the elements that pass a test, in their
 original order, as a Python `for` loop with an `if` and an `append` does.
 */
module Seqs {

  /** The elements of `xs` for which `keep` holds, in their original order. */
  function Filter<T>(keep: T -> bool, xs: seq<T>): (r: seq<T>)
    ensures |r| <= |xs|
    ensures forall k :: 0 <= k < |r| ==> keep(r[k])
    decreases |xs|
  {
    if |xs| == 0 then []
    else (if keep(xs[0]) then [xs[0]] else []) + Filter(keep, xs[1..])
  }

  /** Selecting from a concatenation selects from each part, the first part first. */
  lemma {:induction false} FilterAppend<T>(keep: T -> bool, xs: seq<T>, ys: seq<T>)
    ensures Filter(keep, xs + ys) == Filter(keep, xs) + Filter(keep, ys)
    decreases |xs|
  {
    if |xs| > 0 {
      assert (xs + ys)[1..] == xs[1..] + ys;
      FilterAppend(keep, xs[1..], ys);
    } else {
      assert xs + ys == ys;
    }
  }

  /** An element occurs in the selection exactly as often as in the input when it passes, never otherwise. */
  lemma {:induction false} FilterCount<T>(keep: T -> bool, xs: seq<T>, x: T)
    ensures multiset(Filter(keep, xs))[x] == if keep(x) then multiset(xs)[x] else 0
    decreases |xs|
  {
    if |xs| > 0 {
      FilterCount(keep, xs[1..], x);
      assert xs == [xs[0]] + xs[1..];
    }
  }

  /** Membership in the selection: an input element that passes the test. */
  lemma FilterMember<T>(keep: T -> bool, xs: seq<T>, x: T)
    ensures x in Filter(keep, xs) <==> x in xs && keep(x)
  {
    FilterCount(keep, xs, x);
  }

  /** Keeping nothing when no element passes. */
  lemma {:induction false} FilterNone<T>(keep: T -> bool, xs: seq<T>)
    requires forall k :: 0 <= k < |xs| ==> !keep(xs[k])
    ensures Filter(keep, xs) == []
    decreases |xs|
  {
    if |xs| > 0 {
      FilterNone(keep, xs[1..]);
    }
  }

  /** Two tests that agree on every element select the same elements. */
  lemma {:induction false} FilterExt<T>(p: T -> bool, q: T -> bool, xs: seq<T>)
    requires forall k :: 0 <= k < |xs| ==> p(xs[k]) == q(xs[k])
    ensures Filter(p, xs) == Filter(q, xs)
    decreases |xs|
  {
    if |xs| > 0 {
      FilterExt(p, q, xs[1..]);
    }
  }
}
