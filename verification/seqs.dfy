/** Order-preserving sequence operations shared by the entity lists and the
    document collections: first match, removal at an index, and filtering. */
module Seqs {

  /** The index of the first element satisfying `p`, or -1 when none does. */
  function FirstIndex<T>(xs: seq<T>, p: T -> bool): (k: int)
    ensures -1 <= k < |xs|
    ensures k >= 0 ==> p(xs[k])
    ensures k >= 0 ==> forall j | 0 <= j < k :: !p(xs[j])
    ensures k == -1 <==> forall j | 0 <= j < |xs| :: !p(xs[j])
  {
    if |xs| == 0 then -1
    else if p(xs[0]) then 0
    else
      var k := FirstIndex(xs[1..], p);
      assert forall j | 1 <= j < |xs| :: xs[j] == xs[1..][j - 1];
      if k == -1 then -1 else k + 1
  }

  /** `xs` without the element at index `k`. */
  function RemoveAt<T>(xs: seq<T>, k: nat): (r: seq<T>)
    requires k < |xs|
    ensures |r| == |xs| - 1
    ensures forall j | 0 <= j < k :: r[j] == xs[j]
    ensures forall j | k <= j < |r| :: r[j] == xs[j + 1]
    ensures multiset(r) + multiset{xs[k]} == multiset(xs)
  {
    assert xs == xs[..k] + [xs[k]] + xs[k + 1..];
    xs[..k] + xs[k + 1..]
  }

  /** The elements of `xs` satisfying `p`, in their original order. */
  function Filter<T(==)>(xs: seq<T>, p: T -> bool): (r: seq<T>)
    ensures |r| <= |xs|
    ensures forall j | 0 <= j < |r| :: p(r[j]) && r[j] in xs
    ensures forall j | 0 <= j < |xs| && p(xs[j]) :: xs[j] in r
    ensures IsSubsequence(r, xs)
    decreases |xs|
  {
    if |xs| == 0 then []
    else
      var rest := Filter(xs[1..], p);
      if p(xs[0]) then
        assert ([xs[0]] + rest)[1..] == rest;
        [xs[0]] + rest
      else
        // the head fails p while every kept element satisfies it
        assert |rest| > 0 ==> rest[0] != xs[0];
        rest
  }

  /** Two filters that agree on every element select the same elements. */
  lemma {:induction false} FilterAgreeing<T>(xs: seq<T>, p: T -> bool, q: T -> bool)
    requires forall x :: p(x) == q(x)
    ensures Filter(xs, p) == Filter(xs, q)
    decreases |xs|
  {
    if |xs| > 0 {
      FilterAgreeing(xs[1..], p, q);
    }
  }

  /** A filter that no element satisfies selects nothing. */
  lemma {:induction false} FilterNoneIsEmpty<T>(xs: seq<T>, p: T -> bool)
    requires forall j | 0 <= j < |xs| :: !p(xs[j])
    ensures Filter(xs, p) == []
  {
    if |xs| > 0 {
      FilterNoneIsEmpty(xs[1..], p);
    }
  }

  /** `a` is obtained from `b` by deleting some elements (order is kept). */
  predicate IsSubsequence<T(==)>(a: seq<T>, b: seq<T>)
    decreases |b|
  {
    if |a| == 0 then true
    else if |b| == 0 then false
    else if a[0] == b[0] then IsSubsequence(a[1..], b[1..])
    else IsSubsequence(a, b[1..])
  }

  /** Filtering distributes over concatenation: matches of an earlier part come first. */
  lemma {:induction false} FilterAppend<T>(a: seq<T>, b: seq<T>, p: T -> bool)
    ensures Filter(a + b, p) == Filter(a, p) + Filter(b, p)
  {
    if |a| == 0 {
      assert a + b == b;
    } else {
      assert (a + b)[1..] == a[1..] + b;
      FilterAppend(a[1..], b, p);
    }
  }

  /** Removing one element that satisfies `p` removes exactly one match of `p`
      and none of the elements failing `p`. */
  lemma FilterRemoveAt<T>(xs: seq<T>, k: nat, p: T -> bool, q: T -> bool)
    requires k < |xs| && p(xs[k])
    requires forall x :: q(x) == !p(x)
    ensures |Filter(RemoveAt(xs, k), p)| == |Filter(xs, p)| - 1
    ensures Filter(RemoveAt(xs, k), q) == Filter(xs, q)
  {
    var a, x, c := xs[..k], xs[k], xs[k + 1..];
    assert xs == a + ([x] + c);
    assert ([x] + c)[1..] == c;
    assert Filter([x] + c, p) == [x] + Filter(c, p);
    assert Filter([x] + c, q) == Filter(c, q);
    FilterAppend(a, [x] + c, p);
    FilterAppend(a, c, p);
    FilterAppend(a, [x] + c, q);
    FilterAppend(a, c, q);
  }
}
