/** `java.util.ArrayList` operations on elements whose class does not override
    `equals`: `contains` and `remove(Object)` compare object identities. The
    elements may be richer values; `id` projects each to its identity. */
module IdentityList {
  import opened Lang
  import Seqs

  /** `list.contains(x)`: some element is the object `x`. */
  predicate Contains<T>(xs: seq<T>, id: T -> ObjId, x: ObjId) {
    exists i | 0 <= i < |xs| :: id(xs[i]) == x
  }

  /** `list.indexOf(x)`: the position of the first element that is the object `x`, or -1. */
  function IndexOf<T>(xs: seq<T>, id: T -> ObjId, x: ObjId): (k: int)
    ensures -1 <= k < |xs|
    ensures k >= 0 ==> id(xs[k]) == x && forall j | 0 <= j < k :: id(xs[j]) != x
    ensures k == -1 <==> !Contains(xs, id, x)
  {
    Seqs.FirstIndex(xs, e => id(e) == x)
  }

  /** No object occurs twice in the list. */
  predicate Distinct<T>(xs: seq<T>, id: T -> ObjId) {
    forall i, j | 0 <= i < j < |xs| :: id(xs[i]) != id(xs[j])
  }

  /** `if (!list.contains(x)) list.add(x)`. */
  function AddIfAbsent<T>(xs: seq<T>, id: T -> ObjId, x: T): (r: seq<T>)
    ensures Contains(r, id, id(x))
    ensures Contains(xs, id, id(x)) ==> r == xs
    ensures !Contains(xs, id, id(x)) ==> |r| == |xs| + 1 && r[..|xs|] == xs && r[|xs|] == x
  {
    if Contains(xs, id, id(x)) then xs
    else
      var r := xs + [x];
      assert id(r[|xs|]) == id(x);
      r
  }

  /** `list.remove(x)`: drops the first element that is the object `x`, if any. */
  function RemoveFirst<T>(xs: seq<T>, id: T -> ObjId, x: ObjId): (r: seq<T>)
    ensures !Contains(xs, id, x) ==> r == xs
    ensures Contains(xs, id, x) ==> |r| == |xs| - 1
    ensures Contains(xs, id, x) ==>
      var k := IndexOf(xs, id, x);
      r[..k] == xs[..k] && r[k..] == xs[k + 1..]
  {
    var k := IndexOf(xs, id, x);
    if k == -1 then xs else Seqs.RemoveAt(xs, k)
  }

  /** Adding keeps a duplicate-free list duplicate-free. */
  lemma AddIfAbsentKeepsDistinct<T>(xs: seq<T>, id: T -> ObjId, x: T)
    requires Distinct(xs, id)
    ensures Distinct(AddIfAbsent(xs, id, x), id)
  {
  }

  /** Removing keeps a duplicate-free list duplicate-free, and afterwards the
      object is no longer in it. */
  lemma {:induction false} RemoveFirstKeepsDistinct<T>(xs: seq<T>, id: T -> ObjId, x: ObjId)
    requires Distinct(xs, id)
    ensures Distinct(RemoveFirst(xs, id, x), id)
    ensures !Contains(RemoveFirst(xs, id, x), id, x)
  {
    var r := RemoveFirst(xs, id, x);
    if Contains(xs, id, x) {
      var k := IndexOf(xs, id, x);
      forall i | 0 <= i < |r|
        ensures id(r[i]) != x
      {
        if i < k {
          assert r[i] == xs[i];
        } else {
          assert r[i] == r[k..][i - k] == xs[k + 1..][i - k] == xs[i + 1];
        }
      }
      forall i, j | 0 <= i < j < |r|
        ensures id(r[i]) != id(r[j])
      {
        var i' := if i < k then i else i + 1;
        var j' := if j < k then j else j + 1;
        assert r[i] == xs[i'] by {
          if i >= k { assert r[i] == r[k..][i - k]; }
        }
        assert r[j] == xs[j'] by {
          if j >= k { assert r[j] == r[k..][j - k]; }
        }
      }
    }
  }

  /** Removing an object just added to a list that did not hold it restores the list. */
  lemma RemoveUndoesAdd<T>(xs: seq<T>, id: T -> ObjId, x: T)
    requires !Contains(xs, id, id(x))
    ensures RemoveFirst(AddIfAbsent(xs, id, x), id, id(x)) == xs
  {
    var ys := AddIfAbsent(xs, id, x);
    assert IndexOf(ys, id, id(x)) == |xs| by {
      assert id(ys[|xs|]) == id(x);
      assert forall j | 0 <= j < |xs| :: ys[j] == xs[j];
    }
  }
}
