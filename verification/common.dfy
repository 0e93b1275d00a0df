/** Option, Result and an order-preserving filter, shared by every step of the axis merger. */
module Common {

  /** A value that may be absent: an empty CSV cell, an unset descriptor attribute. */
  datatype Option<+T> = None | Some(value: T)

  /** The outcome of a stage that can abort the whole run. */
  datatype Result<+T, +E> = Success(value: T) | Failure(error: E)

  /** No element of `s` occurs twice. */
  predicate NoDuplicates<T(==)>(s: seq<T>) {
    forall i, j :: 0 <= i < j < |s| ==> s[i] != s[j]
  }

  /** The elements of `xs` that are in `keep`, in order. */
  function Filter<T>(xs: seq<T>, keep: set<T>): seq<T> {
    if |xs| == 0 then []
    else (if xs[0] in keep then [xs[0]] else []) + Filter(xs[1..], keep)
  }

  /** Each kept element appears in the filtered sequence at the position given
      by the number of kept elements before it. */
  lemma {:induction false} FilterPositions<T>(xs: seq<T>, keep: set<T>)
    ensures |Filter(xs, keep)| <= |xs|
    ensures forall i :: 0 <= i < |xs| && xs[i] in keep ==>
      && |Filter(xs[..i], keep)| < |Filter(xs, keep)|
      && Filter(xs, keep)[|Filter(xs[..i], keep)|] == xs[i]
    decreases |xs|
  {
    if |xs| > 0 {
      var all := Filter(xs, keep);
      var rest := Filter(xs[1..], keep);
      var here := if xs[0] in keep then [xs[0]] else [];
      FilterPositions(xs[1..], keep);
      forall i | 0 <= i < |xs| && xs[i] in keep
        ensures |Filter(xs[..i], keep)| < |all|
        ensures all[|Filter(xs[..i], keep)|] == xs[i]
      {
        if i == 0 {
          assert xs[..0] == [];
        } else {
          var c := |Filter(xs[1..][..i - 1], keep)|;
          assert xs[..i][1..] == xs[1..][..i - 1];
          assert Filter(xs[..i], keep) == here + Filter(xs[1..][..i - 1], keep);
          assert xs[1..][i - 1] == xs[i];
          assert all[|here| + c] == rest[c];
        }
      }
    }
  }

  /** Only elements of `xs` that are in `keep` survive the filter. */
  lemma {:induction false} FilterMembers<T>(xs: seq<T>, keep: set<T>)
    ensures forall k :: 0 <= k < |Filter(xs, keep)| ==> Filter(xs, keep)[k] in xs && Filter(xs, keep)[k] in keep
    decreases |xs|
  {
    if |xs| > 0 {
      var all := Filter(xs, keep);
      var rest := Filter(xs[1..], keep);
      var here := if xs[0] in keep then [xs[0]] else [];
      FilterMembers(xs[1..], keep);
      forall k | 0 <= k < |all| ensures all[k] in xs && all[k] in keep {
        if k >= |here| {
          assert all[k] == rest[k - |here|];
        }
      }
    }
  }

  /** Two keep-sets that agree on the elements of `xs` filter it alike. */
  lemma {:induction false} FilterAgree<T>(xs: seq<T>, k1: set<T>, k2: set<T>)
    requires forall x :: x in xs ==> (x in k1 <==> x in k2)
    ensures Filter(xs, k1) == Filter(xs, k2)
    decreases |xs|
  {
    if |xs| > 0 {
      assert forall x :: x in xs[1..] ==> x in xs;
      FilterAgree(xs[1..], k1, k2);
    }
  }

  /** Two sequences whose elements are kept at the same positions filter to
      sequences of the same length. */
  lemma {:induction false} FilterSameLength<T>(xs: seq<T>, k1: set<T>, ys: seq<T>, k2: set<T>)
    requires |xs| == |ys|
    requires forall i :: 0 <= i < |xs| ==> (xs[i] in k1 <==> ys[i] in k2)
    ensures |Filter(xs, k1)| == |Filter(ys, k2)|
    decreases |xs|
  {
    if |xs| > 0 {
      assert xs[0] in k1 <==> ys[0] in k2;
      FilterSameLength(xs[1..], k1, ys[1..], k2);
    }
  }
}
