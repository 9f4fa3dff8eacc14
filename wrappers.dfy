/** The optional value used throughout the model for JavaScript's `null` and PHP's `?? null`. */
module Wrappers {

  datatype Option<+T> = None | Some(value: T) {

    /** The value inside `Some`, or `default` for `None`. */
    function GetOr(default: T): T {
      match this
      case Some(v) => v
      case None => default
    }
  }

  /** The values `f` yields on the elements of `xs`, in order, skipping the elements where it yields `None`. */
  function FilterMap<T, U>(xs: seq<T>, f: T -> Option<U>): (ys: seq<U>)
    ensures |ys| <= |xs|
    decreases |xs|
  {
    if xs == [] then []
    else
      var n := |xs| - 1;
      FilterMap(xs[..n], f) + (match f(xs[n]) case Some(y) => [y] case None => [])
  }

  /** One element more contributes its value, if it has one, at the end. */
  lemma FilterMapStep<T, U>(xs: seq<T>, f: T -> Option<U>, i: nat)
    requires i < |xs|
    ensures FilterMap(xs[..i + 1], f) == FilterMap(xs[..i], f) + (match f(xs[i]) case Some(y) => [y] case None => [])
  {
    assert xs[..i + 1][..i] == xs[..i];
  }

  /** Every value kept satisfies any property that every value `f` yields satisfies. */
  lemma {:induction false} FilterMapAll<T, U>(xs: seq<T>, f: T -> Option<U>, p: U -> bool, i: nat)
    requires forall x :: f(x).Some? ==> p(f(x).value)
    requires i < |FilterMap(xs, f)|
    ensures p(FilterMap(xs, f)[i])
    decreases |xs|
  {
    var n := |xs| - 1;
    if i < |FilterMap(xs[..n], f)| {
      FilterMapAll(xs[..n], f, p, i);
    }
  }

  /**
   * The positions of `xs` whose element satisfies `p`, in increasing order:
   * every position listed satisfies `p`, and every position that does is listed.
   */
  function Positions<T>(xs: seq<T>, p: T -> bool): (idx: seq<nat>)
    ensures forall t :: 0 <= t < |idx| ==> idx[t] < |xs| && p(xs[idx[t]])
    ensures forall t, u :: 0 <= t < u < |idx| ==> idx[t] < idx[u]
    ensures forall i :: 0 <= i < |xs| && p(xs[i]) ==> i in idx
    decreases |xs|
  {
    if xs == [] then []
    else
      var n := |xs| - 1;
      var before := Positions(xs[..n], p);
      assert forall t :: 0 <= t < |before| ==> xs[..n][before[t]] == xs[before[t]];
      assert forall i :: 0 <= i < n ==> xs[..n][i] == xs[i];
      before + (if p(xs[n]) then [n] else [])
  }

  /** `f` applied to every element, in order. */
  function MapSeq<T, U>(xs: seq<T>, f: T -> U): (ys: seq<U>)
    ensures |ys| == |xs|
    decreases |xs|
  {
    if xs == [] then [] else MapSeq(xs[..|xs| - 1], f) + [f(xs[|xs| - 1])]
  }

  /** Element `i` of the image is the image of element `i`. */
  lemma {:induction false} MapSeqAt<T, U>(xs: seq<T>, f: T -> U, i: nat)
    requires i < |xs|
    ensures MapSeq(xs, f)[i] == f(xs[i])
    decreases |xs|
  {
    var n := |xs| - 1;
    if i < n {
      MapSeqAt(xs[..n], f, i);
    }
  }

  /** One element more contributes its image at the end. */
  lemma MapSeqStep<T, U>(xs: seq<T>, f: T -> U, i: nat)
    requires i < |xs|
    ensures MapSeq(xs[..i + 1], f) == MapSeq(xs[..i], f) + [f(xs[i])]
  {
    assert xs[..i + 1][..i] == xs[..i];
  }
}
