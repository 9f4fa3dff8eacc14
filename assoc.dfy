/**
 * Building a dictionary by assigning key/value pairs one after another, as the
 * bot does with `Map.set` and the web backend does with `$labels[$key] = ...`:
 * every assigned key ends up present, nothing else does, and when a key is
 * assigned more than once the last assignment wins.
 */
module Assoc {
  import opened Wrappers

  /** The map obtained by assigning the pairs of `ps` from first to last. */
  function MapOfPairs<K, V>(ps: seq<(K, V)>): map<K, V>
    decreases |ps|
  {
    if ps == [] then map[] else MapOfPairs(ps[..|ps| - 1])[ps[|ps| - 1].0 := ps[|ps| - 1].1]
  }

  /** Assigning one more pair is an update of the map built so far. */
  lemma MapOfPairsSnoc<K, V>(ps: seq<(K, V)>, p: (K, V))
    ensures MapOfPairs(ps + [p]) == MapOfPairs(ps)[p.0 := p.1]
  {
    assert (ps + [p])[..|ps|] == ps;
  }

  /** Every key that some pair assigns is in the map. */
  lemma {:induction false} MapOfPairsHasKey<K, V>(ps: seq<(K, V)>, i: nat)
    requires i < |ps|
    ensures ps[i].0 in MapOfPairs(ps)
    decreases |ps|
  {
    if i < |ps| - 1 {
      MapOfPairsHasKey(ps[..|ps| - 1], i);
    }
  }

  /** Every key of the map was assigned by some pair, and the value is that of a pair with that key. */
  lemma {:induction false} MapOfPairsOnlyAssigned<K, V>(ps: seq<(K, V)>, k: K)
    requires k in MapOfPairs(ps)
    ensures exists i :: 0 <= i < |ps| && ps[i].0 == k && ps[i].1 == MapOfPairs(ps)[k]
    decreases |ps|
  {
    var n := |ps| - 1;
    if ps[n].0 != k {
      MapOfPairsOnlyAssigned(ps[..n], k);
      var i :| 0 <= i < n && ps[..n][i].0 == k && ps[..n][i].1 == MapOfPairs(ps[..n])[k];
      assert ps[i] == ps[..n][i];
    } else {
      assert ps[n].1 == MapOfPairs(ps)[k];
    }
  }

  /** The value of a key is the one given by the last pair that assigns it. */
  lemma {:induction false} MapOfPairsLastWins<K, V>(ps: seq<(K, V)>, i: nat)
    requires i < |ps|
    requires forall j :: i < j < |ps| ==> ps[j].0 != ps[i].0
    ensures ps[i].0 in MapOfPairs(ps) && MapOfPairs(ps)[ps[i].0] == ps[i].1
    decreases |ps|
  {
    if i < |ps| - 1 {
      var init := ps[..|ps| - 1];
      assert init[i] == ps[i];
      MapOfPairsLastWins(init, i);
    }
  }
  /** Assigning `a` and then `b` gives the map of `a` overridden by the map of `b`. */
  lemma {:induction false} MapOfPairsAppend<K, V>(a: seq<(K, V)>, b: seq<(K, V)>)
    ensures MapOfPairs(a + b) == MapOfPairs(a) + MapOfPairs(b)
    decreases |b|
  {
    if b == [] {
      assert a + b == a;
    } else {
      var n := |b| - 1;
      assert (a + b)[..|a + b| - 1] == a + b[..n];
      MapOfPairsAppend(a, b[..n]);
    }
  }

  /** Assigning the pairs `f` yields for one more element: its pair, if any, overrides what came before. */
  lemma MapOfFilterMapSnoc<T, K, V>(xs: seq<T>, x: T, f: T -> Option<(K, V)>)
    ensures var m := MapOfPairs(FilterMap(xs + [x], f));
      match f(x)
      case Some(p) => m == MapOfPairs(FilterMap(xs, f))[p.0 := p.1]
      case None => m == MapOfPairs(FilterMap(xs, f))
  {
    var ys := xs + [x];
    FilterMapStep(ys, f, |xs|);
    assert ys[..|xs|] == xs && ys[..|xs| + 1] == ys;
    match f(x)
    case Some(p) =>
      MapOfPairsSnoc(FilterMap(xs, f), p);
    case None =>
      assert FilterMap(ys, f) == FilterMap(xs, f) + [];
      assert FilterMap(xs, f) + [] == FilterMap(xs, f);
  }
}
