/** Positions into a sequence, used to state that a filtered list keeps
    the order of the list it was taken from. */
module Sequences {

  /** Strictly increasing positions: the elements they pick come in the
      order of the original sequence, each at most once. */
  predicate Increasing(s: seq<nat>) {
    forall a, b :: 0 <= a < b < |s| ==> s[a] < s[b]
  }

  lemma IncreasingSnoc(s: seq<nat>, x: nat)
    requires Increasing(s)
    requires forall k :: 0 <= k < |s| ==> s[k] < x
    ensures Increasing(s + [x])
  {
  }

  /** The elements of `xs` at the positions where `keep` is true, in order. */
  function Select<T>(xs: seq<T>, keep: seq<bool>): (r: seq<T>)
    requires |keep| == |xs|
    ensures |r| <= |xs|
  {
    if xs == [] then []
    else
      var n := |xs| - 1;
      var r := Select(xs[..n], keep[..n]);
      if keep[n] then r + [xs[n]] else r
  }

  /** `Select` keeps exactly the flagged positions, in increasing order:
      `pos` lists them, and the m-th kept element is `xs[pos[m]]`. */
  lemma {:induction false} SelectPositions<T>(xs: seq<T>, keep: seq<bool>) returns (pos: seq<nat>)
    requires |keep| == |xs|
    ensures Increasing(pos) && |pos| == |Select(xs, keep)|
    ensures forall m :: 0 <= m < |pos| ==> pos[m] < |xs| && Select(xs, keep)[m] == xs[pos[m]]
    ensures forall k :: 0 <= k < |xs| ==> (k in pos <==> keep[k])
  {
    if xs == [] {
      pos := [];
    } else {
      var n := |xs| - 1;
      var p := SelectPositions(xs[..n], keep[..n]);
      assert forall k :: 0 <= k < n ==> xs[..n][k] == xs[k] && keep[..n][k] == keep[k];
      assert forall m :: 0 <= m < |p| ==> p[m] < n;
      if keep[n] {
        IncreasingSnoc(p, n);
        pos := p + [n];
      } else {
        pos := p;
      }
    }
  }
}
