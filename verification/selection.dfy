/** Order-preserving selection of rows, the shape shared by a boolean-mask
    filter of a table (search_movies) and by `dropna` (preprocessing). */
module Selection {

  /** The positions of the elements of `s` that `keep` accepts, ascending:
      the row labels a boolean-mask filter keeps. */
  function Positions<T>(s: seq<T>, keep: T -> bool): (ps: seq<nat>)
    ensures |ps| <= |s|
    ensures forall k :: 0 <= k < |ps| ==> ps[k] < |s| && keep(s[ps[k]])
    ensures forall i :: 0 <= i < |s| && keep(s[i]) ==> i in ps
    ensures forall a, b :: 0 <= a < b < |ps| ==> ps[a] < ps[b]
    decreases |s|
  {
    if s == [] then []
    else
      var last := |s| - 1;
      Positions(s[..last], keep) + (if keep(s[last]) then [last] else [])
  }

  /** When every element is kept, the positions are 0, 1, ..., |s| - 1. */
  lemma {:induction false} PositionsAll<T>(s: seq<T>, keep: T -> bool)
    requires forall i :: 0 <= i < |s| ==> keep(s[i])
    ensures |Positions(s, keep)| == |s|
    ensures forall k :: 0 <= k < |s| ==> Positions(s, keep)[k] == k
    decreases |s|
  {
    if s != [] {
      var last := |s| - 1;
      PositionsAll(s[..last], keep);
    }
  }

  /** When no element is kept, there are no positions. */
  lemma {:induction false} PositionsNone<T>(s: seq<T>, keep: T -> bool)
    requires forall i :: 0 <= i < |s| ==> !keep(s[i])
    ensures Positions(s, keep) == []
    decreases |s|
  {
    if s != [] {
      var last := |s| - 1;
      PositionsNone(s[..last], keep);
    }
  }
}
