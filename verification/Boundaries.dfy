/** Bookkeeping that maps the position of a raw operation back to the user operation it
    belongs to: the position of each user operation's last raw operation, searched with
    std::lower_bound. */
module Boundaries {

  /** std::lower_bound on positions: the first one not below `x`. */
  function LowerBound(bounds: seq<int>, x: int): (r: nat)
    ensures r <= |bounds|
    ensures forall i :: 0 <= i < r ==> bounds[i] < x
    ensures r < |bounds| ==> x <= bounds[r]
  {
    if bounds == [] || x <= bounds[0] then 0 else 1 + LowerBound(bounds[1..], x)
  }

  predicate StrictlyIncreasing(bounds: seq<int>) {
    forall i, j :: 0 <= i < j < |bounds| ==> bounds[i] < bounds[j]
  }

  /** std::lower_bound as a binary search, for sorted positions. */
  method Search(bounds: seq<int>, x: int) returns (r: nat)
    requires StrictlyIncreasing(bounds)
    ensures r == LowerBound(bounds, x)
  {
    hide LowerBound;
    var hi := |bounds|;
    r := 0;
    while r < hi
      invariant 0 <= r <= hi <= |bounds|
      invariant forall i :: 0 <= i < r ==> bounds[i] < x
      invariant forall i :: hi <= i < |bounds| ==> x <= bounds[i]
    {
      var mid := (r + hi) / 2;
      if bounds[mid] < x {
        r := mid + 1;
      } else {
        hi := mid;
      }
    }
    assert r < |bounds| ==> x <= bounds[r];
  }

  lemma LowerBoundAll(bounds: seq<int>, x: int)
    requires forall i :: 0 <= i < |bounds| ==> bounds[i] < x
    ensures LowerBound(bounds, x) == |bounds|
  {
  }

  lemma LowerBoundAppend(bounds: seq<int>, last: int, x: int)
    ensures var r := LowerBound(bounds, x);
      LowerBound(bounds + [last], x) == if r < |bounds| || x <= last then r else r + 1
  {
    var all := bounds + [last];
    assert all[|bounds|] == last;
    assert forall i :: 0 <= i < |bounds| ==> all[i] == bounds[i];
  }
}
