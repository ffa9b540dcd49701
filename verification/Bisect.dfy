/** Upper-bound binary search. */
module Bisect {
  import Bits

  predicate Ascending(a: seq<int>) { forall j, k :: 0 <= j < k < |a| ==> a[j] <= a[k] }

  /** How many leading elements are at most x. */
  function UpperBound(a: seq<int>, x: int): (k: nat)
    ensures k <= |a|
  {
    if a == [] || a[0] > x then 0 else 1 + UpperBound(a[1..], x)
  }

  lemma {:induction false} UpperBoundUnique(a: seq<int>, x: int, k: nat)
    requires k <= |a|
    requires forall j :: 0 <= j < k ==> a[j] <= x
    requires k < |a| ==> a[k] > x
    ensures UpperBound(a, x) == k
  {
    if k > 0 {
      assert forall j :: 0 <= j < k - 1 ==> a[1..][j] == a[j + 1];
      UpperBoundUnique(a[1..], x, k - 1);
    }
  }

  lemma {:induction false} UpperBoundSplits(a: seq<int>, x: int)
    ensures forall j :: 0 <= j < UpperBound(a, x) ==> a[j] <= x
    ensures UpperBound(a, x) < |a| ==> a[UpperBound(a, x)] > x
  {
    if a != [] && a[0] <= x {
      UpperBoundSplits(a[1..], x);
      assert forall j :: 1 <= j < |a| ==> a[j] == a[1..][j - 1];
    }
  }

  /** Python's `bisect.bisect_right`. */
  method BisectRight(a: seq<int>, x: int) returns (lo: nat)
    requires Ascending(a)
    ensures lo == UpperBound(a, x)
  {
    var hi := |a|;
    lo := 0;
    while lo < hi
      invariant 0 <= lo <= hi <= |a|
      invariant forall j :: 0 <= j < lo ==> a[j] <= x
      invariant forall j :: hi <= j < |a| ==> a[j] > x
    {
      var mid := (lo + hi) / 2;
      if x < a[mid] { hi := mid; } else { lo := mid + 1; }
    }
    UpperBoundUnique(a, x, lo);
  }

  /** The search loop that worker.c writes out in `is_public` and in `get_ip`. */
  method CUpperBound(a: seq<Bits.uint32>, x: Bits.uint32) returns (lo: nat)
    requires Ascending(a)
    ensures lo == UpperBound(a, x)
  {
    var hi := |a|;
    lo := 0;
    while lo < hi
      invariant 0 <= lo <= hi <= |a|
      invariant forall j :: 0 <= j < lo ==> a[j] <= x
      invariant forall j :: hi <= j < |a| ==> a[j] > x
    {
      var mid := (lo + hi) / 2;
      if a[mid] <= x { lo := mid + 1; } else { hi := mid; }
    }
    UpperBoundUnique(a, x, lo);
  }
}
