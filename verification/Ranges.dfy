/** Closed address ranges: sorting, merging, subtracting. */
module Ranges {
  import opened Arithmetic
  import Bits

  datatype Range = Range(first: nat, last: nat) {
    predicate Contains(x: int) { first <= x <= last }

    function Size(): int { last - first + 1 }
  }

  ghost predicate Covers(rs: seq<Range>, x: int) { exists r :: r in rs && r.Contains(x) }

  predicate NonEmpty(rs: seq<Range>) { forall r :: r in rs ==> r.first <= r.last }

  /** Non-empty, sorted, disjoint and not even adjacent. */
  predicate Normal(rs: seq<Range>) {
    && NonEmpty(rs)
    && forall j, k :: 0 <= j < k < |rs| ==> rs[j].last + 1 < rs[k].first
  }

  predicate InAddressSpace(rs: seq<Range>) { forall r :: r in rs ==> r.last < Bits.TWO32 }

  predicate SortedByFirst(rs: seq<Range>) {
    forall j, k :: 0 <= j < k < |rs| ==> rs[j].first <= rs[k].first
  }

  lemma NormalSorted(rs: seq<Range>)
    requires Normal(rs)
    ensures SortedByFirst(rs)
  {
    forall j, k | 0 <= j < k < |rs| ensures rs[j].first <= rs[k].first { assert rs[j] in rs; }
  }

  lemma CoveredInSpace(ranges: seq<Range>, merged: seq<Range>)
    requires NonEmpty(merged) && InAddressSpace(ranges)
    requires forall x :: Covers(merged, x) ==> Covers(ranges, x)
    ensures InAddressSpace(merged)
  {
    forall r | r in merged ensures r.last < Bits.TWO32 {
      assert r.Contains(r.last);
      assert Covers(ranges, r.last);
    }
  }

  // ----- list.sort() on (first, last) tuples -----

  predicate TupleLess(a: Range, b: Range) { a.first < b.first || (a.first == b.first && a.last < b.last) }

  function Insert(r: Range, rs: seq<Range>): (s: seq<Range>)
    requires SortedByFirst(rs)
    ensures SortedByFirst(s) && forall x :: x in s <==> x == r || x in rs
  {
    if rs == [] || TupleLess(r, rs[0]) then [r] + rs
    else
      assert rs == [rs[0]] + rs[1..];
      var t := Insert(r, rs[1..]);
      SortedTail(rs);
      SortedCons(rs[0], t);
      [rs[0]] + t
  }

  lemma SortedTail(rs: seq<Range>)
    requires SortedByFirst(rs) && rs != []
    ensures forall x :: x in rs[1..] ==> rs[0].first <= x.first
  {
  }

  lemma SortedCons(h: Range, t: seq<Range>)
    requires SortedByFirst(t) && forall x :: x in t ==> h.first <= x.first
    ensures SortedByFirst([h] + t)
  {
    forall k | 0 <= k < |t| ensures h.first <= t[k].first {
      assert t[k] in t;
    }
  }

  function Sort(rs: seq<Range>): (s: seq<Range>)
    ensures SortedByFirst(s) && forall x :: x in s <==> x in rs
  {
    if rs == [] then [] else Insert(rs[0], Sort(rs[1..]))
  }

  // ----- Merging -----

  /** The merge loop shared by both managers' constructors. */
  method MergeRanges(ranges: seq<Range>) returns (merged: seq<Range>)
    requires NonEmpty(ranges)
    ensures Normal(merged)
    ensures forall x :: Covers(merged, x) <==> Covers(ranges, x)
  {
    var sorted := Sort(ranges);
    merged := [];
    hide MergedUpTo;
    MergeBegins(sorted);
    for i := 0 to |sorted|
      invariant MergedUpTo(merged, sorted, i)
    {
      var r := sorted[i];
      var n := |merged|;
      MergeStep(merged, sorted, i);
      if merged != [] && r.first <= merged[n - 1].last + 1 {
        merged := merged[n - 1 := merged[n - 1].(last := Max(merged[n - 1].last, r.last))];
      } else {
        merged := merged + [r];
      }
    }
    MergeEnds(merged, sorted, ranges);
  }

  /** The merge loop has dealt with the first i ranges. */
  ghost predicate MergedUpTo(merged: seq<Range>, sorted: seq<Range>, i: nat) {
    && i <= |sorted| && Normal(merged)
    && (merged != [] && i < |sorted| ==> merged[|merged| - 1].first <= sorted[i].first)
    && forall x :: Covers(merged, x) <==> Covers(sorted[..i], x)
  }

  lemma MergeBegins(sorted: seq<Range>)
    ensures MergedUpTo([], sorted, 0)
  {
  }

  lemma MergeStep(merged: seq<Range>, sorted: seq<Range>, i: nat)
    requires MergedUpTo(merged, sorted, i) && i < |sorted| && NonEmpty(sorted) && SortedByFirst(sorted)
    ensures var n, r := |merged|, sorted[i];
            MergedUpTo(if merged != [] && r.first <= merged[n - 1].last + 1
                       then merged[n - 1 := merged[n - 1].(last := Max(merged[n - 1].last, r.last))]
                       else merged + [r], sorted, i + 1)
  {
    var n, r := |merged|, sorted[i];
    assert sorted[..i + 1] == sorted[..i] + [r];
    CoversAppend(sorted[..i], r);
    hide Covers;
    if merged != [] && r.first <= merged[n - 1].last + 1 { WidenLast(merged, r); } else { AppendApart(merged, r); }
  }

  lemma MergeEnds(merged: seq<Range>, sorted: seq<Range>, ranges: seq<Range>)
    requires MergedUpTo(merged, sorted, |sorted|) && forall r :: r in sorted <==> r in ranges
    ensures Normal(merged) && forall x :: Covers(merged, x) <==> Covers(ranges, x)
  {
    assert sorted[..|sorted|] == sorted;
  }

  lemma AppendApart(merged: seq<Range>, r: Range)
    requires Normal(merged) && r.first <= r.last
    requires merged != [] ==> merged[|merged| - 1].last + 1 < r.first
    ensures Normal(merged + [r])
    ensures forall x :: Covers(merged + [r], x) <==> Covers(merged, x) || r.Contains(x)
  {
    CoversAppend(merged, r);
    forall j | 0 <= j < |merged| ensures merged[j].last + 1 < r.first { }
  }

  lemma WidenLast(merged: seq<Range>, r: Range)
    requires Normal(merged) && merged != [] && r.first <= r.last
    requires merged[|merged| - 1].first <= r.first <= merged[|merged| - 1].last + 1
    ensures var n := |merged| - 1;
            var wide := merged[n := merged[n].(last := Max(merged[n].last, r.last))];
            Normal(wide) && forall x :: Covers(wide, x) <==> Covers(merged, x) || r.Contains(x)
  {
    var n := |merged| - 1;
    var w := merged[n].(last := Max(merged[n].last, r.last));
    assert merged == merged[..n] + [merged[n]] && merged[n := w] == merged[..n] + [w];
    CoversAppend(merged[..n], merged[n]);
    CoversAppend(merged[..n], w);
  }

  lemma CoversAppend(rs: seq<Range>, r: Range)
    ensures forall x :: Covers(rs + [r], x) <==> Covers(rs, x) || r.Contains(x)
  {
    forall x ensures Covers(rs + [r], x) <==> Covers(rs, x) || r.Contains(x) {
      if r.Contains(x) { assert r in rs + [r]; }
      if Covers(rs, x) {
        var q :| q in rs && q.Contains(x);
        assert q in rs + [r];
      }
    }
  }

  // ----- Subtracting the blacklist -----

  method SubtractRanges(incl: seq<Range>, bl: seq<Range>) returns (result: seq<Range>)
    requires Normal(incl)
    requires NonEmpty(bl) && SortedByFirst(bl)
    ensures Normal(result)
    ensures forall x :: Covers(result, x) <==> Covers(incl, x) && !Covers(bl, x)
  {
    result := [];
    for i := 0 to |incl|
      invariant Normal(result)
      invariant i < |incl| ==> EndsBefore(result, incl[i].first)
      invariant forall x :: Covers(result, x) <==> Covers(incl[..i], x) && !Covers(bl, x)
    {
      var pieces := CarveRange(incl[i].first, incl[i].last, bl);
      ghost var before := result;
      result := result + pieces;
      CoversConcat(before, pieces);
      assert incl[..i + 1] == incl[..i] + [incl[i]];
      CoversAppend(incl[..i], incl[i]);
    }
    assert incl[..|incl|] == incl;
  }

  /** The inner loop: what is left of one inclusion range. */
  method CarveRange(first: nat, last: nat, bl: seq<Range>) returns (pieces: seq<Range>)
    requires first <= last && NonEmpty(bl) && SortedByFirst(bl)
    ensures Normal(pieces)
    ensures forall r :: r in pieces ==> first <= r.first && r.last <= last
    ensures forall x :: Covers(pieces, x) <==> first <= x <= last && !Covers(bl, x)
  {
    pieces := [];
    var cur := first;
    var j := 0;
    while j < |bl| && cur <= last
      invariant 0 <= j <= |bl| && first <= cur
      invariant Normal(pieces) && EndsBefore(pieces, cur)
      invariant forall r :: r in pieces ==> first <= r.first && r.last <= last
      invariant NoneContains(bl, j, cur, last)
      invariant forall x :: Covers(pieces, x) <==> first <= x < cur && x <= last && !Covers(bl, x)
    {
      var s, e := bl[j].first, bl[j].last;
      if !(e < cur || s > last) {
        SliceRemoved(bl, j, cur, last);
        if s > cur {
          CoversAppend(pieces, Range(cur, Min(s - 1, last)));
          pieces := pieces + [Range(cur, Min(s - 1, last))];
        }
        cur := Max(cur, e + 1);
      }
      j := j + 1;
    }
    if cur <= last {
      NoneCovers(bl, cur, last);
      CoversAppend(pieces, Range(cur, last));
      pieces := pieces + [Range(cur, last)];
    }
  }

  ghost predicate NoneContains(bl: seq<Range>, j: nat, lo: int, hi: int) {
    forall k, x :: 0 <= k < j && k < |bl| && lo <= x <= hi ==> !bl[k].Contains(x)
  }

  lemma NoneCovers(bl: seq<Range>, lo: int, hi: int)
    requires NoneContains(bl, |bl|, lo, hi)
    ensures forall x :: lo <= x <= hi ==> !Covers(bl, x)
  {
    forall r, x | r in bl && lo <= x <= hi ensures !r.Contains(x) {
      var k :| 0 <= k < |bl| && bl[k] == r;
    }
  }

  lemma CoversConcat(a: seq<Range>, b: seq<Range>)
    ensures forall x :: Covers(a + b, x) <==> Covers(a, x) || Covers(b, x)
  {
    assert forall r :: r in a + b <==> r in a || r in b;
    forall x ensures Covers(a + b, x) <==> Covers(a, x) || Covers(b, x) {
      if Covers(a, x) { var r :| r in a && r.Contains(x); assert r in a + b; }
      if Covers(b, x) { var r :| r in b && r.Contains(x); assert r in a + b; }
    }
  }

  predicate EndsBefore(rs: seq<Range>, x: int) { forall r :: r in rs ==> r.last + 1 < x }

  /** What the j-th blacklist range removes from the slice that starts at cur. */
  lemma SliceRemoved(bl: seq<Range>, j: nat, cur: int, last: int)
    requires SortedByFirst(bl) && j < |bl| && bl[j].last >= cur && bl[j].first <= last
    requires NoneContains(bl, j, cur, last)
    ensures forall x :: cur <= x <= bl[j].last && x <= last ==> (Covers(bl, x) <==> x >= bl[j].first)
  {
    forall x | cur <= x <= bl[j].last && x <= last ensures Covers(bl, x) <==> x >= bl[j].first {
      if x >= bl[j].first { assert bl[j].Contains(x); }
      if Covers(bl, x) {
        var r :| r in bl && r.Contains(x);
        var k :| 0 <= k < |bl| && bl[k] == r;
        assert k >= j;
      }
    }
  }

  // ----- Sizes -----

  function TotalSize(rs: seq<Range>): int
  {
    if rs == [] then 0 else TotalSize(rs[..|rs| - 1]) + rs[|rs| - 1].Size()
  }

  ghost function AddressSet(rs: seq<Range>): (s: set<int>)
    ensures forall x :: x in s <==> Covers(rs, x)
  {
    if rs == [] then {}
    else
      var n := |rs| - 1;
      assert rs == rs[..n] + [rs[n]];
      CoversAppend(rs[..n], rs[n]);
      AddressSet(rs[..n]) + Span(rs[n].first, rs[n].last)
  }

  ghost function Span(lo: int, hi: int): (s: set<int>)
    ensures forall x :: x in s <==> lo <= x <= hi
    ensures lo <= hi + 1 ==> |s| == hi - lo + 1
    decreases hi - lo + 1
  {
    if lo > hi then {} else Span(lo, hi - 1) + {hi}
  }

  /** The prefix-sum total of normal ranges counts their addresses. */
  lemma {:induction false} TotalSizeIsCardinality(rs: seq<Range>)
    requires Normal(rs)
    ensures |AddressSet(rs)| == TotalSize(rs)
  {
    if rs != [] {
      var n := |rs| - 1;
      TotalSizeIsCardinality(rs[..n]);
      var span := Span(rs[n].first, rs[n].last);
      assert AddressSet(rs[..n]) !! span;
      assert AddressSet(rs) == AddressSet(rs[..n]) + span;
    }
  }
}
