/** `InclusionManager`: the surviving addresses laid end to end and addressed by shuffled index. */
module Inclusion {
  import Arithmetic
  import opened Wrappers
  import opened Bits
  import opened Ranges
  import opened Bisect
  import opened Blacklist
  import opened Feistel
  import opened CycleWalk

  type pos = n: int | n >= 1 witness 1

  datatype Network = Network(net: nat, size: pos, start: nat) {
    function Span(): Range { Range(net, net + size - 1) }
  }

  /** Nothing in the manager changes once it is built, so it is a value. */
  datatype InclusionManager = InclusionManager(
    networks: seq<Network>, totalIps: nat, starts: seq<int>, singleNet: bool, shuffler: Shuffler)
  {
    function Ranges(): seq<Range> { SpansOf(networks) }

    ghost predicate Valid() {
      && networks != []
      && Normal(Ranges()) && InAddressSpace(Ranges())
      && Laid(networks)
      && totalIps == TotalSize(Ranges())
      && starts == StartsOf(networks)
      && singleNet == (|networks| == 1)
      && shuffler.Valid() && shuffler.maxVal == totalIps && shuffler.halfBits <= 16
    }

    /** The address probed for an index: shuffle, then take that many steps into the survivors. */
    ghost function AddressOf(index: nat): nat
      requires Valid()
    {
      ShuffleBijective(shuffler, index % totalIps);
      Nth(Ranges(), Shuffle(shuffler, index % totalIps))
    }
  }

  function SpansOf(networks: seq<Network>): (rs: seq<Range>)
    ensures |rs| == |networks|
    ensures forall k :: 0 <= k < |networks| ==> rs[k] == networks[k].Span()
  {
    seq(|networks|, k requires 0 <= k < |networks| => networks[k].Span())
  }

  function BasesOf(networks: seq<Network>): (bases: seq<int>)
    ensures |bases| == |networks|
    ensures forall k :: 0 <= k < |networks| ==> bases[k] == networks[k].net
  {
    seq(|networks|, k requires 0 <= k < |networks| => networks[k].net)
  }

  function StartsOf(networks: seq<Network>): (starts: seq<int>)
    ensures |starts| == |networks|
    ensures forall k :: 0 <= k < |networks| ==> starts[k] == networks[k].start
  {
    seq(|networks|, k requires 0 <= k < |networks| => networks[k].start)
  }

  /** Each network starts where the previous ones end. */
  ghost predicate Laid(networks: seq<Network>) {
    forall k :: 0 <= k < |networks| ==> networks[k].start == TotalSize(SpansOf(networks)[..k])
  }

  // ----- The idx-th surviving address, and the rank of an address -----

  ghost function Nth(rs: seq<Range>, idx: int): nat
    requires Normal(rs) && 0 <= idx < TotalSize(rs)
  {
    var n := |rs| - 1;
    var below := TotalSize(rs[..n]);
    if idx >= below then rs[n].first + (idx - below) else Nth(rs[..n], idx)
  }

  ghost function Rank(rs: seq<Range>, x: int): int
  {
    if rs == [] then 0
    else
      var n := |rs| - 1;
      if x >= rs[n].first then TotalSize(rs[..n]) + (x - rs[n].first) else Rank(rs[..n], x)
  }

  lemma {:induction false} TotalSizePositive(rs: seq<Range>)
    requires Normal(rs)
    ensures TotalSize(rs) >= |rs|
  {
    if rs != [] { TotalSizePositive(rs[..|rs| - 1]); }
  }

  lemma CoversLast(rs: seq<Range>, x: int)
    requires Normal(rs) && rs != []
    ensures var n := |rs| - 1;
            && (Covers(rs, x) <==> Covers(rs[..n], x) || rs[n].Contains(x))
            && (Covers(rs[..n], x) ==> x < rs[n].first)
            && TotalSize(rs) == TotalSize(rs[..n]) + rs[n].Size()
  {
    hide Covers, Normal;
    var n := |rs| - 1;
    assert rs == rs[..n] + [rs[n]];
    CoversAppend(rs[..n], rs[n]);
    if Covers(rs[..n], x) { CoveredBeforeLast(rs, x); }
  }

  lemma CoveredBeforeLast(rs: seq<Range>, x: int)
    requires Normal(rs) && rs != [] && Covers(rs[..|rs| - 1], x)
    ensures x < rs[|rs| - 1].first
  {
    var r :| r in rs[..|rs| - 1] && r.Contains(x);
    var j: nat :| j < |rs| - 1 && rs[j] == r;
  }

  lemma {:induction false} NthHasRank(rs: seq<Range>, idx: int)
    requires Normal(rs) && 0 <= idx < TotalSize(rs)
    ensures Covers(rs, Nth(rs, idx)) && Rank(rs, Nth(rs, idx)) == idx
  {
    var n := |rs| - 1;
    CoversLast(rs, Nth(rs, idx));
    if idx < TotalSize(rs[..n]) { NthHasRank(rs[..n], idx); }
  }

  /** In ascending order: with NthHasRank and RankIsIndex, Nth(rs, i) is the i-th covered address. */
  lemma {:induction false} NthAscends(rs: seq<Range>, i: int, j: int)
    requires Normal(rs) && 0 <= i < j < TotalSize(rs)
    ensures Nth(rs, i) < Nth(rs, j)
  {
    var n := |rs| - 1;
    CoversLast(rs, 0);
    if j < TotalSize(rs[..n]) {
      NthAscends(rs[..n], i, j);
    } else if i < TotalSize(rs[..n]) {
      NthHasRank(rs[..n], i);
      CoversLast(rs, Nth(rs[..n], i));
    }
  }

  lemma {:induction false} RankIsIndex(rs: seq<Range>, x: int)
    requires Normal(rs) && Covers(rs, x)
    ensures 0 <= Rank(rs, x) < TotalSize(rs) && Nth(rs, Rank(rs, x)) == x
  {
    var n := |rs| - 1;
    CoversLast(rs, x);
    TotalSizePositive(rs[..n]);
    if x < rs[n].first { RankIsIndex(rs[..n], x); }
  }

  lemma {:induction false} PrefixSumsAscend(rs: seq<Range>, j: nat, k: nat)
    requires Normal(rs) && j < k <= |rs|
    ensures TotalSize(rs[..j]) + rs[j].Size() <= TotalSize(rs[..k])
    decreases k
  {
    assert rs[..k][..k - 1] == rs[..k - 1];
    if j < k - 1 { PrefixSumsAscend(rs, j, k - 1); }
  }

  lemma NthDropLast(rs: seq<Range>, idx: int)
    requires Normal(rs) && rs != [] && 0 <= idx < TotalSize(rs[..|rs| - 1])
    ensures idx < TotalSize(rs) && Nth(rs, idx) == Nth(rs[..|rs| - 1], idx)
  {
  }

  lemma {:induction false} NthOfPrefix(rs: seq<Range>, idx: int, k: nat)
    requires Normal(rs) && k <= |rs| && 0 <= idx < TotalSize(rs[..k])
    ensures idx < TotalSize(rs) && Nth(rs, idx) == Nth(rs[..k], idx)
  {
    if k == |rs| {
      assert rs[..k] == rs;
    } else {
      var t := rs[..|rs| - 1];
      assert t[..k] == rs[..k];
      NthOfPrefix(t, idx, k);
      NthDropLast(rs, idx);
    }
  }

  /** The prefix sums locate the range that holds the idx-th address. */
  lemma NthInRange(rs: seq<Range>, idx: int, k: nat)
    requires Normal(rs) && k < |rs|
    requires TotalSize(rs[..k]) <= idx < TotalSize(rs[..k + 1])
    ensures 0 <= idx < TotalSize(rs) && Nth(rs, idx) == rs[k].first + (idx - TotalSize(rs[..k]))
  {
    hide Nth, TotalSize;
    TotalSizePositive(rs[..k]);
    NthOfPrefix(rs, idx, k + 1);
    assert rs[..k + 1][..k] == rs[..k];
    NthInLast(rs[..k + 1], idx);
  }

  lemma NthInLast(rs: seq<Range>, idx: int)
    requires Normal(rs) && rs != [] && 0 <= idx && TotalSize(rs[..|rs| - 1]) <= idx < TotalSize(rs)
    ensures Nth(rs, idx) == rs[|rs| - 1].first + (idx - TotalSize(rs[..|rs| - 1]))
  {
  }

  // ----- Construction -----

  function TargetsOf(networksList: seq<Option<Range>>): seq<Range> {
    if networksList == [] then [Range(0, TWO32 - 1)] else Parsed(networksList)
  }

  /** What a scan is meant to probe. When no target could be parsed the manager falls back to
      the whole address space, and does not subtract the blacklist from it. */
  ghost predicate Intended(targets: seq<Range>, blacklist: Option<seq<nat>>, x: int) {
    if targets == [] then 0 <= x < TWO32
    else Covers(targets, x) && !(blacklist.Some? && Blocked(blacklist.value, x))
  }

  method BuildInclusion(networksList: seq<Option<Range>>, seed: int, blacklist: Option<seq<nat>>)
    returns (r: Result<InclusionManager, string>)
    requires NonEmpty(TargetsOf(networksList)) && InAddressSpace(TargetsOf(networksList))
    requires blacklist.Some? ==> ValidFlat(blacklist.value)
    ensures r.Failure? <==> forall x :: !Intended(TargetsOf(networksList), blacklist, x)
    ensures r.Success? ==> r.value.Valid() && r.value.shuffler == MakeShuffler(seed, r.value.totalIps)
    ensures r.Success? ==>
      forall x :: Covers(r.value.Ranges(), x) <==> Intended(TargetsOf(networksList), blacklist, x)
    ensures TargetsOf(networksList) == [] ==> r.Success? && forall x :: 0 <= x < TWO32 ==> Covers(r.value.Ranges(), x)
    ensures networksList == [] && r.Success? ==> forall x ::
      Covers(r.value.Ranges(), x) <==> 0 <= x < TWO32 && !(blacklist.Some? && Blocked(blacklist.value, x))
  {
    WholeTarget();
    hide Parsed, TotalSize, SortedByFirst;
    var ranges := TargetsOf(networksList);
    var merged := MergeRanges(ranges);
    WitnessCovered(ranges);
    WitnessCovered(merged);
    var hadTargets := merged != [];
    if blacklist.Some? && blacklist.value != [] {
      FlatPairs(blacklist.value);
      merged := SubtractRanges(merged, Pairs(blacklist.value));
      WitnessCovered(merged);
      if hadTargets && merged == [] {
        assert forall x :: !Covers(merged, x) && !Intended(ranges, blacklist, x);
        return Failure("all target networks are excluded by the blacklist");
      }
    }
    CoveredInSpace(ranges, merged);
    var networks, totalIps := LayOut(merged);
    if networks == [] {
      networks := [Network(0, 0x1_0000_0000, 0)];
      totalIps := 0x1_0000_0000;
    }
    WholeSpace();
    r := Success(Assemble(networks, seed, totalIps));
    WitnessCovered(SpansOf(networks));
    ghost var x0 :| Covers(SpansOf(networks), x0);
    assert Intended(ranges, blacklist, x0);
  }

  /** The attributes that depend on the finished network list. */
  function Assemble(networks: seq<Network>, seed: int, totalIps: nat): (inc: InclusionManager)
    requires networks != [] && Normal(SpansOf(networks)) && InAddressSpace(SpansOf(networks))
    requires Laid(networks) && totalIps == TotalSize(SpansOf(networks))
    ensures inc.Valid() && inc.Ranges() == SpansOf(networks) && inc.shuffler == MakeShuffler(seed, inc.totalIps)
  {
    SizeOfSpace(SpansOf(networks));
    BlockSizing(seed, totalIps);
    InclusionManager(networks, totalIps, StartsOf(networks), |networks| == 1, MakeShuffler(seed, totalIps))
  }

  /** The loop that lays the merged ranges end to end. */
  method LayOut(merged: seq<Range>) returns (networks: seq<Network>, totalIps: nat)
    requires NonEmpty(merged)
    ensures SpansOf(networks) == merged && Laid(networks) && totalIps == TotalSize(merged)
  {
    networks, totalIps := [], 0;
    hide LaidUpTo;
    LayBegins(merged);
    for i := 0 to |merged|
      invariant LaidUpTo(networks, totalIps, merged, i)
    {
      LayNext(networks, totalIps, merged, i);
      networks := networks + [Network(merged[i].first, merged[i].last - merged[i].first + 1, totalIps)];
      totalIps := totalIps + merged[i].last - merged[i].first + 1;
    }
    LayEnds(networks, totalIps, merged);
  }

  /** The first i ranges are laid end to end. */
  ghost predicate LaidUpTo(networks: seq<Network>, totalIps: int, merged: seq<Range>, i: nat) {
    && i == |networks| <= |merged| && totalIps == TotalSize(merged[..i]) >= 0
    && forall k :: 0 <= k < i ==> networks[k].Span() == merged[k] && networks[k].start == TotalSize(merged[..k])
  }

  lemma LayBegins(merged: seq<Range>)
    ensures LaidUpTo([], 0, merged, 0)
  {
  }

  lemma LayNext(networks: seq<Network>, totalIps: nat, merged: seq<Range>, i: nat)
    requires NonEmpty(merged) && i < |merged| && LaidUpTo(networks, totalIps, merged, i)
    ensures merged[i].first <= merged[i].last
    ensures LaidUpTo(networks + [Network(merged[i].first, merged[i].last - merged[i].first + 1, totalIps)],
                     totalIps + merged[i].last - merged[i].first + 1, merged, i + 1)
  {
    assert merged[i] in merged;
    TotalSizeNext(merged, i);
    hide TotalSize;
  }

  lemma LayEnds(networks: seq<Network>, totalIps: int, merged: seq<Range>)
    requires LaidUpTo(networks, totalIps, merged, |merged|)
    ensures SpansOf(networks) == merged && Laid(networks) && totalIps == TotalSize(merged)
  {
    hide TotalSize;
    assert merged[..|merged|] == merged;
    assert SpansOf(networks) == merged;
  }

  lemma TotalSizeNext(rs: seq<Range>, i: nat)
    requires i < |rs|
    ensures TotalSize(rs[..i + 1]) == TotalSize(rs[..i]) + rs[i].Size()
  {
    assert rs[..i + 1][..i] == rs[..i];
  }

  lemma WholeTarget()
    ensures forall x :: Covers(TargetsOf([]), x) <==> 0 <= x < TWO32
  {
    assert TargetsOf([])[0] in TargetsOf([]);
  }

  lemma WholeSpace()
    ensures var all := SpansOf([Network(0, 0x1_0000_0000, 0)]);
            && Normal(all) && InAddressSpace(all) && Laid([Network(0, 0x1_0000_0000, 0)])
            && TotalSize(all) == TWO32 && forall x :: Covers(all, x) <==> 0 <= x < TWO32
  {
    var all := SpansOf([Network(0, 0x1_0000_0000, 0)]);
    assert all == [Range(0, TWO32 - 1)] && all[0] in all;
    assert all[..0] == [];
  }

  lemma WitnessCovered(rs: seq<Range>)
    requires NonEmpty(rs)
    ensures rs != [] <==> exists x :: Covers(rs, x)
  {
    if rs != [] {
      assert rs[0] in rs && rs[0].Contains(rs[0].first);
      assert Covers(rs, rs[0].first);
    }
  }

  lemma FlatPairs(flat: seq<nat>)
    requires ValidFlat(flat)
    ensures |flat| % 2 == 0 && Normal(Pairs(flat)) && SortedByFirst(Pairs(flat))
  {
    hide Pairs, Flatten, Normal;
    var rs :| Normal(rs) && flat == Flatten(rs);
    PairsOfFlat(rs);
    NormalSorted(rs);
  }

  /** Normal ranges of 32-bit addresses hold at most 2^32 of them. */
  lemma SizeOfSpace(rs: seq<Range>)
    requires Normal(rs) && InAddressSpace(rs)
    ensures |rs| <= TotalSize(rs) <= TWO32
  {
    TotalSizePositive(rs);
    TotalSizeIsCardinality(rs);
    Arithmetic.BoundedSetSize(AddressSet(rs), 0, TWO32);
  }

  // ----- Lookup -----

  method GetRandomIpInt(inc: InclusionManager, index: nat) returns (ip: nat)
    requires inc.Valid()
    ensures ip == inc.AddressOf(index)
  {
    hide Nth, UpperBound, TotalSize, Shuffle;
    var reduced := index % inc.totalIps;
    ShuffleBijective(inc.shuffler, reduced);
    var idx, _ := Get(inc.shuffler, reduced);
    LookupMeets(inc, idx);
    if inc.singleNet { return inc.networks[0].net + idx; }
    var i := BisectRight(inc.starts, idx);
    var n := inc.networks[i - 1];
    return n.net + (idx - n.start);
  }

  /** The arrays handed to the C worker describe the ranges rs. */
  ghost predicate Tables(rs: seq<Range>, bases: seq<uint32>, starts: seq<uint32>) {
    && |bases| == |starts| == |rs|
    && forall k :: 0 <= k < |rs| ==> bases[k] == rs[k].first && starts[k] == TotalSize(rs[..k])
  }

  /** `get_ip` of the C worker, over 32-bit arrays. */
  method CGetIp(shufIdx: uint32, ghost rs: seq<Range>, bases: seq<uint32>, starts: seq<uint32>, single: bool)
    returns (ip: uint32)
    requires Normal(rs) && InAddressSpace(rs) && shufIdx < TotalSize(rs)
    requires Tables(rs, bases, starts) && single == (|rs| == 1)
    ensures ip == Nth(rs, shufIdx)
  {
    hide Nth, TotalSize, UpperBound;
    TablesLookup(rs, bases, starts, shufIdx);
    if single { return WrappingAdd(bases[0], shufIdx); }
    var lo := CUpperBound(starts, shufIdx);
    // lo == 0 is impossible: the first start offset is 0
    return WrappingAdd(bases[lo - 1], shufIdx - starts[lo - 1]);
  }

  lemma TablesLookup(rs: seq<Range>, bases: seq<uint32>, starts: seq<uint32>, idx: uint32)
    requires Normal(rs) && InAddressSpace(rs) && idx < TotalSize(rs) && Tables(rs, bases, starts)
    ensures Ascending(starts)
    ensures var k := UpperBound(starts, idx) - 1;
            0 <= k < |rs| && starts[k] <= idx && bases[k] + (idx - starts[k]) == Nth(rs, idx) < TWO32
    ensures |rs| == 1 ==> bases[0] + idx == Nth(rs, idx)
  {
    StartsLookup(rs, starts, idx);
    NthInSpace(rs, idx);
    if |rs| == 1 { assert UpperBound(starts, idx) == 1; }
  }

  lemma NthInSpace(rs: seq<Range>, idx: nat)
    requires Normal(rs) && InAddressSpace(rs) && idx < TotalSize(rs)
    ensures Nth(rs, idx) < TWO32
  {
  }

  function WrappingAdd(a: uint32, b: uint32): (c: uint32)
    ensures a + b < TWO32 ==> c == a + b
  {
    if a + b < TWO32 then a + b else a + b - TWO32
  }

  /** What the upper-bound search on the start offsets finds. */
  lemma LookupMeets(inc: InclusionManager, idx: nat)
    requires inc.Valid() && idx < inc.totalIps
    ensures Ascending(inc.starts)
    ensures var k := UpperBound(inc.starts, idx) - 1;
            0 <= k < |inc.networks| && inc.networks[k].start <= idx &&
            Nth(inc.Ranges(), idx) == inc.networks[k].net + (idx - inc.networks[k].start)
    ensures inc.singleNet ==> Nth(inc.Ranges(), idx) == inc.networks[0].net + idx
    ensures Nth(inc.Ranges(), idx) < TWO32
  {
    var rs := inc.Ranges();
    assert forall k :: 0 <= k < |rs| ==> inc.starts[k] == TotalSize(rs[..k]);
    StartsLookup(rs, inc.starts, idx);
    NthInSpace(rs, idx);
    if inc.singleNet { assert UpperBound(inc.starts, idx) == 1; }
  }

  lemma StartsLookup(rs: seq<Range>, starts: seq<int>, idx: nat)
    requires Normal(rs) && idx < TotalSize(rs) && |starts| == |rs|
    requires forall k :: 0 <= k < |rs| ==> starts[k] == TotalSize(rs[..k])
    ensures Ascending(starts)
    ensures var k := UpperBound(starts, idx) - 1;
            0 <= k < |rs| && starts[k] <= idx && Nth(rs, idx) == rs[k].first + (idx - starts[k])
  {
    hide Nth, UpperBound;
    forall j, k | 0 <= j < k < |starts| ensures starts[j] <= starts[k] {
      PrefixSumsAscend(rs, j, k);
    }
    UpperBoundSplits(starts, idx);
    assert rs != [] && starts[0] == 0;
    var k := UpperBound(starts, idx) - 1;
    if k + 1 == |rs| { assert rs[..|rs|] == rs; }
    NthInRange(rs, idx, k);
  }

  // ----- Index to address is a bijection onto the survivors -----

  ghost function IndexOf(inc: InclusionManager, x: int): nat
    requires inc.Valid() && Covers(inc.Ranges(), x)
  {
    RankIsIndex(inc.Ranges(), x);
    Unshuffle(inc.shuffler, Rank(inc.Ranges(), x))
  }

  lemma AddressOfIndex(inc: InclusionManager, i: nat)
    requires inc.Valid() && i < inc.totalIps
    ensures Covers(inc.Ranges(), inc.AddressOf(i)) && IndexOf(inc, inc.AddressOf(i)) == i
  {
    Arithmetic.SmallMod(i, inc.totalIps);
    ShuffleBijective(inc.shuffler, i);
    NthHasRank(inc.Ranges(), Shuffle(inc.shuffler, i));
  }

  lemma IndexOfAddress(inc: InclusionManager, x: int)
    requires inc.Valid() && Covers(inc.Ranges(), x)
    ensures IndexOf(inc, x) < inc.totalIps && inc.AddressOf(IndexOf(inc, x)) == x
  {
    RankIsIndex(inc.Ranges(), x);
    ShuffleBijective(inc.shuffler, Rank(inc.Ranges(), x));
    Arithmetic.SmallMod(IndexOf(inc, x), inc.totalIps);
  }
}
