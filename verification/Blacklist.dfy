/** `BlacklistManager`: flattened merged ranges and the parity lookup. */
module Blacklist {
  import Arithmetic
  import opened Wrappers
  import Bits
  import opened Ranges
  import opened Bisect

  /** The flattened list [start, end, start, end, ...]. */
  function Flatten(rs: seq<Range>): (flat: seq<nat>)
    ensures |flat| == 2 * |rs|
  {
    if rs == [] then [] else [rs[0].first, rs[0].last] + Flatten(rs[1..])
  }

  /** `(flat[i], flat[i + 1]) for i in range(0, len(flat), 2)`. */
  function Pairs(flat: seq<nat>): seq<Range>
    requires |flat| % 2 == 0
  {
    if flat == [] then [] else [Range(flat[0], flat[1])] + Pairs(flat[2..])
  }

  ghost predicate ValidFlat(flat: seq<nat>) {
    exists rs :: Normal(rs) && flat == Flatten(rs)
  }

  ghost predicate Blocked(flat: seq<nat>, x: int) { |flat| % 2 == 0 && Covers(Pairs(flat), x) }

  /** Unparsable networks (None) are skipped. */
  function Parsed(networks: seq<Option<Range>>): (rs: seq<Range>)
    ensures forall r :: r in rs <==> Some(r) in networks
  {
    if networks == [] then []
    else
      assert forall r: Range :: Some(r) in networks <==> networks[0] == Some(r) || Some(r) in networks[1..];
      if networks[0].None? then Parsed(networks[1..]) else [networks[0].value] + Parsed(networks[1..])
  }

  /** `BlacklistManager.__init__`. */
  method BuildBlacklist(networks: seq<Option<Range>>) returns (flat: seq<Bits.uint32>)
    requires NonEmpty(Parsed(networks)) && InAddressSpace(Parsed(networks))
    ensures ValidFlat(flat)
    ensures forall x :: Blocked(flat, x) <==> Covers(Parsed(networks), x)
  {
    var merged := MergeRanges(Parsed(networks));
    CoveredInSpace(Parsed(networks), merged);
    flat := FlattenRanges(merged);
    PairsOfFlat(merged);
  }

  method FlattenRanges(merged: seq<Range>) returns (flat: seq<Bits.uint32>)
    requires NonEmpty(merged) && InAddressSpace(merged)
    ensures flat == Flatten(merged)
  {
    flat := [];
    assert Flatten([]) == [] && merged[0..] == merged && merged[|merged|..] == [];
    hide Flatten;
    for i := 0 to |merged|
      invariant flat + Flatten(merged[i..]) == Flatten(merged)
    {
      assert merged[i] in merged;
      FlattenNext(flat, merged, i);
      flat := flat + [merged[i].first, merged[i].last];
    }
  }

  lemma FlattenNext(flat: seq<nat>, rs: seq<Range>, i: nat)
    requires i < |rs|
    ensures flat + Flatten(rs[i..]) == flat + [rs[i].first, rs[i].last] + Flatten(rs[i + 1..])
  {
    assert rs[i..][1..] == rs[i + 1..];
  }

  lemma {:induction false} PairsOfFlat(rs: seq<Range>)
    ensures Pairs(Flatten(rs)) == rs
  {
    if rs != [] {
      PairsOfFlat(rs[1..]);
      assert Flatten(rs)[2..] == Flatten(rs[1..]);
    }
  }

  // ----- Lookup -----

  function PublicByParity(flat: seq<nat>, ip: nat): bool {
    var idx := UpperBound(flat, ip);
    idx % 2 == 0 && !(idx > 0 && flat[idx - 1] == ip)
  }

  method IsIpIntPublic(flat: seq<nat>, ip: nat) returns (public: bool)
    requires ValidFlat(flat)
    ensures public == PublicByParity(flat, ip)
    ensures public <==> !Blocked(flat, ip)
  {
    LookupFacts(flat, ip);
    var idx := BisectRight(flat, ip);
    if idx % 2 == 1 { return false; }
    if idx > 0 && flat[idx - 1] == ip { return false; }
    return true;
  }

  /** `is_public` of the C worker: its own search over the same array. */
  method CIsPublic(ip: Bits.uint32, bl: seq<Bits.uint32>) returns (public: bool)
    requires ValidFlat(bl)
    ensures public == PublicByParity(bl, ip)
    ensures public <==> !Blocked(bl, ip)
  {
    LookupFacts(bl, ip);
    var lo := CUpperBound(bl, ip);
    if lo % 2 == 1 { return false; }
    if lo > 0 && bl[lo - 1] == ip { return false; }
    return true;
  }

  lemma LookupFacts(flat: seq<nat>, ip: nat)
    requires ValidFlat(flat)
    ensures Ascending(flat)
    ensures PublicByParity(flat, ip) <==> !Blocked(flat, ip)
  {
    hide Pairs, Flatten, Normal, Ascending, PublicByParity;
    var rs :| Normal(rs) && flat == Flatten(rs);
    PairsOfFlat(rs);
    FlattenAscending(rs);
    ParityIsMembership(rs, ip);
  }

  lemma {:induction false} FlattenAscending(rs: seq<Range>)
    requires Normal(rs)
    ensures Ascending(Flatten(rs))
    ensures forall v :: v in Flatten(rs) ==> v >= rs[0].first
  {
    if rs != [] {
      FlattenAscending(rs[1..]);
      var t := Flatten(rs[1..]);
      assert forall k :: 0 <= k < |t| ==> t[k] in t;
    }
  }

  /** The parity of the upper bound decides membership in the merged ranges. */
  lemma {:induction false} ParityIsMembership(rs: seq<Range>, ip: nat)
    requires Normal(rs)
    ensures PublicByParity(Flatten(rs), ip) <==> !Covers(rs, ip)
  {
    if rs != [] {
      ParityIsMembership(rs[1..], ip);
      ParityOfPair(rs[0].first, rs[0].last, Flatten(rs[1..]), ip);
      CoversFirst(rs, ip);
      if ip <= rs[0].last { assert UpperBound(Flatten(rs[1..]), ip) == 0; }
    }
  }

  lemma CoversFirst(rs: seq<Range>, ip: nat)
    requires Normal(rs) && rs != []
    ensures Covers(rs, ip) <==> rs[0].Contains(ip) || Covers(rs[1..], ip)
    ensures ip <= rs[0].last ==> !Covers(rs[1..], ip)
    ensures rs[1..] != [] && ip <= rs[0].last ==> Flatten(rs[1..])[0] > ip
  {
    assert rs == [rs[0]] + rs[1..];
    CoversConcat([rs[0]], rs[1..]);
    assert rs[0] in [rs[0]];
  }

  lemma ParityOfPair(a: nat, b: nat, t: seq<nat>, x: nat)
    requires a <= b
    ensures PublicByParity([a, b] + t, x) ==
            if x < a then true
            else if x < b || (x == b && UpperBound(t, x) == 0) then false
            else PublicByParity(t, x)
  {
    hide UpperBound;
    UpperBoundOfPair(a, b, t, x);
    var flat, k := [a, b] + t, UpperBound(t, x);
    assert k > 0 ==> flat[2 + k - 1] == t[k - 1];
    Arithmetic.ParityOfSum(k);
  }

  lemma UpperBoundOfPair(a: nat, b: nat, t: seq<nat>, x: nat)
    requires a <= b
    ensures UpperBound([a, b] + t, x) == if x < a then 0 else if x < b then 1 else 2 + UpperBound(t, x)
  {
    var flat := [a, b] + t;
    assert flat[1..] == [b] + t && flat[1..][1..] == t;
  }
}
