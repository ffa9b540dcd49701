/** Hit accounting: dedupe, count, limit, emit. */
module Hits {
  import opened Wrappers
  import Arithmetic
  import opened Bits
  import opened Checksum
  import TcpOptions
  import opened Receive

  type Reply = r: Response | r.port < 0x1_0000 witness Response(0, 0, Icmp, 0, 0, TcpOptions.NO_OPTIONS)

  /** Host and port of a reply. */
  function Source(r: Reply): (nat, nat) { (r.ipInt, r.port) }

  /** `(resp.ip_int << 16) | (resp.port & 0xFFFF)`. */
  function HostKey(r: Reply): nat { Or(Shl(r.ipInt, 16), And(r.port, 0xFFFF)) }

  lemma HostKeyInjective(a: Reply, b: Reply)
    ensures HostKey(a) == HostKey(b) <==> Source(a) == Source(b)
    ensures HostKey(a) == HostKey(b) <==> a.ipInt == b.ipInt && a.port == b.port
  {
    HostKeyValue(a);
    HostKeyValue(b);
    Arithmetic.DivModUnique(a.ipInt * 0x1_0000 + a.port, 0x1_0000, a.ipInt, a.port);
    Arithmetic.DivModUnique(b.ipInt * 0x1_0000 + b.port, 0x1_0000, b.ipInt, b.port);
  }

  lemma HostKeyValue(r: Reply)
    ensures HostKey(r) == r.ipInt * 0x1_0000 + r.port
  {
    Pow2Of32();
    AndMask(r.port, 16);
    Arithmetic.SmallMod(r.port, 0x1_0000);
    OrDisjoint(r.ipInt, r.port, 16);
  }

  // ----- The reference: the first reply of each source, at most `limit` of them -----

  function Distinct(rs: seq<Reply>): seq<Reply>
  {
    if rs == [] then []
    else
      var n := |rs| - 1;
      var d := Distinct(rs[..n]);
      if SourceIn(rs[n], d) then d else d + [rs[n]]
  }

  predicate SourceIn(r: Reply, rs: seq<Reply>) { exists q :: q in rs && Source(q) == Source(r) }

  function Limited(rs: seq<Reply>, limit: int): seq<Reply> {
    if limit > 0 && |rs| > limit then rs[..limit] else rs
  }

  /** Distinct keeps one reply of each source. */
  lemma {:induction false} DistinctFacts(rs: seq<Reply>)
    ensures forall j, k :: 0 <= j < k < |Distinct(rs)| ==> Source(Distinct(rs)[j]) != Source(Distinct(rs)[k])
    ensures forall r :: r in rs ==> SourceIn(r, Distinct(rs))
    ensures forall r :: r in Distinct(rs) ==> r in rs
  {
    if rs != [] {
      var n := |rs| - 1;
      var d := Distinct(rs[..n]);
      DistinctFacts(rs[..n]);
      assert rs == rs[..n] + [rs[n]];
      forall r | r in rs ensures SourceIn(r, Distinct(rs)) {
        if r in rs[..n] {
          var q :| q in d && Source(q) == Source(r);
          assert q in Distinct(rs);
        } else if !SourceIn(rs[n], d) {
          assert rs[n] in Distinct(rs);
        }
      }
      forall j | 0 <= j < |d| && !SourceIn(rs[n], d) ensures Source(d[j]) != Source(rs[n]) {
        assert d[j] in d;
      }
    }
  }

  /** The k-th reply is the first of its source. */
  predicate FirstOfSource(rs: seq<Reply>, k: nat)
    requires k < |rs|
  {
    forall j :: 0 <= j < k ==> Source(rs[j]) != Source(rs[k])
  }

  function FirstPositions(rs: seq<Reply>): seq<nat> {
    if rs == [] then []
    else
      var n := |rs| - 1;
      FirstPositions(rs[..n]) + if FirstOfSource(rs, n) then [n] else []
  }

  lemma {:induction false} FirstPositionsAre(rs: seq<Reply>)
    ensures forall i, j :: 0 <= i < j < |FirstPositions(rs)| ==> FirstPositions(rs)[i] < FirstPositions(rs)[j]
    ensures forall k: nat :: k in FirstPositions(rs) <==> k < |rs| && FirstOfSource(rs, k)
  {
    if rs != [] {
      var n := |rs| - 1;
      FirstPositionsAre(rs[..n]);
      assert forall k: nat :: k < n ==> (FirstOfSource(rs[..n], k) <==> FirstOfSource(rs, k));
      assert forall j :: 0 <= j < |FirstPositions(rs[..n])| ==> FirstPositions(rs[..n])[j] in FirstPositions(rs[..n]);
    }
  }

  lemma LastIsFirst(rs: seq<Reply>)
    requires rs != []
    ensures FirstOfSource(rs, |rs| - 1) <==> !SourceIn(rs[|rs| - 1], Distinct(rs[..|rs| - 1]))
  {
    var n := |rs| - 1;
    forall j | 0 <= j < n ensures SourceIn(rs[j], Distinct(rs[..n])) {
      DistinctFacts(rs[..n]);
      assert rs[..n][j] == rs[j];
    }
    if SourceIn(rs[n], Distinct(rs[..n])) {
      var j := SourcePosition(rs[n], rs[..n]);
      assert Source(rs[j]) == Source(rs[n]);
    } else {
      hide SourceIn, Distinct, Source;
      forall j | 0 <= j < n ensures Source(rs[j]) != Source(rs[n]) {
        SameSource(rs[j], rs[n], Distinct(rs[..n]));
      }
    }
  }

  lemma SourcePosition(r: Reply, rs: seq<Reply>) returns (j: nat)
    requires SourceIn(r, Distinct(rs))
    ensures j < |rs| && Source(rs[j]) == Source(r)
  {
    DistinctFacts(rs);
    var q :| q in Distinct(rs) && Source(q) == Source(r);
    j :| j < |rs| && rs[j] == q;
  }

  lemma SameSource(a: Reply, b: Reply, rs: seq<Reply>)
    ensures Source(a) == Source(b) && SourceIn(a, rs) ==> SourceIn(b, rs)
  {
  }

  /** Distinct picks, in order of arrival, exactly the replies that are the first of their source. */
  lemma {:induction false} DistinctInOrder(rs: seq<Reply>)
    ensures var ks := FirstPositions(rs);
            |Distinct(rs)| == |ks| && forall j :: 0 <= j < |ks| ==> ks[j] < |rs| && Distinct(rs)[j] == rs[ks[j]]
  {
    hide FirstOfSource, SourceIn;
    if rs != [] {
      DistinctInOrder(rs[..|rs| - 1]);
      LastIsFirst(rs);
    }
  }

  ghost function KeysOf(rs: seq<Reply>): set<nat> { set r | r in rs :: HostKey(r) }

  datatype Status = New | Dup | LimitReached

  /** The sniffer's share of the state of a scan. */
  class Sniffer {
    const limit: int
    var seenHosts: set<nat>
    var foundCount: nat
    var runEvent: bool
    var runFlag: bool
    var emitted: seq<Reply>
    ghost var offered: seq<Reply>   // every reply that got past the two checks at the top of process_packet

    ghost predicate Valid()
      reads this
    {
      && emitted == Limited(Distinct(offered), limit)
      && seenHosts == KeysOf(emitted)
      && foundCount == |emitted| == |seenHosts|
      && (limit > 0 ==> foundCount <= limit)
    }

    constructor (limit: int)
      ensures Valid() && this.limit == limit && runEvent && emitted == [] && offered == []
    {
      this.limit := limit;
      seenHosts, foundCount, runEvent, runFlag, emitted, offered := {}, 0, true, true, [], [];
      new;
      assert KeysOf([]) == {};
    }

    /** `_register_hit`; the reply is emitted by the caller unless it is a duplicate. */
    method RegisterHit(resp: Reply) returns (status: Status)
      modifies `seenHosts, `foundCount, `runEvent, `runFlag
      ensures status.Dup? <==> HostKey(resp) in old(seenHosts)
      ensures status.Dup? ==> seenHosts == old(seenHosts) && foundCount == old(foundCount)
                              && runEvent == old(runEvent) && runFlag == old(runFlag)
      ensures !status.Dup? ==> seenHosts == old(seenHosts) + {HostKey(resp)} && foundCount == old(foundCount) + 1
      ensures status.LimitReached? <==> !status.Dup? && limit > 0 && foundCount >= limit
      ensures status.LimitReached? ==> !runEvent && !runFlag
      ensures status.New? ==> runEvent == old(runEvent) && runFlag == old(runFlag)
    {
      var hostKey := HostKey(resp);
      if hostKey in seenHosts { return Dup; }
      seenHosts := seenHosts + {hostKey};
      foundCount := foundCount + 1;
      if limit > 0 && foundCount >= limit {
        runEvent, runFlag := false, false;
        return LimitReached;
      }
      return New;
    }

    /** `process_packet`. */
    method ProcessPacket(data: seq<byte>, srcPort: nat, mode: Mode, localIp: Option<nat>)
      requires Valid()
      modifies this
      ensures Valid()
      ensures !old(runEvent) ==> emitted == old(emitted) && offered == old(offered) && !runEvent
      ensures old(runEvent) && !runEvent ==> limit > 0 && foundCount == limit && !runFlag
      ensures runEvent == old(runEvent) ==> runFlag == old(runFlag)
      ensures limit > 0 && foundCount == limit ==> !runEvent
      ensures old(runEvent && (limit > 0 ==> foundCount < limit)) ==>
        var r := ParseResponse(data, srcPort, mode, localIp);
        offered == if r.Some? then old(offered) + [r.value] else old(offered)
    {
      hide ParseResponse, Distinct, HostKey;
      if !runEvent { return; }
      if limit > 0 && foundCount >= limit {
        runEvent, runFlag := false, false;
        return;
      }
      var parsed := ParseResponse(data, srcPort, mode, localIp);
      if parsed.None? { return; }
      var resp: Reply := parsed.value;
      assert emitted == Distinct(offered);
      NextReply(offered, resp);
      ghost var known := HostKey(resp) in seenHosts;
      offered := offered + [resp];
      var status := RegisterHit(resp);
      if status.Dup? { return; }
      emitted := emitted + [resp];
    }
  }

  /** One more reply, seen through the host keys. */
  lemma NextReply(rs: seq<Reply>, r: Reply)
    ensures HostKey(r) in KeysOf(Distinct(rs)) <==> SourceIn(r, Distinct(rs))
    ensures Distinct(rs + [r]) == if SourceIn(r, Distinct(rs)) then Distinct(rs) else Distinct(rs) + [r]
    ensures KeysOf(Distinct(rs) + [r]) == KeysOf(Distinct(rs)) + {HostKey(r)}
  {
    var d := Distinct(rs);
    assert (rs + [r])[..|rs|] == rs;
    forall q: Reply | q in d ensures HostKey(q) == HostKey(r) <==> Source(q) == Source(r) { HostKeyInjective(q, r); }
    if SourceIn(r, d) {
      var q :| q in d && Source(q) == Source(r);
      assert HostKey(q) in KeysOf(d);
    }
    assert forall q :: q in d + [r] <==> q in d || q == r;
  }

  /** A whole capture: whatever packets arrive, the emitted hits are the first replies of distinct
      sources in order of arrival, cut off at the limit. */
  method Sniff(s: Sniffer, packets: seq<seq<byte>>, srcPort: nat, mode: Mode, localIp: Option<nat>)
    requires s.Valid() && s.runEvent && s.offered == [] && s.emitted == []
    modifies s
    ensures s.Valid()
    ensures s.emitted == Limited(Distinct(Replies(packets, srcPort, mode, localIp)), s.limit)
    ensures var hits := Distinct(Replies(packets, srcPort, mode, localIp));
            s.emitted <= hits && |s.emitted| == if s.limit > 0 then Arithmetic.Min(s.limit, |hits|) else |hits|
    ensures s.runEvent <==> s.limit <= 0 || |s.emitted| < s.limit
    ensures s.runFlag <==> old(s.runFlag) && s.runEvent
  {
    for i := 0 to |packets|
      invariant s.Valid()
      invariant s.emitted == Limited(Distinct(Replies(packets[..i], srcPort, mode, localIp)), s.limit)
      invariant s.runEvent && s.limit > 0 ==> s.foundCount < s.limit
      invariant s.runEvent ==> s.offered == Replies(packets[..i], srcPort, mode, localIp)
      invariant !s.runEvent ==> s.limit > 0 && |s.emitted| == s.limit
      invariant s.runFlag == (old(s.runFlag) && s.runEvent)
    {
      hide Distinct, ParseResponse;
      assert packets[..i + 1][..i] == packets[..i];
      MoreReplies(packets[..i + 1], srcPort, mode, localIp, s.limit);
      s.ProcessPacket(packets[i], srcPort, mode, localIp);
    }
    assert packets[..|packets|] == packets;
  }

  /** The replies the parser accepts among the captured packets. */
  function Replies(packets: seq<seq<byte>>, srcPort: nat, mode: Mode, localIp: Option<nat>): seq<Reply>
  {
    if packets == [] then []
    else
      var n := |packets| - 1;
      var rest := Replies(packets[..n], srcPort, mode, localIp);
      var r := ParseResponse(packets[n], srcPort, mode, localIp);
      if r.Some? then rest + [r.value] else rest
  }

  /** Once the limit is reached, more packets change nothing. */
  lemma MoreReplies(packets: seq<seq<byte>>, srcPort: nat, mode: Mode, localIp: Option<nat>, limit: int)
    requires packets != []
    ensures var n := |packets| - 1;
            var before := Limited(Distinct(Replies(packets[..n], srcPort, mode, localIp)), limit);
            limit > 0 && |before| == limit ==>
              Limited(Distinct(Replies(packets, srcPort, mode, localIp)), limit) == before
  {
    hide ParseResponse, Distinct, HostKey;
    var n := |packets| - 1;
    var rest := Replies(packets[..n], srcPort, mode, localIp);
    var r := ParseResponse(packets[n], srcPort, mode, localIp);
    if r.Some? { NextReply(rest, r.value); }
  }
}
