/** One batch of a worker from the indices to the wire: the probes that the walk calls for are the
    packets handed to send, whatever the buffers held before. */
module Batches {
  import Arithmetic
  import CycleWalk
  import Fields
  import Inclusion
  import opened Bits
  import opened Checksum
  import opened CWorker
  import opened Packet
  import opened PacketBuffers
  import opened Partition
  import opened TcpOptions
  import opened Walk
  import opened Workers

  /** What all packets of a scan share; a SYN scan has no payloads. */
  datatype Wire = Wire(frame: seq<byte>, local: addr, srcPort: uint16, payloads: seq<seq<byte>>) {
    predicate Fits() { forall p :: p in payloads ==> 28 + |p| < 0x1_0000 }

    /** The packets from scratch. */
    function Syn(p: Probe): seq<byte>
      requires Sendable(p)
    {
      frame + SynPacket(local, srcPort, p.ip, p.port)
    }

    function Udp(p: Probe): seq<byte>
      requires Sendable(p) && Fits() && p.payload < |payloads|
    {
      frame + UdpPacket(local, srcPort, p.ip, p.port, payloads[p.payload])
    }
  }

  predicate Sendable(p: Probe) { p.ip < TWO32 && p.port < 0x1_0000 }

  predicate AllSendable(ps: seq<Probe>) { forall k :: 0 <= k < |ps| ==> Sendable(ps[k]) }

  predicate PayloadsBelow(ps: seq<Probe>, n: nat) { forall k :: 0 <= k < |ps| ==> ps[k].payload < n }

  // ----- What a batch asks for can be sent -----

  predicate PortsFit(job: Job) { forall k :: 0 <= k < |job.ports| ==> job.ports[k] < 0x1_0000 }

  lemma ProbeSendable(t: Track, job: Job, e: Engine, n: nat)
    requires Represents(t, job, e) && PortsFit(job)
    ensures Sendable(t.Probe(n)) && t.Probe(n).payload < job.payloads
  {
    assert Seen(n);
    var i := job.AddressIndex(n) % job.inc.totalIps;
    CycleWalk.ShuffleBijective(job.inc.shuffler, i);
    Inclusion.NthInSpace(job.inc.Ranges(), CycleWalk.Shuffle(job.inc.shuffler, i));
  }

  lemma {:induction false} FillSendable(t: Track, job: Job, e: Engine, stopped: nat -> bool, cur: nat, step: nat,
                                        want: nat)
    requires Represents(t, job, e) && PortsFit(job) && step >= 1
    ensures var ps := Fill(t, stopped, cur, step, want).probes;
            |ps| <= want && AllSendable(ps) && PayloadsBelow(ps, job.payloads)
    decreases want
  {
    hide Represents, Next;
    if want > 0 {
      var h := Next(t, stopped, cur, step, 0);
      ProbeSendable(t, job, e, h.at);
      FillSendable(t, job, e, stopped, h.at + step, step, want - 1);
    }
  }

  // ----- Slots -----

  predicate Separate(slots: seq<array<byte>>) { forall i, j :: 0 <= i < j < |slots| ==> slots[i] != slots[j] }

  ghost function Memory(slots: seq<array<byte>>): set<array<byte>> { set a | a in slots }

  ghost predicate SynSlots(slots: seq<array<byte>>, w: Wire)
    reads slots
  {
    Separate(slots) && forall k :: 0 <= k < |slots| ==> SynReady(slots[k][..], w.frame, w.local, w.srcPort)
  }

  /** Every slot has room for the longest payload. */
  ghost predicate UdpSlots(slots: seq<array<byte>>, w: Wire)
    reads slots
  {
    && Separate(slots)
    && forall k :: 0 <= k < |slots| ==>
         && SlotReady(slots[k][..], w.frame, w.local, w.srcPort)
         && forall p :: p in w.payloads ==> slots[k].Length >= |w.frame| + 28 + |p|
  }

  /** The send loop over the first slots, each up to its length. */
  method SendSlots(slots: seq<array<byte>>, lengths: seq<nat>) returns (packets: seq<seq<byte>>)
    requires |lengths| <= |slots| && forall k :: 0 <= k < |lengths| ==> lengths[k] <= slots[k].Length
    ensures |packets| == |lengths| && forall k :: 0 <= k < |packets| ==> packets[k] == slots[k][..lengths[k]]
  {
    packets := [];
    for i := 0 to |lengths|
      invariant |packets| == i && forall k :: 0 <= k < i ==> packets[k] == slots[k][..lengths[k]]
    {
      packets := packets + [slots[i][..lengths[i]]];
    }
  }

  // ----- Filling -----

  method PatchSynSlots(slots: seq<array<byte>>, probes: seq<Probe>, off: nat, ipStatic: nat, tcpStatic: nat,
                       ghost w: Wire)
    requires SynSlots(slots, w) && |probes| <= |slots| && AllSendable(probes) && off == |w.frame|
    requires ipStatic == IpStatic(40, 6, w.local) && tcpStatic == TcpStatic(w.local, w.srcPort)
    modifies Memory(slots)
    ensures SynSlots(slots, w) && forall k :: 0 <= k < |probes| ==> slots[k][..] == w.Syn(probes[k])
  {
    hide SynReady, SynPacket, IpStatic, TcpStatic;
    for i := 0 to |probes|
      invariant SynSlots(slots, w) && forall k :: 0 <= k < i ==> slots[k][..] == w.Syn(probes[k])
    {
      PatchSyn(slots[i], off, probes[i].ip, probes[i].port, ipStatic, tcpStatic, w.frame, w.local, w.srcPort);
    }
  }

  method CFillSynSlots(slots: seq<array<byte>>, probes: seq<Probe>, off: nat, ipStatic: nat, w: Wire)
    requires SynSlots(slots, w) && |probes| <= |slots| && AllSendable(probes) && off == |w.frame|
    requires ipStatic == IpStatic(40, 6, w.local)
    modifies Memory(slots)
    ensures SynSlots(slots, w) && forall k :: 0 <= k < |probes| ==> slots[k][..] == w.Syn(probes[k])
  {
    hide SynReady, SynPacket, IpStatic;
    for i := 0 to |probes|
      invariant SynSlots(slots, w) && forall k :: 0 <= k < i ==> slots[k][..] == w.Syn(probes[k])
    {
      CFillSyn(slots[i], off, probes[i].ip, probes[i].port, w.local, w.srcPort, ipStatic, w.frame);
    }
  }

  method CFillUdpSlots(slots: seq<array<byte>>, probes: seq<Probe>, off: nat, ipStatics: seq<nat>, w: Wire)
    returns (lengths: seq<nat>)
    requires UdpSlots(slots, w) && |probes| <= |slots| && off == |w.frame| && w.Fits()
    requires AllSendable(probes) && PayloadsBelow(probes, |w.payloads|) && |ipStatics| == |w.payloads|
    requires forall k :: 0 <= k < |ipStatics| ==> ipStatics[k] == IpStatic(28 + |w.payloads[k]|, 17, w.local)
    modifies Memory(slots)
    ensures UdpSlots(slots, w) && |lengths| == |probes|
    ensures forall k :: 0 <= k < |probes| ==>
      lengths[k] <= slots[k].Length && slots[k][..lengths[k]] == w.Udp(probes[k])
  {
    hide SlotReady, UdpPacket, IpStatic;
    lengths := [];
    for i := 0 to |probes|
      invariant UdpSlots(slots, w) && |lengths| == i
      invariant forall k :: 0 <= k < i ==> lengths[k] <= slots[k].Length && slots[k][..lengths[k]] == w.Udp(probes[k])
    {
      var payload := w.payloads[probes[i].payload];
      CFillUdp(slots[i], off, probes[i].ip, probes[i].port, payload, ipStatics[probes[i].payload], w.frame, w.local,
               w.srcPort);
      assert slots[i][..off + 28 + |payload|] == w.Udp(probes[i]);
      lengths := lengths + [off + 28 + |payload|];
    }
  }

  /** The Python worker's templates and their static sums, one for each payload. */
  ghost predicate UdpTemplates(templates: seq<array<byte>>, ipStatics: seq<nat>, w: Wire)
    reads templates
  {
    && w.Fits() && |templates| == |ipStatics| == |w.payloads|
    && forall k :: 0 <= k < |templates| ==>
         && UdpReady(templates[k][..], w.frame, w.local, w.srcPort, w.payloads[k])
         && ipStatics[k] == IpStatic(28 + |w.payloads[k]|, 17, w.local)
  }

  /** Every probe gets its own copy of the template for its payload. */
  method PatchUdpCopies(templates: seq<array<byte>>, ipStatics: seq<nat>, probes: seq<Probe>, off: nat, ghost w: Wire)
    returns (packets: seq<seq<byte>>)
    requires UdpTemplates(templates, ipStatics, w) && off == |w.frame|
    requires AllSendable(probes) && PayloadsBelow(probes, |w.payloads|)
    ensures packets == UdpPackets(w, probes)
  {
    hide UdpReady, UdpPacket, IpStatic;
    packets := [];
    for i := 0 to |probes|
      invariant |packets| == i && forall k :: 0 <= k < i ==> packets[k] == w.Udp(probes[k])
    {
      var p := probes[i];
      var template := templates[p.payload];
      var buf := new byte[template.Length](j requires 0 <= j < template.Length reads template => template[j]);
      assert buf[..] == template[..];
      PatchUdp(buf, off, p.ip, p.port, ipStatics[p.payload], w.frame, w.local, w.srcPort, w.payloads[p.payload]);
      packets := packets + [buf[..]];
    }
  }

  // ----- Whole batches -----

  /** A batch of the Python worker's SYN scan: what it hands to send are the packets of the batch that
      the cache-free walk calls for, in order; a batch cut short hands over nothing. */
  method SendSynBatch(ghost t: Track, job: Job, totalWork: nat, start: nat, step: nat, effBatch: nat,
                      stopped: nat -> bool, slots: seq<array<byte>>, off: nat, ipStatic: nat, tcpStatic: nat,
                      ghost w: Wire)
    returns (packets: seq<seq<byte>>, currentIndex: nat, outcome: Outcome)
    requires Represents(t, job, Python) && PortsFit(job) && step >= 1 && totalWork == t.total
    requires SynSlots(slots, w) && effBatch <= |slots| && off == |w.frame|
    requires ipStatic == IpStatic(40, 6, w.local) && tcpStatic == TcpStatic(w.local, w.srcPort)
    modifies Memory(slots)
    ensures SynSlots(slots, w)
    ensures var b := Fill(t, stopped, start, step, effBatch);
            && outcome == b.outcome && currentIndex == b.next
            && if b.Sent() then IsSyn(w, b.probes, packets) else packets == []
    ensures outcome.Tripped? || outcome.Stopped? ==> packets == []
  {
    hide Represents, Fill, SynReady, SynPacket, IpStatic, TcpStatic;
    var batch;
    FillSendable(t, job, Python, stopped, start, step, effBatch);
    batch, currentIndex, outcome := Collect(t, job, totalWork, start, step, effBatch, stopped);
    packets := [];
    if !(outcome.Filled? || outcome.Finished?) { return; }
    PatchSynSlots(slots, batch, off, ipStatic, tcpStatic, w);
    assert forall k :: 0 <= k < |batch| ==> slots[k][..off + 40] == slots[k][..];
    packets := SendSlots(slots, seq(|batch|, _ => off + 40));
  }

  function SynPackets(w: Wire, ps: seq<Probe>): seq<seq<byte>>
    requires AllSendable(ps)
  {
    seq(|ps|, k requires 0 <= k < |ps| => w.Syn(ps[k]))
  }

  function UdpPackets(w: Wire, ps: seq<Probe>): seq<seq<byte>>
    requires AllSendable(ps) && PayloadsBelow(ps, |w.payloads|) && w.Fits()
  {
    seq(|ps|, k requires 0 <= k < |ps| => w.Udp(ps[k]))
  }

  /** The same for a UDP scan with any number of payloads. */
  method SendUdpBatch(ghost t: Track, job: Job, totalWork: nat, start: nat, step: nat, effBatch: nat,
                      stopped: nat -> bool, templates: seq<array<byte>>, ipStatics: seq<nat>, off: nat, ghost w: Wire)
    returns (packets: seq<seq<byte>>, currentIndex: nat, outcome: Outcome)
    requires Represents(t, job, Python) && PortsFit(job) && step >= 1 && totalWork == t.total
    requires UdpTemplates(templates, ipStatics, w) && |w.payloads| == job.payloads && off == |w.frame|
    ensures var b := Fill(t, stopped, start, step, effBatch);
            && outcome == b.outcome && currentIndex == b.next
            && AllSendable(b.probes) && PayloadsBelow(b.probes, |w.payloads|)
            && packets == if b.Sent() then UdpPackets(w, b.probes) else []
    ensures outcome.Tripped? || outcome.Stopped? ==> packets == []
  {
    hide Represents, Fill, UdpReady, UdpPacket, IpStatic;
    var batch;
    FillSendable(t, job, Python, stopped, start, step, effBatch);
    batch, currentIndex, outcome := Collect(t, job, totalWork, start, step, effBatch, stopped);
    packets := [];
    if !(outcome.Filled? || outcome.Finished?) { return; }
    packets := PatchUdpCopies(templates, ipStatics, batch, off, w);
  }

  /** A batch of the C worker's SYN scan. */
  method CSendSynBatch(ghost t: Track, job: Job, nets: NetTable, totalWork: nat, cache: Cache, start: int64,
                       step: int64, effBatch: nat, stopped: nat -> bool, slots: seq<array<byte>>, off: nat,
                       ipStatic: nat, w: Wire)
    returns (packets: seq<seq<byte>>, curIdx: int64, c: Cache, outcome: Outcome)
    requires Represents(t, job, C) && PortsFit(job) && TableOf(nets, job.inc) && CacheHolds(cache, job)
    requires start >= 0 && step >= 1 && totalWork == t.total && totalWork + step as int < INT64_LIMIT
    requires SynSlots(slots, w) && effBatch <= |slots| && off == |w.frame| && ipStatic == IpStatic(40, 6, w.local)
    modifies Memory(slots)
    ensures CacheHolds(c, job) && SynSlots(slots, w)
    ensures var b := Fill(t, stopped, start as nat, step as nat, effBatch);
            && outcome == b.outcome && curIdx as int == b.next && AllSendable(b.probes)
            && packets == if b.Sent() then SynPackets(w, b.probes) else []
    ensures outcome.Tripped? || outcome.Stopped? ==> packets == []
  {
    hide Represents, Fill, SynReady, SynPacket, IpStatic, CacheHolds, TableOf;
    var batch;
    FillSendable(t, job, C, stopped, start as nat, step as nat, effBatch);
    batch, curIdx, c, outcome := CCollect(t, job, nets, totalWork, cache, start, step, effBatch, stopped);
    packets := [];
    if !(outcome.Filled? || outcome.Finished?) { return; }
    CFillSynSlots(slots, batch, off, ipStatic, w);
    assert forall k :: 0 <= k < |batch| ==> slots[k][..off + 40] == slots[k][..];
    packets := SendSlots(slots, seq(|batch|, _ => off + 40));
  }

  /** A batch of the C worker's UDP scan, in slots that held packets of other lengths before. */
  method CSendUdpBatch(ghost t: Track, job: Job, nets: NetTable, totalWork: nat, cache: Cache, start: int64,
                       step: int64, effBatch: nat, stopped: nat -> bool, slots: seq<array<byte>>, off: nat,
                       ipStatics: seq<nat>, w: Wire)
    returns (packets: seq<seq<byte>>, curIdx: int64, c: Cache, outcome: Outcome)
    requires Represents(t, job, C) && PortsFit(job) && TableOf(nets, job.inc) && CacheHolds(cache, job)
    requires start >= 0 && step >= 1 && totalWork == t.total && totalWork + step as int < INT64_LIMIT
    requires UdpSlots(slots, w) && effBatch <= |slots| && off == |w.frame| && w.Fits()
    requires |ipStatics| == |w.payloads| == job.payloads
    requires forall k :: 0 <= k < |ipStatics| ==> ipStatics[k] == IpStatic(28 + |w.payloads[k]|, 17, w.local)
    modifies Memory(slots)
    ensures CacheHolds(c, job) && UdpSlots(slots, w)
    ensures var b := Fill(t, stopped, start as nat, step as nat, effBatch);
            && outcome == b.outcome && curIdx as int == b.next
            && AllSendable(b.probes) && PayloadsBelow(b.probes, |w.payloads|)
            && packets == if b.Sent() then UdpPackets(w, b.probes) else []
    ensures outcome.Tripped? || outcome.Stopped? ==> packets == []
  {
    hide Represents, Fill, SlotReady, UdpPacket, IpStatic, CacheHolds, TableOf;
    var batch;
    FillSendable(t, job, C, stopped, start as nat, step as nat, effBatch);
    batch, curIdx, c, outcome := CCollect(t, job, nets, totalWork, cache, start, step, effBatch, stopped);
    packets := [];
    if !(outcome.Filled? || outcome.Finished?) { return; }
    var lengths := CFillUdpSlots(slots, batch, off, ipStatics, w);
    packets := SendSlots(slots, lengths);
  }

  /** What stands on the wire in k-th place: the k-th probe's address, port and payload. */
  lemma OnTheWire(w: Wire, ps: seq<Probe>, k: nat)
    requires AllSendable(ps) && k < |ps|
    ensures var off, packets := |w.frame|, SynPackets(w, ps);
            && |packets| == |ps| && packets[k][..off] == w.frame && |packets[k]| == off + 40
            && U32(packets[k], off + 16) == ps[k].ip && U16(packets[k], off + 22) == ps[k].port
    ensures PayloadsBelow(ps, |w.payloads|) && w.Fits() ==>
              var off, packets := |w.frame|, UdpPackets(w, ps);
              && |packets| == |ps| && packets[k][..off] == w.frame && |packets[k]| >= off + 28
              && U32(packets[k], off + 16) == ps[k].ip && U16(packets[k], off + 22) == ps[k].port
              && packets[k][off + 28..] == w.payloads[ps[k].payload]
  {
    hide SynPacket, UdpPacket, Fields.PlainIp;
    var p := ps[k];
    assert Sendable(p);
    var syn := SynPacket(w.local, w.srcPort, p.ip, p.port);
    SynTarget(w.local, w.srcPort, p.ip, p.port);
    Framed(w.frame, syn);
    if PayloadsBelow(ps, |w.payloads|) && w.Fits() {
      var payload := w.payloads[p.payload];
      assert payload in w.payloads;
      UdpTarget(w.local, w.srcPort, p.ip, p.port, payload);
      Framed(w.frame, UdpPacket(w.local, w.srcPort, p.ip, p.port, payload));
    }
  }

  lemma SynTarget(local: addr, srcPort: uint16, ip: uint32, port: uint16)
    ensures var p := SynPacket(local, srcPort, ip, port); U32(p, 16) == ip && U16(p, 22) == port
  {
    hide SynPacket;
    Fields.SynFields(local, srcPort, ip, port);
  }

  lemma UdpTarget(local: addr, srcPort: uint16, ip: uint32, port: uint16, payload: seq<byte>)
    requires 28 + |payload| < 0x1_0000
    ensures var p := UdpPacket(local, srcPort, ip, port, payload);
            U32(p, 16) == ip && U16(p, 22) == port && p[28..] == payload
  {
    hide UdpPacket;
    Fields.UdpFields(local, srcPort, ip, port, payload);
  }

  lemma Framed(frame: seq<byte>, p: seq<byte>)
    requires |p| >= 28
    ensures var f, off := frame + p, |frame|;
            f[..off] == frame && U32(f, off + 16) == U32(p, 16) && U16(f, off + 22) == U16(p, 22)
            && f[off + 28..] == p[28..]
  {
  }

  // ----- A whole run -----

  /** `packet_worker` on a SYN scan with its reused buffers, until it returns: at every exit the packets
      handed to send are, in order, those of the walk up to the reported slot. */
  method SynWorker(job: Job, start: nat, shards: nat, shardId: nat, workers: nat, workerId: nat, batchSize: nat,
                   env: Environment, slots: seq<array<byte>>, off: nat, ipStatic: nat, tcpStatic: nat, ghost w: Wire)
    returns (packets: seq<seq<byte>>, slot: nat, outcome: Outcome)
    requires job.Valid() && PortsFit(job) && ValidIds(shards, shardId, workers, workerId) && batchSize >= 1
    requires SynSlots(slots, w) && |slots| == batchSize && off == |w.frame|
    requires ipStatic == IpStatic(40, 6, w.local) && tcpStatic == TcpStatic(w.local, w.srcPort)
    modifies Memory(slots)
    ensures Step(shards, workers) >= 1 && FirstIndex(start, shards, shardId, workerId) >= start
    ensures var t, step := TrackOf(job, Python), Step(shards, workers);
            var first := FirstIndex(start, shards, shardId, workerId);
            && (slot == 0 ==> packets == [] && !outcome.Finished?)
            && (slot > 0 ==> OnCourse(t.total, first, slot, step) && IsSyn(w, Emitted(t, first, slot, step), packets))
            && (outcome.Finished? ==> IsSyn(w, Emitted(t, first, t.total, step), packets))
            && (env.Uninterrupted() && t.AllPublic() ==> outcome.Finished?)
  {
    hide SynSlots, IpStatic, TcpStatic, TrackOf, Represents, IsSyn, Emitted, OnCourse, Step, FirstIndex, PortsFit;
    FirstInRange(start, shards, shardId, workers, workerId);
    ghost var t := TrackOf(job, Python);
    var step: nat := Step(shards, workers);
    var currentIndex: nat := FirstIndex(start, shards, shardId, workerId);
    ghost var first := currentIndex;
    packets, slot, outcome := [], 0, Stopped;
    var pass := 0;
    NoStep(t, first, step);
    WorkPositive(job);
    RepresentsTotal(t, job);
    NothingSent(w);
    while env.running(pass)
      invariant SynSlots(slots, w)
      invariant OnCourse(t.total, first, currentIndex, step) && IsSyn(w, Emitted(t, first, currentIndex, step), packets)
      invariant if pass == 0 then slot == 0 && packets == [] else slot == currentIndex > 0
      decreases t.total - currentIndex
    {
      packets, currentIndex, outcome :=
        SynPass(t, job, first, currentIndex, step, env.BatchSize(batchSize, pass), env.stopped, packets, slots, off,
                ipStatic, tcpStatic, w);
      if outcome.Tripped? || outcome.Stopped? { return; }
      slot := currentIndex;
      if outcome.Finished? {
        CompletedWalk(t, first, currentIndex, step);
        EmittedToEnd(t, first, currentIndex, step);
        return;
      }
      pass := pass + 1;
    }
    outcome := Stopped;
  }

  lemma EmittedToEnd(t: Track, from: nat, to: nat, step: nat)
    requires step >= 1 && Progression(from, to, step) == Progression(from, t.total, step)
    ensures Emitted(t, from, to, step) == Emitted(t, from, t.total, step)
  {
  }

  /** One turn of the worker's loop: the packets so far, and where the walk has got to. An unsent batch
      leaves both as they are. */
  method SynPass(ghost t: Track, job: Job, ghost first: nat, current: nat, step: nat, effBatch: nat,
                 stopped: nat -> bool, before: seq<seq<byte>>, slots: seq<array<byte>>, off: nat, ipStatic: nat,
                 tcpStatic: nat, ghost w: Wire)
    returns (packets: seq<seq<byte>>, next: nat, outcome: Outcome)
    requires Represents(t, job, Python) && PortsFit(job) && step >= 1 && 1 <= effBatch <= |slots|
    requires OnCourse(t.total, first, current, step) && IsSyn(w, Emitted(t, first, current, step), before)
    requires SynSlots(slots, w) && off == |w.frame|
    requires ipStatic == IpStatic(40, 6, w.local) && tcpStatic == TcpStatic(w.local, w.srcPort)
    modifies Memory(slots)
    ensures SynSlots(slots, w)
    ensures outcome.Tripped? || outcome.Stopped? ==> packets == before && next == current
    ensures OnCourse(t.total, first, next, step) && IsSyn(w, Emitted(t, first, next, step), packets)
    ensures outcome.Filled? ==> current < next && current < t.total
    ensures outcome.Finished? ==> next >= t.total
    ensures t.AllPublic() ==> outcome.Filled? || outcome.Finished?
  {
    hide SynSlots, IpStatic, TcpStatic, Represents, IsSyn, Emitted, Fill, OnCourse, PortsFit;
    FillEmits(t, stopped, current, step, effBatch);
    if t.AllPublic() { NeverTripped(t, stopped, current, step, effBatch); }
    var total := job.TotalWork();
    RepresentsTotal(t, job);
    var batch;
    batch, next, outcome :=
      SendSynBatch(t, job, total, current, step, effBatch, stopped, slots, off, ipStatic, tcpStatic, w);
    if outcome.Tripped? || outcome.Stopped? { return before, current, outcome; }
    EmittedJoin(t, first, current, next, step);
    SentJoin(w, Emitted(t, first, current, step), before, Emitted(t, current, next, step), batch);
    if current < next { BelowTotal(t.total, current, next, step); }
    packets := before + batch;
  }

  lemma RepresentsTotal(t: Track, job: Job)
    requires Represents(t, job, Python)
    ensures job.TotalWork() == t.total
  {
  }

  lemma BelowTotal(total: nat, from: nat, to: nat, step: nat)
    requires step >= 1 && OnCourse(total, from, to, step) && from < to
    ensures from < total
  {
    var q := (to - from) / step;
    assert to - from == step * q;
    if q <= 0 { Arithmetic.MulMonotone(q, 0, step); }
    Arithmetic.MulMonotone(1, q, step);
  }

  /** The packets are those of the probes. */
  predicate IsSyn(w: Wire, ps: seq<Probe>, packets: seq<seq<byte>>) { AllSendable(ps) && packets == SynPackets(w, ps) }

  lemma NothingSent(w: Wire)
    ensures IsSyn(w, [], [])
  {
  }

  lemma SentJoin(w: Wire, a: seq<Probe>, x: seq<seq<byte>>, b: seq<Probe>, y: seq<seq<byte>>)
    requires IsSyn(w, a, x) && IsSyn(w, b, y)
    ensures IsSyn(w, a + b, x + y)
  {
    hide Wire.Syn, Sendable;
  }
}
