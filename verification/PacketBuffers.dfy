/** Reused packet buffers: the Python templates and the slots of the C batch buffer. */
module PacketBuffers {
  import opened Wrappers
  import opened Bits
  import opened Checksum
  import opened Packet

  type mac = s: seq<byte> | |s| == 6 witness [0, 0, 0, 0, 0, 0]

  datatype Macs = Macs(gateway: mac, local: mac)

  /** The ethernet header, when there is an interface. */
  function Ethernet(macs: Option<Macs>): seq<byte> {
    if macs.Some? then macs.value.gateway + macs.value.local + [0x08, 0x00] else []
  }

  /** Destination first, then source, then the type of IPv4. */
  lemma EthernetFields(macs: Macs, packet: seq<byte>)
    ensures var f := Ethernet(Some(macs)) + packet;
            f[0..6] == macs.gateway && f[6..12] == macs.local && f[12] == 0x08 && f[13] == 0x00 && f[14..] == packet
    ensures Ethernet(None) + packet == packet
  {
    var f := Ethernet(Some(macs)) + packet;
    assert f == macs.gateway + (macs.local + ([0x08, 0x00] + packet));
  }

  /** `_pack_into`, and every write of consecutive bytes: put bytes at position i. */
  method Put(buf: array<byte>, i: nat, bytes: seq<byte>)
    requires i + |bytes| <= buf.Length
    modifies buf
    ensures buf[..] == Spliced(old(buf[..]), i, bytes)
  {
    forall k | 0 <= k < |bytes| { buf[i + k] := bytes[k]; }
  }

  function Spliced(b: seq<byte>, i: nat, bytes: seq<byte>): (r: seq<byte>)
    requires i + |bytes| <= |b|
    ensures |r| == |b|
    ensures forall k :: 0 <= k < |b| ==> r[k] == if i <= k < i + |bytes| then bytes[k - i] else b[k]
  {
    b[..i] + bytes + b[i + |bytes|..]
  }

  /** The first ten bytes of an IP header: all but checksum and addresses. */
  function IpStart(totalLen: uint16, proto: byte): (h: seq<byte>)
    ensures |h| == 10
  {
    [0x45, 0, totalLen / 0x100, totalLen % 0x100, 0xD4, 0x31, 0, 0, 64, proto]
  }

  // ----- SYN -----

  /** The bytes of a SYN packet that depend on the target. */
  predicate SynPatched(k: int) { k == 10 || k == 11 || 16 <= k < 20 || k == 22 || k == 23 || k == 36 || k == 37 }

  /** Everything but the patched bytes is in place; those may hold anything. */
  ghost predicate SynReady(b: seq<byte>, frame: seq<byte>, local: addr, srcPort: uint16) {
    && |b| == |frame| + 40 && b[..|frame|] == frame
    && forall k :: 0 <= k < 40 && !SynPatched(k) ==> b[|frame| + k] == SynPacket(local, srcPort, 0, 0)[k]
  }

  lemma SynPacketReady(frame: seq<byte>, local: addr, srcPort: uint16, ip: uint32, port: uint16)
    ensures SynReady(frame + SynPacket(local, srcPort, ip, port), frame, local, srcPort)
  {
    hide InternetChecksum;
    var p, q := SynPacket(local, srcPort, ip, port), SynPacket(local, srcPort, 0, 0);
    forall k | 0 <= k < 40 && !SynPatched(k) ensures p[k] == q[k] { }
  }

  method BuildSynTemplate(local: addr, srcPort: uint16, macs: Option<Macs>)
    returns (buf: array<byte>, ipStatic: nat, tcpStatic: nat)
    ensures fresh(buf) && SynReady(buf[..], Ethernet(macs), local, srcPort)
    ensures ipStatic == IpStatic(40, 6, local) && tcpStatic == TcpStatic(local, srcPort)
  {
    hide Spliced, SynReady, SynPacket;
    var off := if macs.Some? then 14 else 0;
    buf := new byte[off + 40](_ => 0);
    ghost var zero := buf[..];
    Put(buf, 0, Ethernet(macs));
    Put(buf, off, IpStart(40, 6));
    Put(buf, off + 12, local);
    Put(buf, off + 20, Be16(srcPort));
    Put(buf, off + 32, [0x50, 0x02] + Be16(5840));
    SynTemplateReady(zero, Ethernet(macs), local, srcPort);
    ipStatic := 0x4500 + 40 + 54321 + 0 + (64 * 0x100 + 6) + HighWord(local) + LowWord(local);
    tcpStatic := HighWord(local) + LowWord(local) + 6 + 20 + srcPort + 0x5002 + 5840;
  }

  lemma SynTemplateReady(zero: seq<byte>, frame: seq<byte>, local: addr, srcPort: uint16)
    requires |zero| == |frame| + 40 && forall k :: 0 <= k < |zero| ==> zero[k] == 0
    ensures var off := |frame|;
            var b := Spliced(Spliced(Spliced(Spliced(Spliced(zero, 0, frame), off, IpStart(40, 6)), off + 12, local),
                                     off + 20, Be16(srcPort)), off + 32, [0x50, 0x02] + Be16(5840));
            SynReady(b, frame, local, srcPort)
  {
    hide InternetChecksum;
    var p := SynPacket(local, srcPort, 0, 0);
    forall k | 0 <= k < 40 && !SynPatched(k)
      ensures p[k] == if k < 10 then IpStart(40, 6)[k] else if 12 <= k < 16 then local[k - 12]
                      else if 20 <= k < 22 then Be16(srcPort)[k - 20]
                      else if 32 <= k < 36 then ([0x50, 0x02] + Be16(5840))[k - 32] else 0
    { }
  }

  /** What the four patches leave in the buffer. */
  function SynSpliced(b: seq<byte>, off: nat, ip: uint32, port: uint16, csIp: uint16, csTcp: uint16): seq<byte>
    requires |b| == off + 40
  {
    Spliced(Spliced(Spliced(Spliced(b, off + 10, Be16(csIp)), off + 16, Addr(ip)), off + 22, Be16(port)),
            off + 36, Be16(csTcp))
  }

  lemma SynSplicedIsPacket(b: seq<byte>, frame: seq<byte>, local: addr, srcPort: uint16, ip: uint32, port: uint16)
    requires SynReady(b, frame, local, srcPort)
    ensures var csIp := InternetChecksum(IpHeader(40, 6, local, Addr(ip), 0));
            var csTcp := InternetChecksum(PseudoHeader(local, Addr(ip)) + TcpHeader(srcPort, port, 2, 0));
            SynSpliced(b, |frame|, ip, port, csIp, csTcp) == frame + SynPacket(local, srcPort, ip, port)
  {
    hide InternetChecksum, SynPacket, Spliced, Be16, Addr;
    var csIp := InternetChecksum(IpHeader(40, 6, local, Addr(ip), 0));
    var csTcp := InternetChecksum(PseudoHeader(local, Addr(ip)) + TcpHeader(srcPort, port, 2, 0));
    var off, r := |frame|, SynSpliced(b, |frame|, ip, port, csIp, csTcp);
    var f := frame + SynPacket(local, srcPort, ip, port);
    SynPacketReady(frame, local, srcPort, ip, port);
    SynPatchedBytes(local, srcPort, ip, port);
    assert forall k :: off <= k < off + 40 ==> f[k] == SynPacket(local, srcPort, ip, port)[k - off];
    forall k | 0 <= k < |r| ensures r[k] == f[k] {
      if k < off { assert b[..off] == frame; }
      else if !SynPatched(k - off) {
        assert r[off + (k - off)] == b[off + (k - off)] && f[off + (k - off)] == b[off + (k - off)];
      }
    }
  }

  lemma SynPatchedBytes(local: addr, srcPort: uint16, ip: uint32, port: uint16)
    ensures var p := SynPacket(local, srcPort, ip, port);
            && [p[10], p[11]] == Be16(InternetChecksum(IpHeader(40, 6, local, Addr(ip), 0)))
            && [p[16], p[17], p[18], p[19]] == Addr(ip) && [p[22], p[23]] == Be16(port)
            && [p[36], p[37]] == Be16(InternetChecksum(PseudoHeader(local, Addr(ip)) + TcpHeader(srcPort, port, 2, 0)))
  {
  }

  /** With the precomputed static sums. */
  lemma SynPatchIsPacket(b: seq<byte>, frame: seq<byte>, local: addr, srcPort: uint16, ip: uint32, port: uint16)
    requires SynReady(b, frame, local, srcPort)
    ensures var hi, lo := ip / 0x1_0000, ip % 0x1_0000;
            SynSpliced(b, |frame|, ip, port, Fold(IpStatic(40, 6, local) + hi + lo),
                       Fold(TcpStatic(local, srcPort) + hi + lo + port))
            == frame + SynPacket(local, srcPort, ip, port)
  {
    IpChecksumFromStatic(40, 6, local, ip);
    TcpChecksumFromStatic(local, srcPort, ip, port);
    SynSplicedIsPacket(b, frame, local, srcPort, ip, port);
  }

  /** `patch_syn`, on a buffer that may have been patched for any other targets before. */
  method PatchSyn(buf: array<byte>, off: nat, ip: uint32, port: uint16, ipStatic: nat, tcpStatic: nat,
                  ghost frame: seq<byte>, ghost local: addr, ghost srcPort: uint16)
    requires SynReady(buf[..], frame, local, srcPort) && off == |frame|
    requires ipStatic == IpStatic(40, 6, local) && tcpStatic == TcpStatic(local, srcPort)
    modifies buf
    ensures buf[..] == frame + SynPacket(local, srcPort, ip, port)
    ensures SynReady(buf[..], frame, local, srcPort)
  {
    hide IpStatic, TcpStatic, SynReady, SynPacket, Fold, Spliced;
    SynReadyLength(buf[..], frame, local, srcPort);
    SynPatchIsPacket(buf[..], frame, local, srcPort, ip, port);
    SynPacketReady(frame, local, srcPort, ip, port);
    var hi, lo := ip / 0x1_0000, ip % 0x1_0000;
    Put(buf, off + 10, Be16(Fold(ipStatic + hi + lo)));
    Put(buf, off + 16, Addr(ip));
    Put(buf, off + 22, Be16(port));
    Put(buf, off + 36, Be16(Fold(tcpStatic + hi + lo + port)));
  }

  /** A TCP slot of the zeroed C batch buffer, as the set-up loop leaves it. */
  method CInitSynSlot(slot: array<byte>, off: nat, local: addr, srcPort: uint16, frame: seq<byte>)
    requires off == |frame| && slot.Length == off + 40 && forall k :: 0 <= k < slot.Length ==> slot[k] == 0
    modifies slot
    ensures SynReady(slot[..], frame, local, srcPort)
  {
    hide Spliced, SynReady, SynPacket;
    SynTemplateReady(slot[..], frame, local, srcPort);
    Put(slot, 0, frame);
    Put(slot, off, IpStart(40, 6));
    Put(slot, off + 12, local);
    Put(slot, off + 20, Be16(srcPort));
    Put(slot, off + 32, [0x50, 0x02] + Be16(5840));
  }

  /** A TCP slot of the C batch buffer: the total length is rewritten too. */
  method CFillSyn(slot: array<byte>, off: nat, ip: uint32, port: uint16, local: addr, srcPort: uint16, ipStatic: nat,
                  ghost frame: seq<byte>)
    requires SynReady(slot[..], frame, local, srcPort) && off == |frame| && ipStatic == IpStatic(40, 6, local)
    modifies slot
    ensures slot[..] == frame + SynPacket(local, srcPort, ip, port)
    ensures SynReady(slot[..], frame, local, srcPort)
  {
    SameLengthBytes(slot[..], frame, local, srcPort);
    Put(slot, off + 2, [40 / 0x100 % 0x100, 40 % 0x100]);
    var st := HighWord(local) + LowWord(local) + 26 + srcPort + 0x5002 + 5840;
    PatchSyn(slot, off, ip, port, ipStatic, st, frame, local, srcPort);
  }

  lemma SameLengthBytes(b: seq<byte>, frame: seq<byte>, local: addr, srcPort: uint16)
    requires SynReady(b, frame, local, srcPort)
    ensures Spliced(b, |frame| + 2, [0, 40]) == b
  {
    hide InternetChecksum;
    var p := SynPacket(local, srcPort, 0, 0);
    assert b[|frame| + 2] == p[2] == 0 && b[|frame| + 3] == p[3] == 40;
  }

  lemma SynReadyLength(b: seq<byte>, frame: seq<byte>, local: addr, srcPort: uint16)
    requires SynReady(b, frame, local, srcPort)
    ensures |b| == |frame| + 40
  {
  }

  /** The Python worker's reuse of one buffer for a whole list of targets: only the last counts. */
  method PatchAll(buf: array<byte>, off: nat, targets: seq<(uint32, uint16)>, ipStatic: nat, tcpStatic: nat,
                  ghost frame: seq<byte>, ghost local: addr, ghost srcPort: uint16)
    requires SynReady(buf[..], frame, local, srcPort) && off == |frame| && targets != []
    requires ipStatic == IpStatic(40, 6, local) && tcpStatic == TcpStatic(local, srcPort)
    modifies buf
    ensures var (ip, port) := targets[|targets| - 1]; buf[..] == frame + SynPacket(local, srcPort, ip, port)
  {
    hide SynReady, SynPacket, IpStatic, TcpStatic;
    for i := 0 to |targets|
      invariant SynReady(buf[..], frame, local, srcPort)
      invariant i > 0 ==> buf[..] == frame + SynPacket(local, srcPort, targets[i - 1].0, targets[i - 1].1)
    {
      PatchSyn(buf, off, targets[i].0, targets[i].1, ipStatic, tcpStatic, frame, local, srcPort);
    }
  }

  // ----- UDP -----

  predicate UdpPatched(k: int) { k == 10 || k == 11 || 16 <= k < 20 || k == 22 || k == 23 }

  /** A buffer for one payload: everything but the patched bytes is in place. */
  ghost predicate UdpReady(b: seq<byte>, frame: seq<byte>, local: addr, srcPort: uint16, payload: seq<byte>) {
    && 28 + |payload| < 0x1_0000 && |b| == |frame| + 28 + |payload| && b[..|frame|] == frame
    && forall k :: 0 <= k < 28 + |payload| && !UdpPatched(k) ==>
         b[|frame| + k] == UdpPacket(local, srcPort, 0, 0, payload)[k]
  }

  /** A C batch slot: only the bytes no target and no payload ever changes are known. */
  predicate UdpFixed(k: int) { k == 0 || k == 1 || 4 <= k < 10 || 12 <= k < 16 || k == 20 || k == 21 }

  ghost predicate SlotReady(b: seq<byte>, frame: seq<byte>, local: addr, srcPort: uint16) {
    && |b| >= |frame| + 28 && b[..|frame|] == frame
    && forall k :: 0 <= k < 28 && UdpFixed(k) ==> b[|frame| + k] == UdpPacket(local, srcPort, 0, 0, [])[k]
  }

  /** The bytes of a UDP packet, position by position. */
  lemma UdpPacketBytes(local: addr, srcPort: uint16, ip: uint32, port: uint16, payload: seq<byte>)
    requires 28 + |payload| < 0x1_0000
    ensures var p := UdpPacket(local, srcPort, ip, port, payload);
            && [p[2], p[3]] == Be16(28 + |payload|)
            && [p[10], p[11]] == Be16(InternetChecksum(IpHeader(28 + |payload|, 17, local, Addr(ip), 0)))
            && [p[16], p[17], p[18], p[19]] == Addr(ip) && [p[22], p[23]] == Be16(port)
            && [p[24], p[25]] == Be16(8 + |payload|) && p[26] == 0 && p[27] == 0 && p[28..] == payload
            && (forall k :: 0 <= k < 28 && UdpFixed(k) ==> p[k] == UdpPacket(local, srcPort, 0, 0, [])[k])
  {
    var p, q := UdpPacket(local, srcPort, ip, port, payload), UdpPacket(local, srcPort, 0, 0, []);
    forall k | 0 <= k < 28 && UdpFixed(k) ensures p[k] == q[k] { }
  }

  /** The unpatched bytes do not depend on the target. */
  lemma SamePacketBytes(local: addr, srcPort: uint16, ip: uint32, port: uint16, payload: seq<byte>)
    requires 28 + |payload| < 0x1_0000
    ensures forall k :: 0 <= k < 28 + |payload| && !UdpPatched(k) ==>
      UdpPacket(local, srcPort, ip, port, payload)[k] == UdpPacket(local, srcPort, 0, 0, payload)[k]
  {
    hide UdpPacket, InternetChecksum;
    var p, q := UdpPacket(local, srcPort, ip, port, payload), UdpPacket(local, srcPort, 0, 0, payload);
    UdpPacketBytes(local, srcPort, ip, port, payload);
    UdpPacketBytes(local, srcPort, 0, 0, payload);
    forall k | 0 <= k < 28 + |payload| && !UdpPatched(k) ensures p[k] == q[k] {
      if k >= 28 { assert p[28..][k - 28] == q[28..][k - 28]; }
    }
  }

  lemma UdpPacketReady(frame: seq<byte>, local: addr, srcPort: uint16, ip: uint32, port: uint16, payload: seq<byte>)
    requires 28 + |payload| < 0x1_0000
    ensures UdpReady(frame + UdpPacket(local, srcPort, ip, port, payload), frame, local, srcPort, payload)
  {
    SamePacketBytes(local, srcPort, ip, port, payload);
    hide UdpPacket;
    var p := UdpPacket(local, srcPort, ip, port, payload);
    assert forall k :: 0 <= k < 28 + |payload| ==> (frame + p)[|frame| + k] == p[k];
  }

  /** Overwriting the patched bytes of a buffer with those of p makes the buffer hold p. */
  lemma PatchesMake(b: seq<byte>, off: nat, p: seq<byte>, cs: seq<byte>, ip: seq<byte>, port: seq<byte>)
    requires |b| == off + |p| && |p| >= 28 && |cs| == 2 && |ip| == 4 && |port| == 2
    requires p[10..12] == cs && p[16..20] == ip && p[22..24] == port
    requires forall k :: 0 <= k < |p| && !UdpPatched(k) ==> b[off + k] == p[k]
    ensures Spliced(Spliced(Spliced(b, off + 10, cs), off + 16, ip), off + 22, port) == b[..off] + p
  {
    hide Spliced;
    var r := Spliced(Spliced(Spliced(b, off + 10, cs), off + 16, ip), off + 22, port);
    forall k | 0 <= k < |b| ensures r[k] == (b[..off] + p)[k] {
      if off <= k { assert b[off + (k - off)] == b[k]; }
    }
  }

  lemma UdpPatchIsPacket(b: seq<byte>, frame: seq<byte>, local: addr, srcPort: uint16, ip: uint32, port: uint16,
                         payload: seq<byte>)
    requires UdpReady(b, frame, local, srcPort, payload)
    ensures var off, cs := |frame|, Fold(IpStatic(28 + |payload|, 17, local) + ip / 0x1_0000 + ip % 0x1_0000);
            Spliced(Spliced(Spliced(b, off + 10, Be16(cs)), off + 16, Addr(ip)), off + 22, Be16(port))
            == frame + UdpPacket(local, srcPort, ip, port, payload)
  {
    hide UdpPacket, InternetChecksum, IpHeader, Fold, IpStatic, Spliced, Be16, Addr;
    IpChecksumFromStatic(28 + |payload|, 17, local, ip);
    UdpPacketBytes(local, srcPort, ip, port, payload);
    SamePacketBytes(local, srcPort, ip, port, payload);
    var cs, p := Fold(IpStatic(28 + |payload|, 17, local) + ip / 0x1_0000 + ip % 0x1_0000),
                 UdpPacket(local, srcPort, ip, port, payload);
    assert p[10..12] == [p[10], p[11]] && p[16..20] == [p[16], p[17], p[18], p[19]] && p[22..24] == [p[22], p[23]];
    PatchesMake(b, |frame|, p, Be16(cs), Addr(ip), Be16(port));
  }

  method BuildUdpTemplate(local: addr, srcPort: uint16, payload: seq<byte>, macs: Option<Macs>)
    returns (buf: array<byte>, ipStatic: nat)
    requires 28 + |payload| < 0x1_0000
    ensures fresh(buf) && UdpReady(buf[..], Ethernet(macs), local, srcPort, payload)
    ensures ipStatic == IpStatic(28 + |payload|, 17, local)
  {
    hide Spliced, UdpReady, UdpPacket;
    var off := if macs.Some? then 14 else 0;
    var totalLen := 28 + |payload|;
    buf := new byte[off + totalLen](_ => 0);
    ghost var zero := buf[..];
    Put(buf, 0, Ethernet(macs));
    Put(buf, off, IpStart(totalLen, 17));
    Put(buf, off + 12, local);
    Put(buf, off + 20, Be16(srcPort));
    Put(buf, off + 24, Be16(8 + |payload|) + [0, 0]);
    Put(buf, off + 28, payload);
    UdpTemplateReady(zero, Ethernet(macs), local, srcPort, payload);
    ipStatic := 0x4500 + totalLen + 54321 + 0 + (64 * 0x100 + 17) + HighWord(local) + LowWord(local);
  }

  lemma UdpTemplateReady(zero: seq<byte>, frame: seq<byte>, local: addr, srcPort: uint16, payload: seq<byte>)
    requires 28 + |payload| < 0x1_0000 && |zero| == |frame| + 28 + |payload|
    ensures var off := |frame|;
            var head := Spliced(Spliced(Spliced(zero, 0, frame), off, IpStart(28 + |payload|, 17)), off + 12, local);
            var b := Spliced(Spliced(Spliced(head, off + 20, Be16(srcPort)), off + 24, Be16(8 + |payload|) + [0, 0]),
                             off + 28, payload);
            UdpReady(b, frame, local, srcPort, payload)
  {
    hide InternetChecksum;
    var p := UdpPacket(local, srcPort, 0, 0, payload);
    UdpPacketBytes(local, srcPort, 0, 0, payload);
    forall k | 0 <= k < 28 + |payload| && !UdpPatched(k)
      ensures p[k] == if k < 10 then IpStart(28 + |payload|, 17)[k] else if k < 16 then local[k - 12]
                      else if k < 22 then Be16(srcPort)[k - 20]
                      else if k < 28 then (Be16(8 + |payload|) + [0, 0])[k - 24] else payload[k - 28]
    {
      if k >= 28 { assert p[28..][k - 28] == p[k]; }
    }
  }

  lemma UdpReadyLength(b: seq<byte>, frame: seq<byte>, local: addr, srcPort: uint16, payload: seq<byte>)
    requires UdpReady(b, frame, local, srcPort, payload)
    ensures |b| == |frame| + 28 + |payload| && 28 + |payload| < 0x1_0000
  {
  }

  /** `patch_udp`, on a buffer that may have been patched for any other targets before. */
  method PatchUdp(buf: array<byte>, off: nat, ip: uint32, port: uint16, ipStatic: nat,
                  ghost frame: seq<byte>, ghost local: addr, ghost srcPort: uint16, ghost payload: seq<byte>)
    requires UdpReady(buf[..], frame, local, srcPort, payload) && off == |frame|
    requires ipStatic == IpStatic(28 + |payload|, 17, local)
    modifies buf
    ensures buf[..] == frame + UdpPacket(local, srcPort, ip, port, payload)
    ensures UdpReady(buf[..], frame, local, srcPort, payload)
  {
    hide IpStatic, UdpReady, UdpPacket, Fold, Spliced, Be16, Addr;
    UdpReadyLength(buf[..], frame, local, srcPort, payload);
    UdpPatchIsPacket(buf[..], frame, local, srcPort, ip, port, payload);
    UdpPacketReady(frame, local, srcPort, ip, port, payload);
    Put(buf, off + 10, Be16(Fold(ipStatic + ip / 0x1_0000 + ip % 0x1_0000)));
    Put(buf, off + 16, Addr(ip));
    Put(buf, off + 22, Be16(port));
  }

  /** A UDP slot of the C batch buffer, as the set-up loop leaves it. */
  method CInitUdpSlot(slot: array<byte>, off: nat, firstLen: uint16, local: addr, srcPort: uint16, frame: seq<byte>)
    requires off == |frame| && slot.Length >= off + 28
    modifies slot
    ensures SlotReady(slot[..], frame, local, srcPort)
  {
    ghost var b := slot[..];
    Put(slot, 0, frame);
    Put(slot, off, IpStart(firstLen, 17));
    Put(slot, off + 12, local);
    Put(slot, off + 20, Be16(srcPort));
    SlotStarts(b, frame, local, srcPort, firstLen);
  }

  lemma SlotStarts(b: seq<byte>, frame: seq<byte>, local: addr, srcPort: uint16, firstLen: uint16)
    requires |b| >= |frame| + 28
    ensures var off := |frame|;
            SlotReady(Spliced(Spliced(Spliced(Spliced(b, 0, frame), off, IpStart(firstLen, 17)), off + 12, local),
                              off + 20, Be16(srcPort)), frame, local, srcPort)
  {
    hide InternetChecksum;
    var p := UdpPacket(local, srcPort, 0, 0, []);
    forall k | 0 <= k < 28 && UdpFixed(k)
      ensures p[k] == if k < 10 then IpStart(firstLen, 17)[k] else if k < 16 then local[k - 12]
                      else Be16(srcPort)[k - 20]
    { }
  }

  /** What the writes for one target leave in a slot. */
  function SlotFilled(b: seq<byte>, off: nat, ip: uint32, port: uint16, payload: seq<byte>, cs: uint16): seq<byte>
    requires 28 + |payload| < 0x1_0000 && |b| >= off + 28 + |payload|
  {
    var head := Spliced(Spliced(Spliced(b, off + 2, Be16(28 + |payload|)), off + 10, Be16(cs)), off + 16, Addr(ip));
    Spliced(Spliced(Spliced(Spliced(head, off + 22, Be16(port)), off + 24, Be16(8 + |payload|)), off + 26, [0, 0]),
            off + 28, payload)
  }

  /** On a ready slot those writes amount to writing the whole packet. */
  lemma SlotFilledIsPacket(b: seq<byte>, frame: seq<byte>, local: addr, srcPort: uint16, ip: uint32, port: uint16,
                           payload: seq<byte>)
    requires 28 + |payload| < 0x1_0000 && |b| >= |frame| + 28 + |payload|
    requires SlotReady(b, frame, local, srcPort)
    ensures var cs := Fold(IpStatic(28 + |payload|, 17, local) + ip / 0x1_0000 + ip % 0x1_0000);
            SlotFilled(b, |frame|, ip, port, payload, cs) ==
            Spliced(b, |frame|, UdpPacket(local, srcPort, ip, port, payload))
  {
    hide UdpPacket, InternetChecksum, IpHeader, Fold, IpStatic, Be16, Addr, SlotFilled;
    IpChecksumFromStatic(28 + |payload|, 17, local, ip);
    UdpPacketBytes(local, srcPort, ip, port, payload);
    var cs, p := Fold(IpStatic(28 + |payload|, 17, local) + ip / 0x1_0000 + ip % 0x1_0000),
                 UdpPacket(local, srcPort, ip, port, payload);
    assert p[2..4] == [p[2], p[3]] && p[10..12] == [p[10], p[11]] && p[16..20] == [p[16], p[17], p[18], p[19]];
    assert p[22..24] == [p[22], p[23]] && p[24..26] == [p[24], p[25]];
    SlotFilledBytes(b, |frame|, p, ip, port, payload, cs);
  }

  /** Those writes replace everything but the fixed bytes of the headers. */
  lemma SlotFilledBytes(b: seq<byte>, off: nat, p: seq<byte>, ip: uint32, port: uint16, payload: seq<byte>, cs: uint16)
    requires 28 + |payload| < 0x1_0000 && |b| >= off + 28 + |payload| && |p| == 28 + |payload|
    requires p[2..4] == Be16(28 + |payload|) && p[10..12] == Be16(cs) && p[16..20] == Addr(ip)
    requires p[22..24] == Be16(port) && p[24..26] == Be16(8 + |payload|) && p[26..28] == [0, 0] && p[28..] == payload
    requires forall k :: 0 <= k < 28 && UdpFixed(k) ==> b[off + k] == p[k]
    ensures SlotFilled(b, off, ip, port, payload, cs) == Spliced(b, off, p)
  {
    hide Spliced, Be16, Addr;
    var r, g := SlotFilled(b, off, ip, port, payload, cs), Spliced(b, off, p);
    forall k | 0 <= k < |b| ensures r[k] == g[k] {
      if off <= k < off + 28 && UdpFixed(k - off) { assert b[off + (k - off)] == p[k - off]; }
    }
  }

  lemma SlotAfter(b: seq<byte>, frame: seq<byte>, local: addr, srcPort: uint16, ip: uint32, port: uint16,
                  payload: seq<byte>)
    requires 28 + |payload| < 0x1_0000 && |b| >= |frame| + 28 + |payload|
    requires SlotReady(b, frame, local, srcPort)
    ensures var r := Spliced(b, |frame|, UdpPacket(local, srcPort, ip, port, payload));
            && SlotReady(r, frame, local, srcPort)
            && r[..|frame| + 28 + |payload|] == frame + UdpPacket(local, srcPort, ip, port, payload)
  {
    UdpPacketBytes(local, srcPort, ip, port, payload);
    hide UdpPacket;
    var p := UdpPacket(local, srcPort, ip, port, payload);
    assert Spliced(b, |frame|, p)[..|frame|] == frame;
  }

  /** The hot loop's writes into a slot that held any other target and payload before. */
  method CFillUdp(slot: array<byte>, off: nat, ip: uint32, port: uint16, payload: seq<byte>, ipStatic: nat,
                  ghost frame: seq<byte>, ghost local: addr, ghost srcPort: uint16)
    requires 28 + |payload| < 0x1_0000 && slot.Length >= off + 28 + |payload|
    requires SlotReady(slot[..], frame, local, srcPort) && off == |frame|
    requires ipStatic == IpStatic(28 + |payload|, 17, local)
    modifies slot
    ensures slot[..off + 28 + |payload|] == frame + UdpPacket(local, srcPort, ip, port, payload)
    ensures SlotReady(slot[..], frame, local, srcPort)
  {
    hide IpStatic, SlotReady, UdpPacket, Fold, Spliced;
    SlotFilledIsPacket(slot[..], frame, local, srcPort, ip, port, payload);
    SlotAfter(slot[..], frame, local, srcPort, ip, port, payload);
    var plen := 28 + |payload|;
    Put(slot, off + 2, Be16(plen));
    Put(slot, off + 10, Be16(Fold(ipStatic + ip / 0x1_0000 + ip % 0x1_0000)));
    Put(slot, off + 16, Addr(ip));
    Put(slot, off + 22, Be16(port));
    Put(slot, off + 24, Be16(8 + |payload|));
    Put(slot, off + 26, [0, 0]);
    Put(slot, off + 28, payload);
    assert slot[..off + 28 + |payload|] == slot[..][..off + 28 + |payload|];
  }
}
