/** What a receiver reads from the packets sent, at the offsets of RFC 791, RFC 768 and RFC 9293. */
module Fields {
  import opened Bits
  import opened Checksum
  import opened Packet
  import opened TcpOptions

  /** An IP header without options: every field but the checksum. */
  predicate PlainIp(p: seq<byte>, proto: byte, src: addr, dst: uint32)
    requires |p| >= 20
  {
    && p[0] / 16 == 4 && p[0] % 16 == 5 && p[1] == 0
    && U16(p, 2) == |p|
    && U16(p, 4) == 54321
    && U16(p, 6) == 0                 // not a fragment
    && p[8] == 64 && p[9] == proto
    && p[12..16] == src && U32(p, 16) == dst
  }

  lemma IpHeaderFields(totalLen: uint16, proto: byte, local: addr, ip: uint32, rest: seq<byte>)
    requires totalLen == 20 + |rest|
    ensures PlainIp(CompleteIpHeader(totalLen, proto, local, Addr(ip)) + rest, proto, local, ip)
    ensures InternetChecksum((CompleteIpHeader(totalLen, proto, local, Addr(ip)) + rest)[..20]) == 0
  {
    hide InternetChecksum, Addr, PlainIp;
    var h := CompleteIpHeader(totalLen, proto, local, Addr(ip));
    IpHeaderVerifies(totalLen, proto, local, ip);
    assert (h + rest)[..20] == h;
    AddrWords(ip);
    var check := InternetChecksum(IpHeader(totalLen, proto, local, Addr(ip), 0));
    HeaderReads(totalLen, proto, local, Addr(ip), check, ip, rest);
  }

  lemma HeaderReads(totalLen: uint16, proto: byte, src: addr, dst: addr, check: uint16, ip: uint32, rest: seq<byte>)
    requires totalLen == 20 + |rest| && HighWord(dst) == ip / 0x1_0000 && LowWord(dst) == ip % 0x1_0000
    ensures PlainIp(IpHeader(totalLen, proto, src, dst, check) + rest, proto, src, ip)
  {
    var p := IpHeader(totalLen, proto, src, dst, check) + rest;
    assert p[12..16] == [p[12], p[13], p[14], p[15]] == src;
    assert U16(p, 16) == HighWord(dst) && U16(p, 18) == LowWord(dst);
  }

  /** The pseudo-header of a received segment (RFC 9293, section 3.1), from the packet itself. */
  function PseudoHeaderOf(p: seq<byte>): seq<byte>
    requires 20 <= |p| < 0x1_0000
  {
    p[12..20] + [0, p[9]] + Be16(|p| - 20)
  }

  /** Every SYN probe is a well-formed packet of exactly this meaning. */
  lemma SynFields(local: addr, srcPort: uint16, ip: uint32, port: uint16)
    ensures var p := SynPacket(local, srcPort, ip, port);
            && PlainIp(p, 6, local, ip) && InternetChecksum(p[..20]) == 0
            && U16(p, 20) == srcPort && U16(p, 22) == port
            && U32(p, 24) == 0 && U32(p, 28) == 0                    // sequence and acknowledgement
            && p[32] / 16 == 5 && p[32] % 16 == 0 && p[33] == 0x02   // no options; SYN alone
            && U16(p, 34) == 5840 && U16(p, 38) == 0                 // window, urgent pointer
            && InternetChecksum(PseudoHeaderOf(p) + p[20..]) == 0
  {
    var p := SynPacket(local, srcPort, ip, port);
    var t := CreateTcpHeaderFast(local, Addr(ip), srcPort, port, 2);
    IpHeaderFields(40, 6, local, ip, t);
    TcpHeaderVerifies(local, srcPort, ip, port);
    TcpHeaderFields(local, srcPort, ip, port);
    hide InternetChecksum, Addr, PlainIp, CreateTcpHeaderFast;
    assert p[20..] == t;
    SynPseudoHeader(local, srcPort, ip, port);
  }

  lemma TcpHeaderFields(local: addr, srcPort: uint16, ip: uint32, port: uint16)
    ensures var t := CreateTcpHeaderFast(local, Addr(ip), srcPort, port, 2);
            && U16(t, 0) == srcPort && U16(t, 2) == port && U32(t, 4) == 0 && U32(t, 8) == 0
            && t[12] == 0x50 && t[13] == 2 && U16(t, 14) == 5840 && U16(t, 18) == 0
  {
    hide InternetChecksum, Addr, PseudoHeader;
  }

  lemma SynPseudoHeader(local: addr, srcPort: uint16, ip: uint32, port: uint16)
    ensures PseudoHeaderOf(SynPacket(local, srcPort, ip, port)) == PseudoHeader(local, Addr(ip))
  {
    hide InternetChecksum, Addr;
    var p := SynPacket(local, srcPort, ip, port);
    assert p[12..20] == local + Addr(ip);
  }

  /** Every UDP probe likewise; its checksum is 0, which stands for none (RFC 768). */
  lemma UdpFields(local: addr, srcPort: uint16, ip: uint32, port: uint16, payload: seq<byte>)
    requires 28 + |payload| < 0x1_0000
    ensures var p := UdpPacket(local, srcPort, ip, port, payload);
            && PlainIp(p, 17, local, ip) && InternetChecksum(p[..20]) == 0
            && U16(p, 20) == srcPort && U16(p, 22) == port
            && U16(p, 24) == |p| - 20 && U16(p, 26) == 0
            && p[28..] == payload
  {
    var p := UdpPacket(local, srcPort, ip, port, payload);
    var u := Be16(srcPort) + Be16(port) + Be16(8 + |payload|) + [0, 0] + payload;
    assert p == CompleteIpHeader(28 + |payload|, 17, local, Addr(ip)) + u;
    hide *;
    IpHeaderFields(28 + |payload|, 17, local, ip, u);
    UdpHeaderFields(CompleteIpHeader(28 + |payload|, 17, local, Addr(ip)), srcPort, port, payload);
  }

  lemma UdpHeaderFields(h: seq<byte>, srcPort: uint16, port: uint16, payload: seq<byte>)
    requires |h| == 20 && 28 + |payload| < 0x1_0000
    ensures var p := h + (Be16(srcPort) + Be16(port) + Be16(8 + |payload|) + [0, 0] + payload);
            && |p| == 28 + |payload| && U16(p, 20) == srcPort && U16(p, 22) == port
            && U16(p, 24) == |p| - 20 && U16(p, 26) == 0 && p[28..] == payload
  {
  }

  /** A worked packet: a SYN from 10.0.0.5:40000 to 8.8.8.8:80, byte by byte. */
  lemma KnownSyn(local: addr, ip: uint32)
    requires local == [10, 0, 0, 5] && ip == 0x08080808
    ensures SynPacket(local, 40000, ip, 80) ==
            [0x45, 0x00, 0x00, 0x28, 0xD4, 0x31, 0x00, 0x00, 0x40, 0x06, 0x8C, 0x8A, 0x0A, 0x00, 0x00, 0x05, 0x08, 0x08,
             0x08, 0x08, 0x9C, 0x40, 0x00, 0x50, 0x00, 0x00, 0x00, 0x00, 0x00, 0x00, 0x00, 0x00, 0x50, 0x02, 0x16, 0xD0,
             0xE2, 0x6D, 0x00, 0x00]
  {
    hide CreateIpv4HeaderFast, CreateTcpHeaderFast, InternetChecksum, Addr;
    KnownSums(local, ip);
    KnownHeaders(local, ip);
  }

  lemma KnownHeaders(local: addr, ip: uint32)
    requires local == [10, 0, 0, 5] && ip == 0x08080808
    requires InternetChecksum(IpHeader(40, 6, local, Addr(ip), 0)) == 0x8C8A
    requires InternetChecksum(PseudoHeader(local, Addr(ip)) + TcpHeader(40000, 80, 2, 0)) == 0xE26D
    ensures CreateIpv4HeaderFast(local, Addr(ip), 6) ==
            [0x45, 0x00, 0x00, 0x28, 0xD4, 0x31, 0x00, 0x00, 0x40, 0x06, 0x8C, 0x8A, 0x0A, 0x00, 0x00, 0x05, 0x08, 0x08,
             0x08, 0x08]
    ensures CreateTcpHeaderFast(local, Addr(ip), 40000, 80, 2) ==
            [0x9C, 0x40, 0x00, 0x50, 0x00, 0x00, 0x00, 0x00, 0x00, 0x00, 0x00, 0x00, 0x50, 0x02, 0x16, 0xD0,
             0xE2, 0x6D, 0x00, 0x00]
  {
    hide InternetChecksum, PseudoHeader;
    assert Addr(ip) == [8, 8, 8, 8];
  }

  lemma KnownSums(local: addr, ip: uint32)
    requires local == [10, 0, 0, 5] && ip == 0x08080808
    ensures InternetChecksum(IpHeader(40, 6, local, Addr(ip), 0)) == 0x8C8A
    ensures InternetChecksum(PseudoHeader(local, Addr(ip)) + TcpHeader(40000, 80, 2, 0)) == 0xE26D
  {
    hide InternetChecksum, IpHeader, TcpHeader, PseudoHeader;
    IpChecksumFromStatic(40, 6, local, ip);
    TcpChecksumFromStatic(local, 40000, ip, 80);
  }
}
