/** Packet bytes: templates patched in place against packets built from scratch. */
module Packet {
  import opened Bits
  import opened Checksum

  // ----- From scratch -----

  /** The four bytes of an address, as `struct.pack("!I", ip)`. */
  function Addr(ip: uint32): (s: seq<byte>)
    ensures |s| == 4
  {
    [ip / 0x100_0000, ip / 0x1_0000 % 0x100, ip / 0x100 % 0x100, ip % 0x100]
  }

  type addr = s: seq<byte> | |s| == 4 witness [0, 0, 0, 0]

  type uint16 = x: nat | x < 0x1_0000

  /** IP_HEADER_STRUCT.pack with IP_ID 54321 and DEFAULT_TTL 64. */
  function IpHeader(totalLen: uint16, proto: byte, src: addr, dst: addr, check: uint16): (h: seq<byte>)
    ensures |h| == 20
  {
    [0x45, 0, totalLen / 0x100, totalLen % 0x100, 0xD4, 0x31, 0, 0, 64, proto, check / 0x100, check % 0x100,
     src[0], src[1], src[2], src[3], dst[0], dst[1], dst[2], dst[3]]
  }

  function CompleteIpHeader(totalLen: uint16, proto: byte, src: addr, dst: addr): (h: seq<byte>)
    ensures |h| == 20
  {
    IpHeader(totalLen, proto, src, dst, InternetChecksum(IpHeader(totalLen, proto, src, dst, 0)))
  }

  /** `create_ipv4_header_fast`. */
  function CreateIpv4HeaderFast(src: addr, dst: addr, proto: byte): (h: seq<byte>)
    ensures |h| == 20
  {
    CompleteIpHeader(40, proto, src, dst)
  }

  function TcpHeader(srcPort: uint16, dstPort: uint16, flags: byte, check: uint16): (h: seq<byte>)
    ensures |h| == 20
  {
    [srcPort / 0x100, srcPort % 0x100, dstPort / 0x100, dstPort % 0x100, 0, 0, 0, 0, 0, 0, 0, 0, 0x50, flags,
     0x16, 0xD0, check / 0x100, check % 0x100, 0, 0]
  }

  function PseudoHeader(src: addr, dst: addr): (h: seq<byte>)
    ensures |h| == 12
  {
    [src[0], src[1], src[2], src[3], dst[0], dst[1], dst[2], dst[3], 0, 6, 0, 20]
  }

  /** `create_tcp_header_fast`. */
  function CreateTcpHeaderFast(src: addr, dst: addr, srcPort: uint16, dstPort: uint16, flags: byte): (h: seq<byte>)
    ensures |h| == 20
  {
    TcpHeader(srcPort, dstPort, flags,
              InternetChecksum(PseudoHeader(src, dst) + TcpHeader(srcPort, dstPort, flags, 0)))
  }

  function SynPacket(local: addr, srcPort: uint16, ip: uint32, port: uint16): (p: seq<byte>)
    ensures |p| == 40
  {
    CreateIpv4HeaderFast(local, Addr(ip), 6) + CreateTcpHeaderFast(local, Addr(ip), srcPort, port, 2)
  }

  /** A UDP probe; the UDP checksum is left at 0. */
  function UdpPacket(local: addr, srcPort: uint16, ip: uint32, port: uint16, payload: seq<byte>): (p: seq<byte>)
    requires 28 + |payload| < 0x1_0000
    ensures |p| == 28 + |payload|
  {
    CompleteIpHeader(28 + |payload|, 17, local, Addr(ip))
    + Be16(srcPort) + Be16(port) + Be16(8 + |payload|) + [0, 0] + payload
  }

  // ----- Static sums -----

  function HighWord(a: addr): nat { a[0] as nat * 0x100 + a[1] as nat }

  function LowWord(a: addr): nat { a[2] as nat * 0x100 + a[3] as nat }

  function IpStatic(totalLen: uint16, proto: byte, local: addr): nat {
    0x4500 + totalLen + 54321 + 0 + (64 * 0x100 + proto) + HighWord(local) + LowWord(local)
  }

  function TcpStatic(local: addr, srcPort: uint16): nat {
    HighWord(local) + LowWord(local) + 6 + 20 + srcPort + 0x5002 + 5840
  }

  lemma AddrWords(ip: uint32)
    ensures HighWord(Addr(ip)) == ip / 0x1_0000 && LowWord(Addr(ip)) == ip % 0x1_0000
  {
    assert ip / 0x1_0000 / 0x100 == ip / 0x100_0000;
    assert ip % 0x1_0000 == ip / 0x100 % 0x100 * 0x100 + ip % 0x100;
  }

  lemma WordSumFive(m: seq<byte>, i: nat)
    requires i + 10 <= |m|
    ensures WordSum(m, i) == Word(m, i) + Word(m, i + 2) + Word(m, i + 4) + Word(m, i + 6) + Word(m, i + 8)
                             + WordSum(m, i + 10)
  {
    assert WordSum(m, i + 6) == Word(m, i + 6) + (Word(m, i + 8) + WordSum(m, i + 10));
    assert WordSum(m, i + 2) == Word(m, i + 2) + (Word(m, i + 4) + WordSum(m, i + 6));
  }

  lemma IpHeaderSum(totalLen: uint16, proto: byte, local: addr, ip: uint32, check: uint16)
    ensures WordSum(IpHeader(totalLen, proto, local, Addr(ip), check)) ==
            IpStatic(totalLen, proto, local) + ip / 0x1_0000 + ip % 0x1_0000 + check
  {
    var h := IpHeader(totalLen, proto, local, Addr(ip), check);
    WordSumFive(h, 0);
    WordSumFive(h, 10);
    AddrWords(ip);
  }

  /** The patched IP checksum is the one computed over the whole header. */
  lemma IpChecksumFromStatic(totalLen: uint16, proto: byte, local: addr, ip: uint32)
    ensures Fold(IpStatic(totalLen, proto, local) + ip / 0x1_0000 + ip % 0x1_0000) ==
            InternetChecksum(IpHeader(totalLen, proto, local, Addr(ip), 0))
  {
    IpHeaderSum(totalLen, proto, local, ip, 0);
    TwoFoldsReach(IpStatic(totalLen, proto, local) + ip / 0x1_0000 + ip % 0x1_0000);
  }

  /** Every complete header checksums to zero. */
  lemma IpHeaderVerifies(totalLen: uint16, proto: byte, local: addr, ip: uint32)
    ensures InternetChecksum(CompleteIpHeader(totalLen, proto, local, Addr(ip))) == 0
  {
    var s := IpStatic(totalLen, proto, local) + ip / 0x1_0000 + ip % 0x1_0000;
    var c := InternetChecksum(IpHeader(totalLen, proto, local, Addr(ip), 0));
    IpHeaderSum(totalLen, proto, local, ip, 0);
    IpHeaderSum(totalLen, proto, local, ip, c);
    TwoFoldsReach(s);
    TwoFoldsReach(s + c);
    ComplementFolds(s);
  }

  lemma TcpSum(local: addr, srcPort: uint16, ip: uint32, port: uint16, check: uint16)
    ensures WordSum(PseudoHeader(local, Addr(ip)) + TcpHeader(srcPort, port, 2, check)) ==
            TcpStatic(local, srcPort) + ip / 0x1_0000 + ip % 0x1_0000 + port + check
  {
    var h := PseudoHeader(local, Addr(ip)) + TcpHeader(srcPort, port, 2, check);
    WordSumFive(h, 0);
    WordSumFive(h, 10);
    WordSumFive(h, 20);
    assert WordSum(h, 30) == Word(h, 30) + WordSum(h, 32) && WordSum(h, 32) == 0;
    AddrWords(ip);
  }

  lemma TcpChecksumFromStatic(local: addr, srcPort: uint16, ip: uint32, port: uint16)
    ensures Fold(TcpStatic(local, srcPort) + ip / 0x1_0000 + ip % 0x1_0000 + port) ==
            InternetChecksum(PseudoHeader(local, Addr(ip)) + TcpHeader(srcPort, port, 2, 0))
  {
    TcpSum(local, srcPort, ip, port, 0);
    TwoFoldsReach(TcpStatic(local, srcPort) + ip / 0x1_0000 + ip % 0x1_0000 + port);
  }

  lemma TcpHeaderVerifies(local: addr, srcPort: uint16, ip: uint32, port: uint16)
    ensures InternetChecksum(PseudoHeader(local, Addr(ip)) +
                             CreateTcpHeaderFast(local, Addr(ip), srcPort, port, 2)) == 0
  {
    var s := TcpStatic(local, srcPort) + ip / 0x1_0000 + ip % 0x1_0000 + port;
    var c := InternetChecksum(PseudoHeader(local, Addr(ip)) + TcpHeader(srcPort, port, 2, 0));
    TcpSum(local, srcPort, ip, port, 0);
    TcpSum(local, srcPort, ip, port, c);
    TwoFoldsReach(s);
    TwoFoldsReach(s + c);
    ComplementFolds(s);
  }
}
