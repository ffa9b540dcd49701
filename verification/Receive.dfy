/** Reply parsing, and the kernel filter that runs before it. */
module Receive {
  import opened Wrappers
  import opened Bits
  import opened Checksum
  import opened Packet
  import opened TcpOptions

  datatype Mode = Tcp | Udp | Icmp

  datatype Response = Response(ipInt: nat, port: nat, proto: Mode, ttl: nat, window: nat, options: Options)

  /** The destination check; `None` switches it off. */
  predicate ForUs(data: seq<byte>, localIp: Option<nat>)
    requires |data| >= 20
  {
    localIp.None? || U32(data, 16) == localIp.value
  }

  predicate SynAck(flags: byte) { And(flags, 0x12) == 0x12 }

  /** `parse_response`. */
  function ParseResponse(data: seq<byte>, srcPort: nat, mode: Mode, localIp: Option<nat>): (r: Option<Response>)
    ensures r.Some? ==> r.value.port < 0x1_0000
  {
    if |data| < 20 || data[0] / 16 != 4 then None
    else
      var iphLen: nat := data[0] % 16 * 4;
      if iphLen < 20 || !ForUs(data, localIp) then None
      else
        match mode
        case Icmp =>
          if |data| < iphLen + 8 || data[iphLen] != 0 then None
          else Some(Response(U32(data, 12), 0, Icmp, data[8], 0, NO_OPTIONS))
        case Udp =>
          if |data| < iphLen + 8 || U16(data, iphLen + 2) != srcPort then None
          else Some(Response(U32(data, 12), U16(data, iphLen), Udp, data[8], 0, NO_OPTIONS))
        case Tcp =>
          if |data| < iphLen + 20 || U16(data, iphLen + 2) != srcPort || !SynAck(data[iphLen + 13]) then None
          else
            Some(Response(U32(data, 12), U16(data, iphLen), Tcp, data[8], U16(data, iphLen + 14),
                          ReplyOptions(data, iphLen)))
  }

  function ReplyOptions(data: seq<byte>, iphLen: nat): Options
    requires |data| >= iphLen + 20
  {
    var hdrLen: nat := data[iphLen + 12] / 16 * 4;
    if hdrLen > 20 && |data| >= iphLen + hdrLen then
      ParseFrom(data[iphLen + 20..iphLen + hdrLen], 0, NO_OPTIONS)
    else NO_OPTIONS
  }

  // ----- Classic BPF -----

  datatype Instruction = Instruction(code: nat, jt: nat, jf: nat, k: nat)

  // Classes, sizes, modes and operations, as linux/bpf_common.h numbers them; the operand is always k.
  const BPF_LD := 0x00
  const BPF_ALU := 0x04
  const BPF_JMP := 0x05
  const BPF_RET := 0x06
  const BPF_H := 0x08
  const BPF_B := 0x10
  const BPF_ABS := 0x20
  const BPF_AND := 0x50
  const BPF_JEQ := 0x10

  /** `build_bpf_program`. */
  function BuildBpfProgram(srcPort: nat, mode: Mode): seq<Instruction> {
    match mode
    case Icmp => [
      Instruction(0x30, 0, 0, 20), Instruction(0x15, 0, 1, 0),
      Instruction(0x06, 0, 0, 0x00040000), Instruction(0x06, 0, 0, 0)]
    case Udp => [
      Instruction(0x28, 0, 0, 22), Instruction(0x15, 0, 1, srcPort),
      Instruction(0x06, 0, 0, 0x00040000), Instruction(0x06, 0, 0, 0)]
    case Tcp => [
      Instruction(0x28, 0, 0, 22), Instruction(0x15, 0, 4, srcPort),
      Instruction(0x30, 0, 0, 33), Instruction(0x54, 0, 0, 0x12), Instruction(0x15, 0, 1, 0x12),
      Instruction(0x06, 0, 0, 0x00040000), Instruction(0x06, 0, 0, 0)]
  }

  /** The classic BPF machine, for the instructions used: the number of bytes to keep. A load
      beyond the packet drops it, and so does leaving the program. */
  function RunBpf(prog: seq<Instruction>, data: seq<byte>, pc: nat, a: nat): nat
    decreases |prog| - pc
  {
    if pc >= |prog| then 0
    else
      var i := prog[pc];
      if i.code == BPF_LD + BPF_B + BPF_ABS then
        if i.k < |data| then RunBpf(prog, data, pc + 1, data[i.k]) else 0
      else if i.code == BPF_LD + BPF_H + BPF_ABS then
        if i.k + 2 <= |data| then RunBpf(prog, data, pc + 1, U16(data, i.k)) else 0
      else if i.code == BPF_ALU + BPF_AND then RunBpf(prog, data, pc + 1, And(a, i.k))
      else if i.code == BPF_JMP + BPF_JEQ then RunBpf(prog, data, pc + 1 + if a == i.k then i.jt else i.jf, a)
      else if i.code == BPF_RET then i.k
      else 0
  }

  predicate Kept(data: seq<byte>, srcPort: nat, mode: Mode) {
    RunBpf(BuildBpfProgram(srcPort, mode), data, 0, 0) > 0
  }

  /** What the program of each mode keeps. */
  lemma KeptIff(data: seq<byte>, srcPort: nat, mode: Mode)
    ensures Kept(data, srcPort, mode) <==>
            match mode
            case Icmp => |data| > 20 && data[20] == 0
            case Udp => |data| >= 24 && U16(data, 22) == srcPort
            case Tcp => |data| >= 34 && U16(data, 22) == srcPort && SynAck(data[33])
  {
    var p := BuildBpfProgram(srcPort, mode);
    match mode {
      case Icmp =>
        assert RunBpf(p, data, 2, 0) == 0x00040000;
        if |data| > 20 {
          var a := data[20];
          assert RunBpf(p, data, 1, a) == RunBpf(p, data, if a == 0 then 2 else 3, a);
        }
      case Udp =>
        if |data| >= 24 {
          var a := U16(data, 22);
          assert RunBpf(p, data, 1, a) == RunBpf(p, data, if a == srcPort then 2 else 3, a);
        }
      case Tcp =>
        if |data| >= 24 {
          var a := U16(data, 22);
          assert RunBpf(p, data, 1, a) == RunBpf(p, data, if a == srcPort then 2 else 6, a);
          if |data| >= 34 {
            var f := And(data[33], 0x12);
            assert RunBpf(p, data, 4, f) == RunBpf(p, data, if f == 0x12 then 5 else 6, f);
            assert RunBpf(p, data, 2, a) == RunBpf(p, data, 3, data[33]) == RunBpf(p, data, 4, f);
          }
        }
    }
  }

  /** A program returns nothing but its two constants. */
  lemma {:induction false} BpfReturns(data: seq<byte>, srcPort: nat, mode: Mode, pc: nat, a: nat)
    ensures RunBpf(BuildBpfProgram(srcPort, mode), data, pc, a) in {0, 0x4_0000}
    decreases 8 - pc
  {
    var prog := BuildBpfProgram(srcPort, mode);
    hide And;
    if pc < |prog| {
      var i := prog[pc];
      if i.code == BPF_LD + BPF_B + BPF_ABS && i.k < |data| {
        BpfReturns(data, srcPort, mode, pc + 1, data[i.k]);
      } else if i.code == BPF_LD + BPF_H + BPF_ABS && i.k + 2 <= |data| {
        BpfReturns(data, srcPort, mode, pc + 1, U16(data, i.k));
      } else if i.code == BPF_ALU + BPF_AND {
        BpfReturns(data, srcPort, mode, pc + 1, And(a, i.k));
      } else if i.code == BPF_JMP + BPF_JEQ {
        BpfReturns(data, srcPort, mode, pc + 1 + if a == i.k then i.jt else i.jf, a);
      }
    }
  }

  /** A packet that is kept is kept whole, whatever its length: an IP packet has at most 65,535 bytes. */
  lemma KeptWhole(data: seq<byte>, srcPort: nat, mode: Mode)
    requires Kept(data, srcPort, mode) && |data| <= 65535
    ensures RunBpf(BuildBpfProgram(srcPort, mode), data, 0, 0) >= |data|
  {
    hide RunBpf, BuildBpfProgram;
    BpfReturns(data, srcPort, mode, 0, 0);
  }

  /** On packets without IP options the filter and the parser agree, up to the two checks that
      only the parser makes: nothing the parser accepts is lost in the kernel. */
  lemma FilterAgrees(data: seq<byte>, srcPort: nat, mode: Mode, localIp: Option<nat>)
    requires |data| >= 1 && data[0] == 0x45
    ensures ParseResponse(data, srcPort, mode, localIp).Some? <==>
            Kept(data, srcPort, mode) && |data| >= (if mode.Tcp? then 40 else 28) && ForUs(data, localIp)
  {
    KeptIff(data, srcPort, mode);
  }

  /** A reply to us behind an IP header with options, which the parser accepts in every mode. The
      option bytes are not what the filters look for at offsets 20 and 22; all else is zero. */
  function ReplyBehindOptions(first: byte, srcPort: uint16, local: addr): (data: seq<byte>)
    requires first % 16 >= 6
    ensures |data| == first % 16 * 4 + 20
  {
    var decoy: byte := if srcPort / 0x100 == 0 then 1 else 0;
    var options := [1, 0, decoy, 0] + seq(first % 16 * 4 - 24, _ => 0);
    var reply := [0, 0, srcPort / 0x100, srcPort % 0x100, 0, 0, 0, 0, 0, 0, 0, 0, 0, 0x12, 0, 0, 0, 0, 0, 0];
    [first, 0, 0, 0, 0, 0, 0, 0, 0, 0, 0, 0, 0, 0, 0, 0] + local + options + reply
  }

  lemma OptionsReplyBytes(first: byte, srcPort: uint16, local: uint32)
    requires first % 16 >= 6
    ensures var data, n := ReplyBehindOptions(first, srcPort, Addr(local)), first % 16 * 4;
            && data[0] == first && U32(data, 16) == local && data[20] == 1 && U16(data, 22) != srcPort
            && data[n] == 0 && U16(data, n + 2) == srcPort && data[n + 13] == 0x12
  {
    AddrValue(local);
    hide Addr;
    assert U32(ReplyBehindOptions(first, srcPort, Addr(local)), 16) == U32(Addr(local), 0);
  }

  /** The parser accepts the packet, and the filter drops it. */
  predicate Lost(data: seq<byte>, srcPort: nat, mode: Mode, localIp: Option<nat>) {
    ParseResponse(data, srcPort, mode, localIp).Some? && !Kept(data, srcPort, mode)
  }

  lemma OptionsHideReply(first: byte, srcPort: uint16, mode: Mode, local: uint32, localIp: Option<nat>)
    requires 0x46 <= first <= 0x4F && (localIp.None? || localIp.value == local)
    ensures Lost(ReplyBehindOptions(first, srcPort, Addr(local)), srcPort, mode, localIp)
  {
    var data := ReplyBehindOptions(first, srcPort, Addr(local));
    OptionsReplyBytes(first, srcPort, local);
    KeptIff(data, srcPort, mode);
    AndSelf(0x12);
    hide ReplyBehindOptions, Kept, U16, U32, And;
  }

  /** The filters read fixed offsets. In every mode, for every source port and with or without the
      check of our own address, no reply with a given first byte is ever lost exactly when that byte
      rules out IP options; the bytes 0x46 to 0x4F are those under which replies are lost. */
  lemma FilterLosesNothingIff(first: byte, srcPort: uint16, mode: Mode, localIp: Option<uint32>)
    ensures (forall data: seq<byte> :: |data| >= 1 && data[0] == first ==> !Lost(data, srcPort, mode, localIp))
            <==> !(0x46 <= first <= 0x4F)
  {
    if 0x46 <= first <= 0x4F {
      var local := if localIp.Some? then localIp.value else 0;
      OptionsReplyBytes(first, srcPort, local);
      OptionsHideReply(first, srcPort, mode, local, localIp);
    } else {
      forall data: seq<byte> | |data| >= 1 && data[0] == first ensures !Lost(data, srcPort, mode, localIp) {
        if first == 0x45 { FilterAgrees(data, srcPort, mode, localIp); }
      }
    }
  }

  /** The same packet with IP options put behind its 20-byte header. */
  function WithIpOptions(data: seq<byte>, options: seq<byte>): (d: seq<byte>)
    requires |data| >= 20 && data[0] == 0x45 && |options| % 4 == 0 && |options| <= 40
    ensures |d| == |data| + |options|
  {
    [data[0] + |options| / 4] + data[1..20] + options + data[20..]
  }

  lemma ShiftedReads(data: seq<byte>, options: seq<byte>)
    requires |data| >= 20 && data[0] == 0x45 && |options| % 4 == 0 && |options| <= 40
    ensures var d, n := WithIpOptions(data, options), |options|;
            && d[0] / 16 == 4 && d[0] % 16 * 4 == 20 + n
            && (forall k :: 1 <= k < 20 ==> d[k] == data[k]) && (forall k :: 20 <= k < |data| ==> d[n + k] == data[k])
  {
  }

  /** The parser finds everything behind IP options of any length: they change nothing. */
  lemma IpOptionsIgnored(data: seq<byte>, options: seq<byte>, srcPort: nat, mode: Mode, localIp: Option<nat>)
    requires |data| >= 20 && data[0] == 0x45 && |options| % 4 == 0 && |options| <= 40
    ensures ParseResponse(WithIpOptions(data, options), srcPort, mode, localIp) ==
            ParseResponse(data, srcPort, mode, localIp)
  {
    var d, n := WithIpOptions(data, options), |options|;
    ShiftedReads(data, options);
    hide WithIpOptions, ParseFrom, SynAck;
    assert U32(d, 12) == U32(data, 12) && U32(d, 16) == U32(data, 16);
    if |data| >= 28 {
      assert d[n + 20] == data[20] && U16(d, n + 20) == U16(data, 20) && U16(d, n + 22) == U16(data, 22);
    }
    if |data| >= 40 {
      assert U16(d, n + 34) == U16(data, 34) && d[n + 33] == data[33];
      OptionsShifted(d, data, n);
    }
    hide ReplyOptions, U16, U32;
  }

  lemma OptionsShifted(d: seq<byte>, data: seq<byte>, n: nat)
    requires |data| >= 40 && |d| == |data| + n && forall k :: 20 <= k < |data| ==> d[n + k] == data[k]
    ensures ReplyOptions(d, 20 + n) == ReplyOptions(data, 20)
  {
    var hdrLen: nat := data[32] / 16 * 4;
    assert d[n + 32] == data[32];
    if hdrLen > 20 && |data| >= 20 + hdrLen {
      var a, b := d[20 + n + 20..20 + n + hdrLen], data[40..20 + hdrLen];
      forall k | 0 <= k < |b| ensures a[k] == b[k] { assert d[n + (40 + k)] == data[40 + k]; }
      assert a == b;
    }
  }

  /** The two flags of a SYN-ACK, bits 1 and 4. */
  lemma SynAckBits(flags: byte)
    ensures SynAck(flags) <==> flags / 2 % 2 == 1 && flags / 16 % 2 == 1
  {
    hide And;
    AndStep(flags, 18); AndStep(flags / 2, 9); AndStep(flags / 4, 4); AndStep(flags / 8, 2);
    assert Pow2(1) == 2;
    AndMask(flags / 16, 1);
  }

  // ----- Parsing undoes building -----

  function PaddedOptions(os: seq<Opt>): (b: seq<byte>)
    requires AllWellFormed(os)
    ensures |b| % 4 == 0
  {
    var e := EncodeAll(os);
    match |e| % 4
    case 0 => e
    case 1 => e + [0, 0, 0]
    case 2 => e + [0, 0]
    case _ => e + [0]
  }

  /** The 40 header bytes of a SYN-ACK with the given number of option words. */
  function ReplyHeader(ttl: byte, src: addr, dst: addr, srcPort: uint16, dstPort: uint16, words: nat, flags: byte,
                       window: uint16): (h: seq<byte>)
    requires words <= 10
    ensures |h| == 40
  {
    [0x45, 0, 0, 0, 0, 0, 0, 0, ttl, 6, 0, 0, src[0], src[1], src[2], src[3], dst[0], dst[1], dst[2], dst[3],
     srcPort / 0x100, srcPort % 0x100, dstPort / 0x100, dstPort % 0x100, 0, 0, 0, 0, 0, 0, 0, 0,
     (5 + words) * 16, flags, window / 0x100, window % 0x100, 0, 0, 0, 0]
  }

  /** A SYN-ACK as a scanned host sends it. */
  function SynAckReply(ttl: byte, src: uint32, dst: uint32, srcPort: uint16, dstPort: uint16, flags: byte,
                       window: uint16, os: seq<Opt>): seq<byte>
    requires AllWellFormed(os) && |PaddedOptions(os)| <= 40
  {
    ReplyHeader(ttl, Addr(src), Addr(dst), srcPort, dstPort, |PaddedOptions(os)| / 4, flags, window) + PaddedOptions(os)
  }

  lemma AddrValue(ip: uint32)
    ensures U32(Addr(ip), 0) == ip
  {
    AddrWords(ip);
    hide Addr;
    assert U16(Addr(ip), 0) == HighWord(Addr(ip)) && U16(Addr(ip), 2) == LowWord(Addr(ip));
  }

  lemma HeaderFields(ttl: byte, src: addr, dst: addr, srcPort: uint16, dstPort: uint16, words: nat, flags: byte,
                     window: uint16)
    requires words <= 10
    ensures var h := ReplyHeader(ttl, src, dst, srcPort, dstPort, words, flags, window);
            && h[0] == 0x45 && h[8] == ttl && h[33] == flags && h[32] / 16 * 4 == 20 + 4 * words
            && U16(h, 20) == srcPort && U16(h, 22) == dstPort && U16(h, 34) == window
  {
  }

  lemma HeaderAddresses(ttl: byte, src: addr, dst: addr, srcPort: uint16, dstPort: uint16, words: nat, flags: byte,
                        window: uint16)
    requires words <= 10
    ensures var h := ReplyHeader(ttl, src, dst, srcPort, dstPort, words, flags, window);
            U32(h, 12) == U32(src, 0) && U32(h, 16) == U32(dst, 0)
  {
  }

  lemma FieldsOfPrefix(h: seq<byte>, opts: seq<byte>)
    requires |h| == 40
    ensures var d := h + opts;
            && d[0] == h[0] && d[8] == h[8] && d[32] == h[32] && d[33] == h[33]
            && U32(d, 12) == U32(h, 12) && U32(d, 16) == U32(h, 16)
            && U16(d, 20) == U16(h, 20) && U16(d, 22) == U16(h, 22) && U16(d, 34) == U16(h, 34)
            && d[40..40 + |opts|] == opts
  {
  }

  lemma TcpParsed(data: seq<byte>, srcPort: nat, localIp: Option<nat>)
    requires |data| >= 40 && data[0] == 0x45
    ensures ParseResponse(data, srcPort, Tcp, localIp) ==
            if ForUs(data, localIp) && U16(data, 22) == srcPort && SynAck(data[33]) then
              Some(Response(U32(data, 12), U16(data, 20), Tcp, data[8], U16(data, 34), ReplyOptions(data, 20)))
            else None
  {
  }

  /** The reply was sent to us. */
  predicate Ours(dst: uint32, localIp: Option<nat>) { localIp.None? || dst == localIp.value }

  /** Every field of the reply comes back, with the last value of each option kind - and nothing does
      when it went to another port or another address, or is no SYN-ACK. What follows is ignored. */
  lemma SynAckRoundTrip(ttl: byte, src: uint32, dst: uint32, srcPort: uint16, dstPort: uint16, flags: byte,
                        window: uint16, os: seq<Opt>, rest: seq<byte>, port: nat, localIp: Option<nat>)
    requires AllWellFormed(os) && |PaddedOptions(os)| <= 40
    ensures ParseResponse(SynAckReply(ttl, src, dst, srcPort, dstPort, flags, window, os) + rest, port, Tcp, localIp) ==
            if port == dstPort && SynAck(flags) && Ours(dst, localIp) then
              Some(Response(src, srcPort, Tcp, ttl, window, Last(os, NO_OPTIONS)))
            else None
  {
    hide ReplyHeader, Addr, U16, U32, PaddedOptions, ParseFrom, SynAck, Last, EncodeAll, ParseResponse;
    var opts := PaddedOptions(os);
    PaddedParse(os);
    var h := ReplyHeader(ttl, Addr(src), Addr(dst), srcPort, dstPort, |opts| / 4, flags, window);
    AddrValue(src); AddrValue(dst);
    HeaderFields(ttl, Addr(src), Addr(dst), srcPort, dstPort, |opts| / 4, flags, window);
    HeaderAddresses(ttl, Addr(src), Addr(dst), srcPort, dstPort, |opts| / 4, flags, window);
    FieldsOfPrefix(h, opts + rest);
    assert h + opts + rest == h + (opts + rest);
    var d := h + (opts + rest);
    assert d[40..40 + |opts|] == d[40..40 + |opts + rest|][..|opts|] == opts;
    TcpParsed(d, port, localIp);
  }

  /** Options that are cut off, because the header claims to be longer than the packet, are not read. */
  lemma CutOffOptions(ttl: byte, src: uint32, dst: uint32, srcPort: uint16, dstPort: uint16, flags: byte,
                      window: uint16, words: nat, part: seq<byte>)
    requires words <= 10 && |part| < 4 * words && SynAck(flags)
    ensures ParseResponse(ReplyHeader(ttl, Addr(src), Addr(dst), srcPort, dstPort, words, flags, window) + part,
                          dstPort, Tcp, Some(dst)) ==
            Some(Response(src, srcPort, Tcp, ttl, window, NO_OPTIONS))
  {
    hide ReplyHeader, Addr, U16, U32, SynAck, ParseResponse;
    var h := ReplyHeader(ttl, Addr(src), Addr(dst), srcPort, dstPort, words, flags, window);
    AddrValue(src); AddrValue(dst);
    HeaderFields(ttl, Addr(src), Addr(dst), srcPort, dstPort, words, flags, window);
    HeaderAddresses(ttl, Addr(src), Addr(dst), srcPort, dstPort, words, flags, window);
    FieldsOfPrefix(h, part);
    TcpParsed(h + part, dstPort, Some(dst));
  }

  lemma PaddedParse(os: seq<Opt>)
    requires AllWellFormed(os)
    ensures ParseFrom(PaddedOptions(os), 0, NO_OPTIONS) == Last(os, NO_OPTIONS)
    ensures PaddedOptions(os) == [] ==> Last(os, NO_OPTIONS) == NO_OPTIONS
  {
    var e, opts := EncodeAll(os), PaddedOptions(os);
    assert opts == e + opts[|e|..];
    OptionsRoundTrip(os, opts[|e|..]);
  }

  /** A UDP packet from a scanned host, on the way back. */
  lemma UdpRoundTrip(src: uint32, dst: uint32, srcPort: uint16, dstPort: uint16, payload: seq<byte>, port: nat,
                     localIp: Option<nat>)
    requires 28 + |payload| < 0x1_0000
    ensures ParseResponse(UdpPacket(Addr(src), srcPort, dst, dstPort, payload), port, Udp, localIp) ==
            if port == dstPort && Ours(dst, localIp) then Some(Response(src, srcPort, Udp, 64, 0, NO_OPTIONS)) else None
  {
    UdpFields(src, dst, srcPort, dstPort, payload);
    hide UdpPacket, Addr, U16, U32;
  }

  /** An ICMP message of a given type, from a scanned host; body is what follows the type. */
  function IcmpMessage(ttl: byte, src: addr, dst: addr, kind: byte, body: seq<byte>): seq<byte> {
    [0x45, 0, 0, 0, 0, 0, 0, 0, ttl, 1, 0, 0] + src + dst + [kind] + body
  }

  /** An echo reply (type 0) gives its sender and TTL; an echo request (type 8), any other message, and
      a reply to another address give nothing. */
  lemma IcmpRoundTrip(ttl: byte, src: uint32, dst: uint32, kind: byte, body: seq<byte>, port: nat, localIp: Option<nat>)
    requires |body| >= 7
    ensures ParseResponse(IcmpMessage(ttl, Addr(src), Addr(dst), kind, body), port, Icmp, localIp) ==
            if kind == 0 && Ours(dst, localIp) then Some(Response(src, 0, Icmp, ttl, 0, NO_OPTIONS)) else None
  {
    AddrValue(src); AddrValue(dst);
    IcmpFields(ttl, Addr(src), Addr(dst), kind, body);
    hide IcmpMessage, Addr, U32;
  }

  lemma IcmpFields(ttl: byte, src: addr, dst: addr, kind: byte, body: seq<byte>)
    ensures var d := IcmpMessage(ttl, src, dst, kind, body);
            && |d| == 21 + |body| && d[0] == 0x45 && d[8] == ttl && d[20] == kind
            && U32(d, 12) == U32(src, 0) && U32(d, 16) == U32(dst, 0)
  {
  }

  lemma UdpFields(src: uint32, dst: uint32, srcPort: uint16, dstPort: uint16, payload: seq<byte>)
    requires 28 + |payload| < 0x1_0000
    ensures var p := UdpPacket(Addr(src), srcPort, dst, dstPort, payload);
            && p[0] == 0x45 && p[8] == 64 && U32(p, 12) == src && U32(p, 16) == dst
            && U16(p, 20) == srcPort && U16(p, 22) == dstPort
  {
    var p := UdpPacket(Addr(src), srcPort, dst, dstPort, payload);
    AddrValue(src); AddrValue(dst);
    hide InternetChecksum, Addr;
    assert U32(p, 12) == U32(Addr(src), 0) && U32(p, 16) == U32(Addr(dst), 0);
  }
}
