/** TCP options: the parser undoes serialisation (RFC 9293, section 3.2; RFC 7323, sections 2.2 and 3.2). */
module TcpOptions {
  import opened Wrappers
  import Arithmetic
  import Bits
  import opened Checksum
  import opened Packet

  datatype Options = Options(mss: Option<nat>, wscale: Option<nat>, tsval: Option<nat>)

  const NO_OPTIONS := Options(None, None, None)

  function U16(b: seq<byte>, i: nat): (v: uint16)
    requires i + 2 <= |b|
  {
    b[i] as nat * 0x100 + b[i + 1] as nat
  }

  function U32(b: seq<byte>, i: nat): (v: nat)
    requires i + 4 <= |b|
  {
    U16(b, i) * 0x1_0000 + U16(b, i + 2)
  }

  /** What one well-formed option at i contributes. */
  function Absorb(opts: seq<byte>, i: nat, length: nat, acc: Options): Options
    requires i + length <= |opts| && length >= 2
  {
    if opts[i] == 2 && length == 4 then acc.(mss := Some(U16(opts, i + 2)))
    else if opts[i] == 3 && length == 3 then acc.(wscale := Some(opts[i + 2]))
    else if opts[i] == 8 && length == 10 then acc.(tsval := Some(U32(opts, i + 2)))
    else acc
  }

  /** The options read from position i on. */
  function ParseFrom(opts: seq<byte>, i: nat, acc: Options): Options
    decreases |opts| - i
  {
    if i >= |opts| || opts[i] == 0 then acc
    else if opts[i] == 1 then ParseFrom(opts, i + 1, acc)
    else if i + 1 >= |opts| || opts[i + 1] < 2 || i + opts[i + 1] > |opts| then acc
    else ParseFrom(opts, i + opts[i + 1], Absorb(opts, i, opts[i + 1], acc))
  }

  /** `_parse_tcp_options`; it stays in bounds and ends on arbitrary bytes. */
  method ParseTcpOptions(opts: seq<byte>) returns (r: Options)
    ensures r == ParseFrom(opts, 0, NO_OPTIONS)
  {
    var mss, wscale, tsval := None, None, None;
    var i, n: nat := 0, |opts|;
    while i < n
      invariant ParseFrom(opts, i, Options(mss, wscale, tsval)) == ParseFrom(opts, 0, NO_OPTIONS)
      decreases n - i
    {
      var kind := opts[i];
      if kind == 0 { break; }
      if kind == 1 {
        i := i + 1;
        continue;
      }
      if i + 1 >= n { break; }
      var length: nat := opts[i + 1];
      if length < 2 || i + length > n { break; }
      if kind == 2 && length == 4 {
        mss := Some(U16(opts, i + 2));
      } else if kind == 3 && length == 3 {
        wscale := Some(opts[i + 2]);
      } else if kind == 8 && length == 10 {
        tsval := Some(U32(opts, i + 2));
      }
      i := i + length;
    }
    return Options(mss, wscale, tsval);
  }

  // ----- Serialisation -----

  datatype Opt =
    | Nop
    | Mss(mss: uint16)
    | WindowScale(shift: byte)
    | Timestamp(val: Bits.uint32, echo: addr)
    | Other(kind: byte, body: seq<byte>)
  {
    /** An option the parser does not know, or knows but with a different length. */
    predicate WellFormed() {
      Other? ==> kind >= 2 && |body| <= 253 && !(kind == 2 && |body| == 2) && !(kind == 3 && |body| == 1)
                 && !(kind == 8 && |body| == 8)
    }

    function Encode(): seq<byte>
      requires WellFormed()
    {
      match this
      case Nop => [1]
      case Mss(v) => [2, 4] + Be16(v)
      case WindowScale(s) => [3, 3, s]
      case Timestamp(v, echo) => [8, 10] + Addr(v) + echo
      case Other(k, b) => [k, 2 + |b|] + b
    }
  }

  predicate AllWellFormed(os: seq<Opt>) { forall o :: o in os ==> o.WellFormed() }

  function EncodeAll(os: seq<Opt>): seq<byte>
    requires AllWellFormed(os)
  {
    if os == [] then [] else os[0].Encode() + EncodeAll(os[1..])
  }

  /** The last value of each kind in a list of options, or what was there before. */
  function Last(os: seq<Opt>, before: Options): Options
  {
    if os == [] then before
    else
      var n := |os| - 1;
      var r := Last(os[..n], before);
      match os[n]
      case Mss(v) => r.(mss := Some(v))
      case WindowScale(s) => r.(wscale := Some(s))
      case Timestamp(v, _) => r.(tsval := Some(v))
      case _ => r
  }

  lemma {:induction false} LastFromFirst(o: Opt, os: seq<Opt>, before: Options)
    ensures Last([o] + os, before) == Last(os, Last([o], before))
  {
    if os == [] {
      assert [o] + os == [o];
    } else {
      var n := |os| - 1;
      assert ([o] + os)[..n + 1] == [o] + os[..n];
      LastFromFirst(o, os[..n], before);
    }
  }

  lemma LastOfOne(o: Opt, acc: Options)
    ensures Last([o], acc) ==
            match o
            case Mss(v) => acc.(mss := Some(v))
            case WindowScale(s) => acc.(wscale := Some(s))
            case Timestamp(v, _) => acc.(tsval := Some(v))
            case _ => acc
  {
    assert [o][..0] == [];
    assert Last([o][..0], acc) == acc;
  }

  lemma AbsorbOne(opts: seq<byte>, i: nat, o: Opt, acc: Options)
    requires o.WellFormed() && !o.Nop? && i + |o.Encode()| <= |opts|
    requires forall k :: 0 <= k < |o.Encode()| ==> opts[i + k] == o.Encode()[k]
    ensures opts[i] >= 2 && opts[i + 1] == |o.Encode()| && Absorb(opts, i, |o.Encode()|, acc) == Last([o], acc)
  {
    var e := o.Encode();
    LastOfOne(o, acc);
    hide Last;
    assert opts[i + 0] == e[0] && opts[i + 1] == e[1];
    if o.Mss? || o.WindowScale? || o.Timestamp? { assert opts[i + 2] == e[2]; }
    if o.Mss? || o.Timestamp? { assert opts[i + 3] == e[3]; }
    if o.Timestamp? {
      assert opts[i + 4] == e[4] && opts[i + 5] == e[5];
      AddrWords(o.val);
      hide Addr;
      assert U32(opts, i + 2) == HighWord(Addr(o.val)) * 0x1_0000 + LowWord(Addr(o.val));
    }
  }

  /** One option inside a longer byte string. */
  lemma ParseOne(opts: seq<byte>, i: nat, o: Opt, acc: Options)
    requires o.WellFormed() && i + |o.Encode()| <= |opts|
    requires opts[i..i + |o.Encode()|] == o.Encode()
    ensures ParseFrom(opts, i, acc) == ParseFrom(opts, i + |o.Encode()|, Last([o], acc))
  {
    var e := o.Encode();
    assert forall k :: 0 <= k < |e| ==> opts[i + k] == opts[i..i + |e|][k] == e[k];
    if o.Nop? {
      assert opts[i + 0] == 1;
      LastOfOne(o, acc);
    } else {
      AbsorbOne(opts, i, o, acc);
      hide Opt.Encode, Last, Absorb;
    }
  }

  lemma LastOfNone(acc: Options)
    ensures Last([], acc) == acc
  {
  }

  lemma SliceOfTwo(b: seq<byte>, i: nat, e: seq<byte>, rest: seq<byte>)
    requires i + |e + rest| <= |b| && b[i..i + |e + rest|] == e + rest
    ensures b[i..i + |e|] == e && b[i + |e|..i + |e| + |rest|] == rest
  {
    var all := b[i..i + |e + rest|];
    assert b[i..i + |e|] == all[..|e|] && b[i + |e|..i + |e| + |rest|] == all[|e|..];
  }

  lemma {:induction false} ParseAll(opts: seq<byte>, i: nat, os: seq<Opt>, acc: Options)
    requires AllWellFormed(os) && i + |EncodeAll(os)| <= |opts|
    requires opts[i..i + |EncodeAll(os)|] == EncodeAll(os)
    ensures ParseFrom(opts, i, acc) == ParseFrom(opts, i + |EncodeAll(os)|, Last(os, acc))
    decreases |os|
  {
    hide ParseFrom, Opt.Encode, Last;
    if os == [] {
      LastOfNone(acc);
    } else {
      var e, rest := os[0].Encode(), EncodeAll(os[1..]);
      assert EncodeAll(os) == e + rest;
      SliceOfTwo(opts, i, e, rest);
      ParseOne(opts, i, os[0], acc);
      ParseAll(opts, i + |e|, os[1..], Last([os[0]], acc));
      assert os == [os[0]] + os[1..];
      LastFromFirst(os[0], os[1..], acc);
    }
  }

  /** Where options end: at the end of the bytes, at an end-of-list byte whatever follows it, or at an
      option that is cut off, shorter than its own header, or longer than what is left. */
  predicate Stops(tail: seq<byte>) {
    tail == [] || tail[0] == 0 || (tail[0] >= 2 && (|tail| == 1 || tail[1] < 2 || tail[1] > |tail|))
  }

  /** For any list of options, followed by anything that ends them, the parser returns the last value
      of each kind. */
  lemma OptionsRoundTrip(os: seq<Opt>, tail: seq<byte>)
    requires AllWellFormed(os) && Stops(tail)
    ensures ParseFrom(EncodeAll(os) + tail, 0, NO_OPTIONS) == Last(os, NO_OPTIONS)
  {
    var opts := EncodeAll(os) + tail;
    assert opts[0..|EncodeAll(os)|] == EncodeAll(os);
    hide EncodeAll, Last;
    ParseAll(opts, 0, os, NO_OPTIONS);
    StopsParsing(opts, |EncodeAll(os)|, Last(os, NO_OPTIONS));
  }

  lemma StopsParsing(opts: seq<byte>, i: nat, acc: Options)
    requires i <= |opts| && Stops(opts[i..])
    ensures ParseFrom(opts, i, acc) == acc
  {
    if i < |opts| {
      var tail := opts[i..];
      assert tail[0] == opts[i] && (i + 1 < |opts| ==> tail[1] == opts[i + 1]);
    }
  }

  /** The option that a well-formed stretch of bytes encodes. */
  function DecodeOne(e: seq<byte>): Opt
    requires |e| >= 2 && e[0] >= 2 && e[1] == |e|
  {
    if e[0] == 2 && |e| == 4 then Mss(U16(e, 2))
    else if e[0] == 3 && |e| == 3 then WindowScale(e[2])
    else if e[0] == 8 && |e| == 10 then Timestamp(U32(e, 2), e[6..10])
    else Other(e[0], e[2..])
  }

  lemma DecodeEncodes(e: seq<byte>)
    requires |e| >= 2 && e[0] >= 2 && e[1] == |e|
    ensures DecodeOne(e).WellFormed() && DecodeOne(e).Encode() == e
  {
    if e[0] == 8 && |e| == 10 {
      AddrOfBytes(e[2..6]);
      hide Addr;
      assert U32(e, 2) == U32(e[2..6], 0);
      assert e == [8, 10] + e[2..6] + e[6..10];
    }
  }

  lemma AddrOfBytes(b: addr)
    ensures Addr(U32(b, 0)) == b
  {
    var b0: nat, b1: nat, b2: nat, b3: nat := b[0], b[1], b[2], b[3];
    var h, l := b0 * 0x100 + b1, b2 * 0x100 + b3;
    var x := h * 0x1_0000 + l;
    Arithmetic.DivModUnique(x, 0x1_0000, h, l);
    Arithmetic.DivModUnique(h, 0x100, b0, b1);
    Arithmetic.DivModUnique(x, 0x100_0000, b0, b1 * 0x1_0000 + l);
    Arithmetic.DivModUnique(x, 0x100, h * 0x100 + b2, b3);
    Arithmetic.DivModUnique(h * 0x100 + b2, 0x100, h, b2);
    assert U32(b, 0) == x;
    hide U16, U32;
    assert b == [b[0], b[1], b[2], b[3]];
  }

  /** Every string of bytes is a list of well-formed options followed by something that ends them, so
      the parser is characterised on arbitrary bytes. */
  lemma EveryStringParses(b: seq<byte>) returns (os: seq<Opt>, tail: seq<byte>)
    ensures AllWellFormed(os) && Stops(tail) && b == EncodeAll(os) + tail
    ensures ParseFrom(b, 0, NO_OPTIONS) == Last(os, NO_OPTIONS)
  {
    hide *;
    os, tail := SplitOptions(b);
    OptionsRoundTrip(os, tail);
  }

  lemma {:induction false} SplitOptions(b: seq<byte>) returns (os: seq<Opt>, tail: seq<byte>)
    ensures AllWellFormed(os) && Stops(tail) && b == EncodeAll(os) + tail
    decreases |b|
  {
    hide *;
    if Stops(b) {
      os, tail := [], b;
      NoOptions(b);
    } else {
      var o, n := FirstOption(b);
      var rest;
      rest, tail := SplitOptions(b[n..]);
      os := [o] + rest;
      EncodeCons(o, rest);
      Joined(b, n, o.Encode(), EncodeAll(rest), tail);
    }
  }

  lemma NoOptions(b: seq<byte>)
    ensures AllWellFormed([]) && EncodeAll([]) + b == b
  {
  }

  lemma Joined(b: seq<byte>, n: nat, e: seq<byte>, rest: seq<byte>, tail: seq<byte>)
    requires n <= |b| && b[..n] == e && b[n..] == rest + tail
    ensures b == e + rest + tail
  {
    assert b == b[..n] + b[n..];
  }

  lemma FirstOption(b: seq<byte>) returns (o: Opt, n: nat)
    requires !Stops(b)
    ensures 1 <= n <= |b| && o.WellFormed() && o.Encode() == b[..n]
  {
    if b[0] == 1 {
      o, n := Nop, 1;
      assert b[..1] == [1];
    } else {
      n := b[1];
      o := DecodeOne(b[..n]);
      DecodeEncodes(b[..n]);
    }
  }

  lemma EncodeCons(o: Opt, rest: seq<Opt>)
    requires o.WellFormed() && AllWellFormed(rest)
    ensures AllWellFormed([o] + rest) && EncodeAll([o] + rest) == o.Encode() + EncodeAll(rest)
  {
    assert ([o] + rest)[1..] == rest;
  }

  /** A worked value: the options of a common SYN-ACK - segment size 1460, selective acknowledgement,
      timestamps, padding, window scale 7. */
  lemma KnownOptions(t: addr, echo: addr)
    ensures ParseFrom([2, 4, 0x05, 0xB4, 4, 2, 8, 10] + t + echo + [1, 3, 3, 7], 0, NO_OPTIONS) ==
            Options(Some(1460), Some(7), Some(U32(t, 0)))
  {
    var b := [2, 4, 0x05, 0xB4, 4, 2, 8, 10] + t + echo + [1, 3, 3, 7];
    assert b[0] == 2 && b[1] == 4 && b[4] == 4 && b[5] == 2 && b[6] == 8 && b[7] == 10;
    assert b[16] == 1 && b[17] == 3 && b[18] == 3 && b[19] == 7 && |b| == 20;
    assert U16(b, 2) == 1460 && U32(b, 8) == U32(t, 0);
    hide U16, U32;
    var one := NO_OPTIONS.(mss := Some(1460));
    var two := one.(tsval := Some(U32(t, 0)));
    assert ParseFrom(b, 17, two) == ParseFrom(b, 20, two.(wscale := Some(7)));
    assert ParseFrom(b, 6, one) == ParseFrom(b, 16, two) == ParseFrom(b, 17, two);
    assert ParseFrom(b, 0, NO_OPTIONS) == ParseFrom(b, 4, one) == ParseFrom(b, 6, one);
  }
}
