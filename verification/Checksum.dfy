/** The Internet checksum: two folds against the loop of RFC 1071, section 4.1. */
module Checksum {
  import opened Arithmetic

  type byte = b: nat | b < 0x100

  function Word(m: seq<byte>, i: nat): nat
    requires i + 1 < |m|
  {
    (m[i] as nat) * 0x100 + m[i + 1] as nat
  }

  /** The sum of the big-endian 16-bit words from offset i on. */
  function WordSum(m: seq<byte>, i: nat := 0): nat
    decreases |m| - i
  {
    if i + 1 < |m| then Word(m, i) + WordSum(m, i + 2) else 0
  }

  function Padded(m: seq<byte>): seq<byte> { if |m| % 2 == 1 then m + [0] else m }

  /** `packet.checksum`. */
  function InternetChecksum(m: seq<byte>): (c: nat)
    ensures c < 0x1_0000
  {
    FoldInto16(WordSum(Padded(m)))
  }

  function FoldInto16(sum: nat): (c: nat)
    ensures c < 0x1_0000
  {
    var a := sum / 0x1_0000 + sum % 0x1_0000;
    0xFFFF - (a + a / 0x1_0000) % 0x1_0000
  }

  /** `packet._fold`. */
  function Fold(sum: nat): (c: nat)
    ensures c < 0x1_0000
  {
    var a := sum / 0x1_0000 + sum % 0x1_0000;
    0xFFFF - (a / 0x1_0000 + a % 0x1_0000) % 0x1_0000
  }

  // ----- The reference: fold while there is a carry -----

  function FoldAll(s: nat): nat {
    if s < 0x1_0000 then s else FoldAll(s / 0x1_0000 + s % 0x1_0000)
  }

  function Rfc1071(m: seq<byte>): int { 0xFFFF - FoldAll(WordSum(Padded(m))) }

  lemma TwoFoldsReach(s: nat)
    requires s < 0x1_0000_0000
    ensures FoldAll(s) < 0x1_0000 && FoldInto16(s) == Fold(s) == 0xFFFF - FoldAll(s)
  {
    var a := s / 0x1_0000 + s % 0x1_0000;
    OneCarry(a);
    assert FoldAll(s) == FoldAll(a) by {
      if s < 0x1_0000 { SmallMod(s, 0x1_0000); }
    }
  }

  lemma OneCarry(a: nat)
    requires a <= 0x1_FFFE
    ensures FoldAll(a) == a / 0x1_0000 + a % 0x1_0000 == (a + a / 0x1_0000) % 0x1_0000
    ensures FoldAll(a) < 0x1_0000 && FoldAll(a) % 0x1_0000 == FoldAll(a)
  {
    if a < 0x1_0000 {
      SmallMod(a, 0x1_0000);
    } else {
      DivModUnique(a, 0x1_0000, 1, a - 0x1_0000);
      DivModUnique(a + 1, 0x1_0000, 1, a - 0xFFFF);
      SmallMod(a - 0xFFFF, 0x1_0000);
      assert FoldAll(a - 0xFFFF) == a - 0xFFFF;
    }
  }

  lemma {:induction false} WordSumBound(m: seq<byte>, i: nat, words: nat)
    requires |m| <= i + 2 * words
    ensures WordSum(m, i) <= 0xFFFF * words
    decreases words
  {
    if i + 1 < |m| { WordSumBound(m, i + 2, words - 1); }
  }

  /** For up to 65,537 words two folds are as good as folding until no carry is left. */
  lemma TwoFoldsSuffice(m: seq<byte>)
    requires |m| <= 2 * 65537
    ensures InternetChecksum(m) == Rfc1071(m) == Fold(WordSum(Padded(m)))
  {
    WordSumBound(Padded(m), 0, 65537);
    TwoFoldsReach(WordSum(Padded(m)));
  }

  /** Folding keeps the value modulo 65,535, and only zero folds to zero. */
  lemma {:induction false} FoldAllResidue(s: nat)
    ensures FoldAll(s) % 0xFFFF == s % 0xFFFF
    ensures FoldAll(s) < 0x1_0000
    ensures FoldAll(s) == 0 <==> s == 0
    decreases s
  {
    if s >= 0x1_0000 {
      var t := s / 0x1_0000 + s % 0x1_0000;
      FoldAllResidue(t);
      assert s - t == 0xFFFF * (s / 0x1_0000);
      DivModUnique(s - t, 0xFFFF, s / 0x1_0000, 0);
      CongruentDifference(s, t, 0xFFFF);
    }
  }

  /** A sum completed by its own complement folds to all ones. */
  lemma ComplementFolds(s: nat)
    ensures FoldAll(s) <= 0xFFFF
    ensures FoldAll(s + (0xFFFF - FoldAll(s))) == 0xFFFF
  {
    FoldAllResidue(s);
    var u := s + (0xFFFF - FoldAll(s));
    CongruentDifference(s, FoldAll(s), 0xFFFF);
    CongruentDifference(u, 0xFFFF, 0xFFFF);
    FoldAllResidue(u);
    DivModUnique(0xFFFF, 0xFFFF, 1, 0);
    if FoldAll(u) < 0xFFFF { SmallMod(FoldAll(u), 0xFFFF); }
  }

  lemma {:induction false} WordSumAppend(m: seq<byte>, c: nat, i: nat)
    requires |m| % 2 == 0 && i % 2 == 0 && i <= |m| && c < 0x1_0000
    ensures WordSum(m + Be16(c), i) == WordSum(m, i) + c
    decreases |m| - i
  {
    var n := m + Be16(c);
    if i < |m| {
      WordSumAppend(m, c, i + 2);
      assert Word(n, i) == Word(m, i);
    } else {
      assert Word(n, i) == c && WordSum(n, i + 2) == 0;
    }
  }

  function Be16(x: nat): (s: seq<byte>)
    requires x < 0x1_0000
    ensures |s| == 2
  {
    [x / 0x100, x % 0x100]
  }

  /** Appending its checksum to a message makes the whole checksum to zero. */
  lemma ChecksumVerifies(m: seq<byte>)
    requires |m| <= 2 * 65536
    ensures InternetChecksum(Padded(m) + Be16(InternetChecksum(m))) == 0
  {
    var p := Padded(m);
    var c := InternetChecksum(m);
    TwoFoldsSuffice(m);
    assert Padded(p + Be16(c)) == p + Be16(c) && Padded(p) == p;
    hide Padded;
    TwoFoldsSuffice(p + Be16(c));
    WordSumAppend(p, c, 0);
    ComplementFolds(WordSum(p));
  }

  /** Padding keeps the message and adds at most one zero byte, to an even length. */
  lemma PaddedIs(m: seq<byte>)
    ensures var p := Padded(m);
            |p| % 2 == 0 && |m| <= |p| <= |m| + 1 && p[..|m|] == m && forall k :: |m| <= k < |p| ==> p[k] == 0
  {
  }

  /** The worked example of section 3 of RFC 1071: the words 0001, f203, f4f5 and f6f7 sum to ddf2. */
  lemma Rfc1071Example()
    ensures InternetChecksum([0x00, 0x01, 0xF2, 0x03, 0xF4, 0xF5, 0xF6, 0xF7]) == 0xFFFF - 0xDDF2
  {
    var m: seq<byte> := [0x00, 0x01, 0xF2, 0x03, 0xF4, 0xF5, 0xF6, 0xF7];
    assert WordSum(m, 4) == Word(m, 4) + (Word(m, 6) + WordSum(m, 8));
    assert WordSum(m, 0) == Word(m, 0) + (Word(m, 2) + WordSum(m, 4)) == 0x2DDF0;
  }
}
