/** The block permutation of `FeistelShuffler`, over Python's unbounded integers. */
module Feistel {
  import opened Arithmetic
  import opened Bits

  datatype Shuffler = Shuffler(maxVal: nat, seed: int, keys: seq<uint32>, halfBits: nat, mask: nat) {

    predicate Valid() {
      |keys| == 4 && mask == Pow2(halfBits) - 1 && 1 <= maxVal <= Block()
    }

    /** Number of values of a block of 2 * halfBits bits. */
    function Block(): nat { Pow2(2 * halfBits) }

    function Reversed(): Shuffler { this.(keys := Reverse(keys)) }
  }

  function Reverse(ks: seq<uint32>): (r: seq<uint32>)
    ensures |r| == |ks|
  {
    if ks == [] then [] else Reverse(ks[1..]) + [ks[0]]
  }

  function HalfBits(maxVal: nat): nat {
    var bits := if maxVal > 1 then Max(2, BitLength(maxVal - 1)) else 2;
    (if bits % 2 != 0 then bits + 1 else bits) / 2
  }

  function MakeShuffler(key: int, maxVal: nat): Shuffler {
    var keys := seq(4, i requires 0 <= i < 4 => key / Pow2(8 * i) % 0x1_0000_0000);
    var h := HalfBits(maxVal);
    Shuffler(maxVal, key, keys, h, Pow2(h) - 1)
  }

  function RoundFunction(mask: nat, r: nat, k: nat): nat {
    var v := And(Xor(r, k), mask);
    And(Mix(v * 0x41C64E6D + 0x3039), mask)
  }

  function Mix(w: nat): nat { Xor(w, Shr(w, 8)) }

  /** The Feistel network over any list of round keys. */
  function Network(mask: nat, ks: seq<uint32>, l: nat, r: nat): (nat, nat)
    decreases |ks|
  {
    if ks == [] then (l, r)
    else Network(mask, ks[1..], r, Xor(l, RoundFunction(mask, r, ks[0])))
  }

  function Encipher(ks: seq<uint32>, h: nat, mask: nat, index: nat): nat {
    var (l, r) := Network(mask, ks, And(Shr(index, h), mask), And(index, mask));
    Or(Shl(r, h), l)
  }

  function Permute(s: Shuffler, index: nat): nat { Encipher(s.keys, s.halfBits, s.mask, index) }

  method Encrypt(s: Shuffler, index: nat) returns (c: nat)
    requires |s.keys| == 4
    ensures c == Permute(s, index)
  {
    var l, r := And(Shr(index, s.halfBits), s.mask), And(index, s.mask);
    ghost var l0, r0 := l, r;
    for i := 0 to 4
      invariant Network(s.mask, s.keys[i..], l, r) == Network(s.mask, s.keys, l0, r0)
    {
      l, r := r, Xor(l, RoundFunction(s.mask, r, s.keys[i]));
      assert s.keys[i..][1..] == s.keys[i + 1..];
    }
    return Or(Shl(r, s.halfBits), l);
  }

  // ----- The constructor's block sizing -----

  /** Whatever the key, the block holds [0, maxVal) and is at most four times as large. */
  lemma BlockSizing(key: int, maxVal: nat)
    requires maxVal >= 1
    ensures MakeShuffler(key, maxVal).Valid()
    ensures MakeShuffler(key, maxVal).Block() <= 4 * maxVal
    ensures MakeShuffler(key, maxVal).halfBits >= 1
    ensures MakeShuffler(key, maxVal).halfBits > 1 ==> Pow2(2 * MakeShuffler(key, maxVal).halfBits - 2) < maxVal
    ensures maxVal <= 0x1_0000_0000 ==> MakeShuffler(key, maxVal).halfBits <= 16
  {
    HalfBitsBounds(maxVal);
  }

  lemma HalfBitsBounds(maxVal: nat)
    requires maxVal >= 1
    ensures HalfBits(maxVal) >= 1 && maxVal <= Pow2(2 * HalfBits(maxVal)) <= 4 * maxVal
    ensures HalfBits(maxVal) > 1 ==> Pow2(2 * HalfBits(maxVal) - 2) < maxVal
    ensures maxVal <= 0x1_0000_0000 ==> HalfBits(maxVal) <= 16
  {
    if maxVal <= 2 {
      assert BitLength(0) == 0 && BitLength(1) == 1;
      assert Pow2(0) == 1 && Pow2(1) == 2 && Pow2(2) == 4;
    } else {
      EvenBits(maxVal - 1, HalfBits(maxVal));
      ShortBlock(maxVal - 1);
    }
  }

  lemma EvenBits(n: nat, h: nat)
    requires n >= 2 && BitLength(n) <= 2 * h <= BitLength(n) + 1
    ensures BitLength(n) >= 2 && n < Pow2(2 * h) <= 4 * n && Pow2(2 * h - 2) <= n
  {
    var b := BitLength(n);
    BitLengthBounds(n);
    assert b == 1 + BitLength(n / 2);
    Pow2Monotone(b, 2 * h);
    Pow2Monotone(2 * h, b + 1);
    Pow2Monotone(2 * h - 2, b - 1);
    assert Pow2(b + 1) == 2 * Pow2(b) && Pow2(b) == 2 * Pow2(b - 1);
  }

  lemma ShortBlock(n: nat)
    ensures n < 0x1_0000_0000 ==> BitLength(n) <= 32
  {
    BitLengthBounds(n);
    Pow2Of32();
    if BitLength(n) > 32 { Pow2Monotone(32, BitLength(n) - 1); }
  }

  /** The four overlapping 32-bit windows tell all seeds below 2^56 apart. */
  lemma KeysDetermineSeed(a: nat, b: nat, maxVal: nat)
    requires a < Pow2(56) && b < Pow2(56)
    requires MakeShuffler(a, maxVal).keys == MakeShuffler(b, maxVal).keys
    ensures a == b
  {
    assert SeedFromKeys(MakeShuffler(a, maxVal).keys) == a by { SeedRecovered(a, maxVal); }
    assert SeedFromKeys(MakeShuffler(b, maxVal).keys) == b by { SeedRecovered(b, maxVal); }
  }

  /** Each window is the next one shifted by a byte. */
  lemma WindowsOverlap(seed: int, maxVal: nat, i: nat)
    requires i < 3
    ensures MakeShuffler(seed, maxVal).keys[i] / 0x100 == MakeShuffler(seed, maxVal).keys[i + 1] % 0x100_0000
  {
    Pow2Add(8 * i, 8);
    Pow2Of32();
    var p := Pow2(8 * i);
    assert MakeShuffler(seed, maxVal).keys[i] == seed / p % TWO32;
    assert MakeShuffler(seed, maxVal).keys[i + 1] == seed / (p * 0x100) % TWO32 by { assert 8 * (i + 1) == 8 * i + 8; }
    hide MakeShuffler, Pow2;
    DivOfProduct(seed, p, 0x100);
    ModOfMod(seed / p / 0x100, TWO32, 0x100_0000);
    DivOfMod(seed / p);
  }

  lemma DivOfMod(a: int)
    ensures a % TWO32 / 0x100 == a / 0x100 % 0x100_0000
  {
    var q, r := a / TWO32, a % TWO32;
    DivModUnique(a, 0x100, 0x100_0000 * q + r / 0x100, r % 0x100);
    DivModUnique(a / 0x100, 0x100_0000, q, r / 0x100);
  }

  function SeedFromKeys(ks: seq<uint32>): nat
    requires |ks| == 4
  {
    (ks[3] as nat) * 0x100_0000 + ks[0] as nat % 0x100_0000
  }

  lemma SeedRecovered(seed: nat, maxVal: nat)
    requires seed < Pow2(56)
    ensures SeedFromKeys(MakeShuffler(seed, maxVal).keys) == seed
  {
    Pow2Of32();
    Pow2Add(24, 32);
    var ks := MakeShuffler(seed, maxVal).keys;
    assert ks[0] == seed / Pow2(8 * 0) % TWO32 && ks[3] == seed / Pow2(8 * 3) % TWO32;
    assert Pow2(8 * 0) == 1 && Pow2(8 * 3) == 0x100_0000;
    hide MakeShuffler, Pow2;
    SeedWindows(seed);
  }

  lemma SeedWindows(seed: nat)
    requires seed < 0x100_0000 * TWO32
    ensures seed / 0x100_0000 % TWO32 * 0x100_0000 + seed / 1 % TWO32 % 0x100_0000 == seed
  {
    var hi, lo := seed / 0x100_0000, seed % 0x100_0000;
    SmallMod(hi, TWO32);
    DivModUnique(seed, 1, seed, 0);
    ModOfMod(seed, TWO32, 0x100_0000);
  }

  // ----- The network is undone by reversing the keys -----

  lemma RoundBound(h: nat, r: nat, k: nat)
    ensures RoundFunction(Pow2(h) - 1, r, k) < Pow2(h)
  {
    AndMask(Mix(And(Xor(r, k), Pow2(h) - 1) * 0x41C64E6D + 0x3039), h);
  }

  lemma {:induction false} NetworkBound(h: nat, ks: seq<uint32>, l: nat, r: nat)
    requires l < Pow2(h) && r < Pow2(h)
    ensures Network(Pow2(h) - 1, ks, l, r).0 < Pow2(h)
    ensures Network(Pow2(h) - 1, ks, l, r).1 < Pow2(h)
    decreases |ks|
  {
    if ks != [] {
      RoundBound(h, r, ks[0]);
      XorBound(l, RoundFunction(Pow2(h) - 1, r, ks[0]), h);
      NetworkBound(h, ks[1..], r, Xor(l, RoundFunction(Pow2(h) - 1, r, ks[0])));
    }
  }

  lemma {:induction false} NetworkAppend(mask: nat, ks: seq<uint32>, k: uint32, l: nat, r: nat)
    ensures Network(mask, ks + [k], l, r) ==
            var (a, b) := Network(mask, ks, l, r); (b, Xor(a, RoundFunction(mask, b, k)))
    decreases |ks|
  {
    if ks == [] {
      assert ([k])[1..] == [];
    } else {
      assert (ks + [k])[1..] == ks[1..] + [k];
      NetworkAppend(mask, ks[1..], k, r, Xor(l, RoundFunction(mask, r, ks[0])));
    }
  }

  /** For any number of rounds and any round keys: swap the halves, run the keys backwards. */
  lemma {:induction false} NetworkUndo(mask: nat, ks: seq<uint32>, l: nat, r: nat)
    ensures var (a, b) := Network(mask, ks, l, r); Network(mask, Reverse(ks), b, a) == (r, l)
    decreases |ks|
  {
    if ks != [] {
      var f := RoundFunction(mask, r, ks[0]);
      var (a, b) := Network(mask, ks, l, r);
      NetworkUndo(mask, ks[1..], r, Xor(l, f));
      NetworkAppend(mask, Reverse(ks[1..]), ks[0], b, a);
      XorCancel(l, f);
    }
  }

  lemma {:induction false} ReverseTwice(ks: seq<uint32>)
    ensures Reverse(Reverse(ks)) == ks
  {
    if ks != [] {
      ReverseTwice(ks[1..]);
      ReverseAppend(Reverse(ks[1..]), ks[0]);
    }
  }

  lemma {:induction false} ReverseAppend(ks: seq<uint32>, k: uint32)
    ensures Reverse(ks + [k]) == [k] + Reverse(ks)
  {
    if ks == [] {
    } else {
      assert (ks + [k])[1..] == ks[1..] + [k];
      ReverseAppend(ks[1..], k);
    }
  }

  lemma SplitJoin(h: nat, hi: nat, lo: nat)
    requires hi < Pow2(h) && lo < Pow2(h)
    ensures Or(Shl(hi, h), lo) == hi * Pow2(h) + lo < Pow2(h) * Pow2(h)
    ensures And(Shr(Or(Shl(hi, h), lo), h), Pow2(h) - 1) == hi
    ensures And(Or(Shl(hi, h), lo), Pow2(h) - 1) == lo
  {
    OrDisjoint(hi, lo, h);
    PairDigits(hi, lo, Pow2(h));
    MaskedHalves(h, hi * Pow2(h) + lo);
  }

  lemma MaskedHalves(h: nat, x: nat)
    requires x < Pow2(h) * Pow2(h)
    ensures And(Shr(x, h), Pow2(h) - 1) == x / Pow2(h) && x / Pow2(h) < Pow2(h)
    ensures And(x, Pow2(h) - 1) == x % Pow2(h)
  {
    DigitPair(x, Pow2(h));
    AndMask(x / Pow2(h), h); AndMask(x, h);
    SmallMod(x / Pow2(h), Pow2(h));
  }

  /** `_encrypt` permutes the block, and running it with the four keys reversed undoes it. */
  lemma PermuteInverse(s: Shuffler, x: nat)
    requires s.Valid() && x < s.Block()
    ensures Permute(s, x) < s.Block()
    ensures Permute(s.Reversed(), Permute(s, x)) == x
  {
    var h := s.halfBits;
    var l, r := x / Pow2(h), x % Pow2(h);
    Pow2Add(h, h);
    MaskedHalves(h, x);
    DigitPair(x, Pow2(h));
    OrDisjoint(l, r, h);
    var (a, b) := Network(s.mask, s.keys, l, r);
    NetworkBound(h, s.keys, l, r);
    SplitJoin(h, b, a);
    NetworkUndo(s.mask, s.keys, l, r);
  }
}
