/** The C worker's copy of the permutation, in wrapping 32-bit unsigned arithmetic. */
module WorkerFeistel {
  import opened Arithmetic
  import opened Bits
  import opened Feistel
  import opened CycleWalk

  function FRound(r: uint32, k: uint32, mask: uint32): nat {
    var v := And(Xor(r, k), mask);
    And(Mix((v * 0x41C64E6D + 0x3039) % TWO32), mask)
  }

  /** The wrap-around at 2^32 never reaches the bits kept by a mask of at most 24 bits. */
  lemma FRoundAgrees(h: nat, r: uint32, k: uint32)
    requires h <= 24
    ensures FRound(r, k, MaskOf(h)) == RoundFunction(MaskOf(h), r, k) < Pow2(h)
  {
    hide And, Xor, Mix, Pow2;
    WrapInvisible(And(Xor(r, k), MaskOf(h)) * 0x41C64E6D + 0x3039, h);
  }

  lemma WrapInvisible(w: nat, h: nat)
    requires h <= 24
    ensures And(Mix(w % TWO32), Pow2(h) - 1) == And(Mix(w), Pow2(h) - 1) < Pow2(h)
  {
    var u := w % TWO32;
    AndMask(Mix(w), h);
    AndMask(Mix(u), h);
    XorMod(w, w / 0x100, h);
    XorMod(u, u / 0x100, h);
    Pow2Of32();
    ModMod(w, h, 32);
    HighBytes(w);
    ModMod(w / 0x100, h, 24);
  }

  lemma HighBytes(w: nat)
    ensures w % TWO32 / 0x100 == w / 0x100 % 0x100_0000
  {
    var q, u := w / TWO32, w % TWO32;
    var a, b := u / 0x100, u % 0x100;
    DivModUnique(w, 0x100, 0x100_0000 * q + a, b);
    DivModUnique(0x100_0000 * q + a, 0x100_0000, q, a);
  }

  function MaskOf(h: nat): (m: uint32)
    requires h <= 24
    ensures m == Pow2(h) - 1
  {
    Pow2Monotone(h, 24);
    Pow2Of32();
    Pow2(h) - 1
  }

  lemma {:induction false} ModMod(a: nat, small: nat, large: nat)
    requires small <= large
    ensures a % Pow2(large) % Pow2(small) == a % Pow2(small)
    decreases small
  {
    if small > 0 {
      var u := a % Pow2(large);
      ModHalf(a, Pow2(large - 1));
      ModHalf(a, Pow2(small - 1));
      ModHalf(u, Pow2(small - 1));
      var half := (a / 2) % Pow2(large - 1);
      Arithmetic.DivModUnique(u, 2, half, a % 2);
      ModMod(a / 2, small - 1, large - 1);
      hide Pow2;
    }
  }

  method FEncrypt(idx: uint32, k: seq<uint32>, halfBits: nat, mask: uint32) returns (c: uint32)
    requires |k| == 4 && halfBits <= 16 && mask == Pow2(halfBits) - 1
    ensures c == Encipher(k, halfBits, mask, idx)
  {
    hide Xor, And, Or, Shl, Shr, FRound, Pow2, RoundFunction;
    HalvesBound(halfBits, idx);
    var l: nat, r: nat := And(Shr(idx, halfBits), mask), And(idx, mask);
    ghost var l0, r0 := l, r;
    for i := 0 to 4
      invariant l < Pow2(halfBits) && r < Pow2(halfBits) <= TWO32
      invariant Network(mask, k[i..], l, r) == Network(mask, k, l0, r0)
    {
      RoundStep(halfBits, k[i..], l, r);
      assert k[i..][1..] == k[i + 1..];
      var t := r;
      r := Xor(l, FRound(r, k[i], mask));
      l := t;
    }
    ShiftInRange(halfBits, r, l);
    c := Or(Shl(r, halfBits) % TWO32, l);
  }

  lemma RoundStep(h: nat, ks: seq<uint32>, l: nat, r: nat)
    requires h <= 16 && ks != [] && l < Pow2(h) && r < Pow2(h) <= TWO32
    ensures Xor(l, FRound(r, ks[0], MaskOf(h))) < Pow2(h)
    ensures Network(MaskOf(h), ks, l, r) ==
            Network(MaskOf(h), ks[1..], r, Xor(l, FRound(r, ks[0], MaskOf(h))))
  {
    FRoundAgrees(h, r, ks[0]);
    XorBound(l, FRound(r, ks[0], MaskOf(h)), h);
  }

  lemma HalvesBound(h: nat, idx: nat)
    requires h <= 16
    ensures And(Shr(idx, h), Pow2(h) - 1) < Pow2(h) && And(idx, Pow2(h) - 1) < Pow2(h) <= TWO32
  {
    AndMask(Shr(idx, h), h);
    AndMask(idx, h);
    Pow2Monotone(h, 32);
    Pow2Of32();
  }

  lemma ShiftInRange(h: nat, hi: nat, lo: nat)
    requires h <= 16 && hi < Pow2(h) && lo < Pow2(h)
    ensures Shl(hi, h) % TWO32 == Shl(hi, h) && Or(Shl(hi, h), lo) < TWO32
  {
    Pow2Monotone(h, 16);
    Pow2Of32();
    OrDisjoint(hi, lo, h);
    PairDigits(hi, lo, Pow2(h));
    MulMonotone(Pow2(h), 0x1_0000, Pow2(h));
    MulMonotone(Pow2(h), 0x1_0000, 0x1_0000);
    SmallMod(Shl(hi, h), TWO32);
  }

  /** `fget` is the Python `get`, for every key and every index of at most 2^32 addresses. */
  method FGet(idx: uint32, s: Shuffler) returns (x: uint32)
    requires s.Valid() && s.halfBits <= 16 && idx < s.maxVal
    ensures x == Shuffle(s, idx)
  {
    Pow2Monotone(s.halfBits, 16); Pow2Of32();
    x := FEncrypt(idx, s.keys, s.halfBits, s.mask);
    ghost var k: nat := 1;
    assert Iter(s, 0, idx) == idx;
    while x >= s.maxVal
      invariant 1 <= k <= WalkLength(s, idx)
      invariant x == Iter(s, k, idx)
      decreases WalkLength(s, idx) - k
    {
      x := FEncrypt(x, s.keys, s.halfBits, s.mask);
      k := k + 1;
    }
  }
}
