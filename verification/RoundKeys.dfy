/** What the round keys do to the permutation. */
module RoundKeys {
  import opened Arithmetic
  import opened Bits
  import opened Feistel

  // ----- The key enters by exclusive or -----

  lemma {:induction false} XorShared(a: nat, b: nat, d: nat)
    ensures Xor(Xor(a, d), Xor(b, d)) == Xor(a, b)
    decreases a + b + d
  {
    hide Xor;
    if a + b + d > 0 {
      XorStep(a, d);
      XorStep(b, d);
      XorStep(Xor(a, d), Xor(b, d));
      XorStep(a, b);
      XorShared(a / 2, b / 2, d / 2);
      ParityShared(a % 2, b % 2, d % 2);
    } else {
      XorZero(0);
    }
  }

  lemma ParityShared(p: nat, q: nat, r: nat)
    requires p < 2 && q < 2 && r < 2
    ensures ((p + r) % 2 + (q + r) % 2) % 2 == (p + q) % 2
  {
  }

  /** Flipping the same bits of the half and of the key changes nothing. */
  lemma KeyByXor(mask: nat, r: nat, k: nat, d: nat)
    ensures RoundFunction(mask, Xor(r, d), Xor(k, d)) == RoundFunction(mask, r, k)
  {
    XorShared(r, k, d);
    SameDifference(mask, Xor(r, d), Xor(k, d), r, k);
  }

  lemma SameDifference(mask: nat, a: nat, b: nat, r: nat, k: nat)
    requires Xor(a, b) == Xor(r, k)
    ensures RoundFunction(mask, a, b) == RoundFunction(mask, r, k)
  {
    hide Xor, And, Mix;
  }

  /** Only the low bits of a key count, as many as a half has. */
  lemma KeyLowBits(h: nat, r: nat, k: nat)
    requires r < Pow2(h)
    ensures RoundFunction(Pow2(h) - 1, r, k) == RoundFunction(Pow2(h) - 1, r, k % Pow2(h))
  {
    var p := Pow2(h);
    hide Xor, And, Mix, Pow2;
    DivModUnique(k % p, p, 0, k % p);
    AndMask(Xor(r, k), h);
    AndMask(Xor(r, k % p), h);
    XorMod(r, k, h);
    XorMod(r, k % p, h);
  }

  // ----- One-bit halves: blocks of four -----

  lemma LowBit(a: nat)
    ensures And(a, 1) == a % 2
  {
    assert Pow2(1) == 2;
    AndMask(a, 1);
  }

  lemma MixLowBit(w: nat)
    ensures And(Mix(w), 1) == (w % 2 + w / 0x100 % 2) % 2
  {
    Pow2Of32();
    LowBit(Mix(w));
    XorStep(w, w / 0x100);
  }

  lemma MixedWord(v: nat)
    requires v < 2
    ensures var w := v * 0x41C64E6D + 0x3039; (w % 2 + w / 0x100 % 2) % 2 == 1 - v
  {
    if v == 0 {
      DivModUnique(0x3039, 0x100, 48, 57);
    } else {
      DivModUnique(0x41C67EA6, 0x100, 4310654, 166);
    }
  }

  lemma XorLowBit(a: nat, b: nat)
    ensures Xor(a, b) % 2 == (a + b) % 2
  {
    XorStep(a, b);
    hide Xor;
  }

  lemma OneBitRound(r: nat, k: nat)
    requires r < 2
    ensures RoundFunction(1, r, k) == (1 + r + k) % 2
  {
    hide Mix, And, Xor;
    var v := And(Xor(r, k), 1);
    LowBit(Xor(r, k));
    XorLowBit(r, k);
    MixLowBit(v * 0x41C64E6D + 0x3039);
    MixedWord(v);
  }

  lemma XorBit(a: nat, b: nat)
    requires a < 2 && b < 2
    ensures Xor(a, b) == (a + b) % 2
  {
    XorStep(a, b);
    assert Xor(0, 0) == 0;
  }

  lemma OneBitStep(ks: seq<uint32>, l: nat, r: nat)
    requires ks != [] && l < 2 && r < 2
    ensures Network(1, ks, l, r) == Network(1, ks[1..], r, (l + r + 1 + ks[0]) % 2)
  {
    hide RoundFunction, Xor;
    OneBitRound(r, ks[0]);
    XorBit(l, (1 + r + ks[0]) % 2);
  }

  lemma OneBitNetwork(ks: seq<uint32>, l: nat, r: nat)
    requires |ks| == 4 && l < 2 && r < 2
    ensures Network(1, ks, l, r) == ((r + ks[1] + ks[2]) % 2, (l + r + 1 + ks[0] + ks[2] + ks[3]) % 2)
  {
    hide Network;
    var r1 := (l + r + 1 + ks[0]) % 2;
    var r2 := (r + r1 + 1 + ks[1]) % 2;
    var r3 := (r1 + r2 + 1 + ks[2]) % 2;
    var r4 := (r2 + r3 + 1 + ks[3]) % 2;
    assert ks[1..][1..] == ks[2..] && ks[2..][1..] == ks[3..] && ks[3..][1..] == [];
    OneBitStep(ks, l, r);
    OneBitStep(ks[1..], r, r1);
    OneBitStep(ks[2..], r1, r2);
    OneBitStep(ks[3..], r2, r3);
    NetworkEnd(1, r3, r4);
    FourParities(l, r, ks[0], ks[1], ks[2], ks[3]);
  }

  lemma NetworkEnd(mask: nat, l: nat, r: nat)
    ensures Network(mask, [], l, r) == (l, r)
  {
  }

  lemma FourParities(l: nat, r: nat, k0: nat, k1: nat, k2: nat, k3: nat)
    ensures var r1 := (l + r + 1 + k0) % 2;
            var r2 := (r + r1 + 1 + k1) % 2;
            var r3 := (r1 + r2 + 1 + k2) % 2;
            && r2 == (l + k0 + k1) % 2 && r3 == (r + k1 + k2) % 2
            && (r2 + r3 + 1 + k3) % 2 == (l + r + 1 + k0 + k2 + k3) % 2
  {
  }

  /** The two bits that four round keys boil down to on a block of four. */
  function HighBit(ks: seq<uint32>): nat
    requires |ks| == 4
  {
    (1 + ks[0] as nat + ks[2] as nat + ks[3] as nat) % 2
  }

  function LowKeyBit(ks: seq<uint32>): nat
    requires |ks| == 4
  {
    (ks[1] as nat + ks[2] as nat) % 2
  }

  /** The permutation of up to four addresses, for every four keys. */
  lemma PermuteFour(s: Shuffler, x: nat)
    requires s.Valid() && s.halfBits == 1 && x < 4
    ensures Permute(s, x) == 2 * ((x / 2 + x % 2 + HighBit(s.keys)) % 2) + (x % 2 + LowKeyBit(s.keys)) % 2
  {
    hide Network, And, Or;
    assert Pow2(1) == 2;
    LowBit(x / 2);
    LowBit(x);
    DivModUnique(x / 2, 2, 0, x / 2);
    OneBitNetwork(s.keys, x / 2, x % 2);
    OrDisjoint((x / 2 + x % 2 + HighBit(s.keys)) % 2, (x % 2 + LowKeyBit(s.keys)) % 2, 1);
  }

  // ----- The round function in plain arithmetic -----

  /** The word that is mixed, and which of its bits come out. */
  lemma RoundArithmetic(h: nat, r: nat, k: nat)
    requires r < Pow2(h)
    ensures var p, w := Pow2(h), Xor(r, k % Pow2(h)) * 1103515245 + 12345;
            RoundFunction(p - 1, r, k) == Xor(w % p, w / 256 % p)
  {
    var p := Pow2(h);
    KeyLowBits(h, r, k);
    hide Xor, And, Pow2;
    var x := Xor(r, k % p);
    XorBound(r, k % p, h);
    AndMask(x, h);
    SmallMod(x, p);
    var w := x * 1103515245 + 12345;
    Pow2Of32();
    AndMask(Xor(w, w / 256), h);
    XorMod(w, w / 256, h);
  }
}
