/** Cycle walking: `FeistelShuffler.get` re-encrypts until the value is below maxVal. */
module CycleWalk {
  import Arithmetic
  import RoundKeys
  import opened Bits
  import opened Feistel

  /** `_encrypt` applied k times. */
  function Iter(s: Shuffler, k: nat, x: nat): nat
  {
    if k == 0 then x else Permute(s, Iter(s, k - 1, x))
  }

  /** The k-th encryption of i is the first one to land below maxVal. */
  ghost predicate Exits(s: Shuffler, k: nat, i: nat) {
    k >= 1 && Iter(s, k, i) < s.maxVal && forall j :: 1 <= j < k ==> Iter(s, j, i) >= s.maxVal
  }

  ghost function WalkLength(s: Shuffler, i: nat): (k: nat)
    requires s.Valid() && i < s.maxVal
    ensures Exits(s, k, i)
  {
    WalkEnds(s, i);
    var k :| Exits(s, k, i);
    k
  }

  ghost function Shuffle(s: Shuffler, i: nat): nat
    requires s.Valid() && i < s.maxVal
  {
    Iter(s, WalkLength(s, i), i)
  }

  method Get(s: Shuffler, index: nat) returns (x: nat, ghost encryptions: nat)
    requires s.Valid() && index < s.maxVal
    ensures x == Shuffle(s, index)
    ensures encryptions == WalkLength(s, index)
  {
    hide Permute;
    x := Encrypt(s, index);
    encryptions := 1;
    assert Iter(s, 0, index) == index;
    while x >= s.maxVal
      invariant 1 <= encryptions <= WalkLength(s, index)
      invariant x == Iter(s, encryptions, index)
      decreases WalkLength(s, index) - encryptions
    {
      x := Encrypt(s, x);
      encryptions := encryptions + 1;
    }
  }

  // ----- Orbits of a permutation of the block -----

  lemma {:induction false} IterInBlock(s: Shuffler, k: nat, x: nat)
    requires s.Valid() && x < s.Block()
    ensures Iter(s, k, x) < s.Block()
  {
    hide Permute;
    if k > 0 {
      IterInBlock(s, k - 1, x);
      PermuteInverse(s, Iter(s, k - 1, x));
    }
  }

  lemma PermuteInjective(s: Shuffler, x: nat, y: nat)
    requires s.Valid() && x < s.Block() && y < s.Block() && Permute(s, x) == Permute(s, y)
    ensures x == y
  {
    PermuteInverse(s, x);
    PermuteInverse(s, y);
  }

  /** Orbits never merge: equal iterates come from points on one orbit. */
  lemma {:induction false} IterCancel(s: Shuffler, a: nat, b: nat, x: nat, y: nat)
    requires s.Valid() && x < s.Block() && y < s.Block()
    requires a <= b && Iter(s, a, x) == Iter(s, b, y)
    ensures x == Iter(s, b - a, y)
  {
    hide Permute;
    if a > 0 {
      IterInBlock(s, a - 1, x);
      IterInBlock(s, b - 1, y);
      PermuteInjective(s, Iter(s, a - 1, x), Iter(s, b - 1, y));
      IterCancel(s, a - 1, b - 1, x, y);
    }
  }

  /** The first n points after i on its orbit. */
  ghost function Chain(s: Shuffler, n: nat, i: nat): set<nat>
  {
    if n == 0 then {} else Chain(s, n - 1, i) + {Iter(s, n, i)}
  }

  lemma {:induction false} ChainMember(s: Shuffler, n: nat, i: nat, y: nat) returns (j: nat)
    requires y in Chain(s, n, i)
    ensures 1 <= j <= n && y == Iter(s, j, i)
  {
    hide Permute;
    if y == Iter(s, n, i) { j := n; } else { j := ChainMember(s, n - 1, i, y); }
  }

  /** As long as the walk from i has not come back below maxVal, its points are all different. */
  lemma {:induction false} ChainSize(s: Shuffler, n: nat, i: nat)
    requires s.Valid() && i < s.maxVal
    requires forall j :: 1 <= j < n ==> Iter(s, j, i) >= s.maxVal
    ensures |Chain(s, n, i)| == n
  {
    hide Permute;
    if n > 0 {
      ChainSize(s, n - 1, i);
      if Iter(s, n, i) in Chain(s, n - 1, i) {
        var j := ChainMember(s, n - 1, i, Iter(s, n, i));
        IterCancel(s, j, n, i, i);
        assert false;
      }
    }
  }

  lemma WalkEnds(s: Shuffler, i: nat)
    requires s.Valid() && i < s.maxVal
    ensures exists k :: Exits(s, k, i)
  {
    hide Permute;
    var n := s.Block() - s.maxVal + 1;
    if forall j :: 1 <= j <= n ==> Iter(s, j, i) >= s.maxVal {
      ChainSize(s, n, i);
      forall y | y in Chain(s, n, i) ensures s.maxVal <= y < s.Block() {
        var j := ChainMember(s, n, i, y);
        IterInBlock(s, j, i);
      }
      Arithmetic.BoundedSetSize(Chain(s, n, i), s.maxVal, s.Block());
      assert false;
    }
    var m: nat :| 1 <= m <= n && Iter(s, m, i) < s.maxVal;
    var k := FirstExit(s, m, i);
  }

  lemma FirstExit(s: Shuffler, n: nat, x: nat) returns (k: nat)
    requires n >= 1 && Iter(s, n, x) < s.maxVal
    ensures k <= n && Exits(s, k, x)
  {
    hide Permute, Iter;
    k := 1;
    while Iter(s, k, x) >= s.maxVal
      invariant 1 <= k <= n
      invariant forall j :: 1 <= j < k ==> Iter(s, j, x) >= s.maxVal
      decreases n - k
    {
      k := k + 1;
    }
  }

  lemma ExitUnique(s: Shuffler, a: nat, b: nat, i: nat)
    requires Exits(s, a, i) && Exits(s, b, i)
    ensures a == b
  {
  }

  // ----- `get` is a bijection of [0, maxVal) -----

  ghost function Unshuffle(s: Shuffler, y: nat): nat
    requires s.Valid() && y < s.maxVal
  {
    Shuffle(s.Reversed(), y)
  }

  /** Walking back j steps with the reversed keys. */
  lemma {:induction false} IterBack(s: Shuffler, j: nat, k: nat, x: nat)
    requires s.Valid() && x < s.Block() && j <= k
    ensures Iter(s.Reversed(), j, Iter(s, k, x)) == Iter(s, k - j, x)
  {
    hide Permute;
    if j > 0 {
      IterBack(s, j - 1, k, x);
      IterInBlock(s, k - j, x);
      PermuteInverse(s, Iter(s, k - j, x));
    }
  }

  lemma ShuffleUndone(s: Shuffler, i: nat)
    requires s.Valid() && i < s.maxVal
    ensures Shuffle(s, i) < s.maxVal
    ensures Unshuffle(s, Shuffle(s, i)) == i
  {
    hide Permute;
    var k, y, t := WalkLength(s, i), Shuffle(s, i), s.Reversed();
    forall j | 1 <= j <= k ensures Iter(t, j, y) == Iter(s, k - j, i) {
      IterBack(s, j, k, i);
    }
    assert Iter(s, 0, i) == i;
    assert Exits(t, k, y);
    ExitUnique(t, k, WalkLength(t, y), y);
  }

  /** For every key and every maxVal, `get` is a bijection of [0, maxVal): the shuffler with
      reversed keys is its two-sided inverse. */
  lemma ShuffleBijective(s: Shuffler, i: nat)
    requires s.Valid() && i < s.maxVal
    ensures Shuffle(s, i) < s.maxVal && Unshuffle(s, Shuffle(s, i)) == i
    ensures Unshuffle(s, i) < s.maxVal && Shuffle(s, Unshuffle(s, i)) == i
  {
    ShuffleUndone(s, i);
    ReverseTwice(s.keys);
    ShuffleUndone(s.Reversed(), i);
  }

  // ----- Amortised cost -----

  ghost function TotalEncryptions(s: Shuffler, n: nat): nat
    requires s.Valid() && n <= s.maxVal
  {
    if n == 0 then 0 else TotalEncryptions(s, n - 1) + WalkLength(s, n - 1)
  }

  ghost function Walked(s: Shuffler, n: nat): set<nat>
    requires s.Valid() && n <= s.maxVal
  {
    if n == 0 then {} else Walked(s, n - 1) + Chain(s, WalkLength(s, n - 1), n - 1)
  }

  lemma {:induction false} WalkedMember(s: Shuffler, n: nat, y: nat) returns (i: nat, j: nat)
    requires s.Valid() && n <= s.maxVal && y in Walked(s, n)
    ensures i < n && 1 <= j <= WalkLength(s, i) && y == Iter(s, j, i)
  {
    hide Permute;
    if y in Chain(s, WalkLength(s, n - 1), n - 1) {
      i := n - 1;
      j := ChainMember(s, WalkLength(s, i), i, y);
    } else {
      i, j := WalkedMember(s, n - 1, y);
    }
  }

  lemma WalksDisjoint(s: Shuffler, i: nat, a: nat, j: nat, b: nat)
    requires s.Valid() && i < s.maxVal && j < s.maxVal && i != j
    requires 1 <= a <= WalkLength(s, i) && 1 <= b <= WalkLength(s, j)
    ensures Iter(s, a, i) != Iter(s, b, j)
  {
    hide Permute;
    if Iter(s, a, i) == Iter(s, b, j) {
      assert Iter(s, 0, i) == i && Iter(s, 0, j) == j;
      if a <= b { IterCancel(s, a, b, i, j); } else { IterCancel(s, b, a, j, i); }
      assert false;
    }
  }

  lemma {:induction false} WalkedSize(s: Shuffler, n: nat)
    requires s.Valid() && n <= s.maxVal
    ensures |Walked(s, n)| == TotalEncryptions(s, n)
    ensures forall y :: y in Walked(s, n) ==> y < s.Block()
  {
    hide Permute;
    if n > 0 {
      var i, k := n - 1, WalkLength(s, n - 1);
      WalkedSize(s, i);
      ChainSize(s, k, i);
      forall y | y in Chain(s, k, i) ensures y < s.Block() && y !in Walked(s, i) {
        var a := ChainMember(s, k, i, y);
        IterInBlock(s, a, i);
        if y in Walked(s, i) {
          var j, b := WalkedMember(s, i, y);
          WalksDisjoint(s, i, a, j, b);
        }
      }
    }
  }

  /** All indices together cost at most one encryption per value of the block. */
  lemma AmortisedWalk(key: int, maxVal: nat)
    requires maxVal >= 1
    ensures MakeShuffler(key, maxVal).Valid()
    ensures TotalEncryptions(MakeShuffler(key, maxVal), maxVal) <= MakeShuffler(key, maxVal).Block() <= 4 * maxVal
  {
    var s := MakeShuffler(key, maxVal);
    BlockSizing(key, maxVal);
    WalkedSize(s, maxVal);
    Arithmetic.BoundedSetSize(Walked(s, maxVal), 0, s.Block());
  }

  // ----- Outside the range -----

  /** `get` returns for this index. */
  ghost predicate Ends(s: Shuffler, x: nat) { exists k :: Exits(s, k, x) }

  lemma {:induction false} IterAdd(s: Shuffler, a: nat, b: nat, x: nat)
    ensures Iter(s, a, Iter(s, b, x)) == Iter(s, a + b, x)
  {
    hide Permute;
    if a > 0 { IterAdd(s, a - 1, b, x); }
  }

  lemma {:induction false} ChainContains(s: Shuffler, n: nat, i: nat, j: nat)
    requires 1 <= j <= n
    ensures Iter(s, j, i) in Chain(s, n, i)
  {
    hide Permute, Iter;
    if j < n { ChainContains(s, n - 1, i, j); }
  }

  lemma {:induction false} WalkedContains(s: Shuffler, n: nat, i: nat, j: nat)
    requires s.Valid() && i < n <= s.maxVal && 1 <= j <= WalkLength(s, i)
    ensures Iter(s, j, i) in Walked(s, n)
  {
    hide Permute, Iter;
    if i == n - 1 { ChainContains(s, WalkLength(s, i), i, j); } else { WalkedContains(s, n - 1, i, j); }
  }

  lemma WalkedEnds(s: Shuffler, x: nat)
    requires s.Valid() && x in Walked(s, s.maxVal)
    ensures Ends(s, x)
  {
    hide Permute, Iter, Walked;
    var i, j := WalkedMember(s, s.maxVal, x);
    var k := WalkLength(s, i);
    if j < k {
      IterAdd(s, k - j, j, i);
      var m := FirstExit(s, k - j, x);
    } else {
      WalkEnds(s, x);
    }
  }

  /** Walking back from the exit with the reversed keys leads to the index below maxVal whose walk
      passes through x. */
  lemma EndingWalked(s: Shuffler, x: nat, k: nat)
    requires s.Valid() && x < s.Block() && Exits(s, k, x)
    ensures x in Walked(s, s.maxVal)
  {
    hide Permute, Walked;
    if x < s.maxVal {
      ShuffleBijective(s, x);
      WalkedContains(s, s.maxVal, Unshuffle(s, x), WalkLength(s, Unshuffle(s, x)));
    } else {
      var y, t := Iter(s, k, x), s.Reversed();
      var m := WalkLength(t, y);
      var i := Iter(t, m, y);
      forall j | 1 <= j <= k ensures Iter(t, j, y) == Iter(s, k - j, x) >= s.maxVal {
        IterBack(s, j, k, x);
        assert Iter(s, 0, x) == x;
      }
      assert k < m && Iter(t, k, y) == Iter(s, 0, x) == x;
      ReverseTwice(s.keys);
      forall j | 1 <= j < m ensures Iter(s, j, i) == Iter(t, m - j, y) >= s.maxVal { IterBack(t, j, m, y); }
      WalkedContains(s, s.maxVal, i, m - k);
    }
  }

  /** Only the position in the block matters for what comes after. */
  lemma {:induction false} IterWraps(s: Shuffler, k: nat, x: nat)
    requires s.Valid() && k >= 1
    ensures Iter(s, k, x) == Iter(s, k, x % s.Block())
  {
    hide Permute;
    if k == 1 {
      PermuteWraps(s, x);
      assert Iter(s, 0, x) == x && Iter(s, 0, x % s.Block()) == x % s.Block();
    } else {
      IterWraps(s, k - 1, x);
    }
  }

  lemma PermuteWraps(s: Shuffler, x: nat)
    requires s.Valid()
    ensures Permute(s, x) == Permute(s, x % s.Block())
  {
    var p, y := Pow2(s.halfBits), x % s.Block();
    Pow2Add(s.halfBits, s.halfBits);
    AndMask(x, s.halfBits);
    AndMask(y, s.halfBits);
    AndMask(Shr(x, s.halfBits), s.halfBits);
    AndMask(Shr(y, s.halfBits), s.halfBits);
    Arithmetic.DigitsOfMod(x, p);
    hide And, Shr, Network, Or, Shl, Pow2;
  }

  /** For every index whatsoever: `get` ends exactly when the walk of some index below maxVal passes
      through its position in the block. */
  lemma EndsIff(s: Shuffler, x: nat)
    requires s.Valid()
    ensures Ends(s, x) <==> x % s.Block() in Walked(s, s.maxVal)
  {
    hide Permute, Iter, Walked, Shuffler.Block;
    var y := x % s.Block();
    forall k ensures Exits(s, k, x) <==> Exits(s, k, y) {
      forall j: nat | j >= 1 ensures Iter(s, j, x) == Iter(s, j, y) { IterWraps(s, j, x); }
    }
    if Ends(s, x) {
      var k :| Exits(s, k, y);
      EndingWalked(s, y, k);
    }
    if y in Walked(s, s.maxVal) { WalkedEnds(s, y); }
  }

  ghost function NeverEnding(s: Shuffler): set<nat> { set x | x in Arithmetic.Below(s.Block()) && !Ends(s, x) }

  /** The indices of the block on which `get` runs forever are as many as the encryptions that the
      indices below maxVal leave unused. In particular `get` ends on every index whatsoever exactly
      when these use up the whole block. */
  lemma EndsEverywhereIff(s: Shuffler)
    requires s.Valid()
    ensures |NeverEnding(s)| == s.Block() - TotalEncryptions(s, s.maxVal)
    ensures (forall x: nat :: Ends(s, x)) <==> TotalEncryptions(s, s.maxVal) == s.Block()
  {
    hide Permute, Iter, Walked, Ends, Shuffler.Block;
    var block, walked, rest := Arithmetic.Below(s.Block()), Walked(s, s.maxVal), NeverEnding(s);
    WalkedSize(s, s.maxVal);
    Arithmetic.BelowFacts(s.Block());
    forall x: nat ensures x % s.Block() in block && (Ends(s, x) <==> x % s.Block() in walked) { EndsIff(s, x); }
    forall x: nat | x in block ensures x % s.Block() == x { Arithmetic.SmallMod(x, s.Block()); }
    assert rest == block - walked && block == rest + walked;
    if |rest| == 0 {
      forall x: nat ensures Ends(s, x) { assert x % s.Block() !in rest; }
    } else {
      var x :| x in rest;
    }
  }

  function Zeros(n: nat): (z: seq<uint32>)
    ensures |z| == n
  {
    seq(n, _ => 0)
  }

  lemma ZeroKeyShuffler()
    ensures MakeShuffler(0, 1) == Shuffler(1, 0, Zeros(4), 1, 1)
  {
    hide Pow2;
    assert HalfBits(1) == 1;
    assert Pow2(1) == 2 by { PowerOfOne(); }
    var s := MakeShuffler(0, 1);
    forall i | 0 <= i < 4 ensures s.keys[i] == 0 {
      Arithmetic.DivModUnique(0, Pow2(8 * i), 0, 0);
    }
    assert s.keys == Zeros(4);
  }

  lemma PowerOfOne()
    ensures Pow2(1) == 2
  {
  }

  /** The walk is only promised to end for indices below maxVal: with key 0 and maxVal 1 the index 1
      encrypts to itself, so `get(1)` would run forever. */
  lemma OutsideNeverEnds()
    ensures !Ends(MakeShuffler(0, 1), 1)
  {
    hide MakeShuffler, Iter;
    ZeroKeyShuffler();
    forall k ensures Iter(MakeShuffler(0, 1), k, 1) == 1 { StaysAtOne(k); }
  }

  lemma {:induction false} StaysAtOne(k: nat)
    ensures Iter(MakeShuffler(0, 1), k, 1) == 1
  {
    hide MakeShuffler, Permute;
    ZeroKeyShuffler();
    assert Pow2(1) == 2 && Pow2(2) == 4;
    RoundKeys.PermuteFour(Shuffler(1, 0, Zeros(4), 1, 1), 1);
    if k > 0 { StaysAtOne(k - 1); }
  }

  // ----- What the key does to the order of a scan -----

  /** The order in which four addresses are visited, for every four keys. */
  lemma OrderOfFour(s: Shuffler, x: nat)
    requires s.Valid() && s.maxVal == 4 && s.halfBits == 1 && x < 4
    ensures Shuffle(s, x) == 2 * ((x / 2 + x % 2 + RoundKeys.HighBit(s.keys)) % 2)
                             + (x % 2 + RoundKeys.LowKeyBit(s.keys)) % 2
  {
    hide Permute;
    RoundKeys.PermuteFour(s, x);
    assert Iter(s, 0, x) == x && Iter(s, 1, x) == Permute(s, Iter(s, 0, x));
    ExitUnique(s, 1, WalkLength(s, x), x);
  }

  /** The shuffler built for four addresses is of that kind, and its keys are the windows of the seed:
      with seed 1, index 1 leads to the last address. */
  lemma SeedOneOrder()
    ensures MakeShuffler(1, 4).Valid() && Shuffle(MakeShuffler(1, 4), 1) == 3
  {
    hide MakeShuffler, HalfBits, Shuffle, Shuffler.Valid, Shuffler.Block;
    BlockSizing(1, 4);
    SeedOneKeys();
    FourNeedsOneBit(1);
    OrderOfSeedOne(MakeShuffler(1, 4));
  }

  lemma OrderOfSeedOne(s: Shuffler)
    requires s.Valid() && s.maxVal == 4 && s.halfBits == 1 && s.keys == [1, 0, 0, 0]
    ensures Shuffle(s, 1) == 3
  {
    hide Shuffle, Shuffler.Valid;
    OrderOfFour(s, 1);
  }

  lemma FourNeedsOneBit(seed: int)
    ensures MakeShuffler(seed, 4).maxVal == 4 && MakeShuffler(seed, 4).halfBits == 1
  {
    hide Pow2;
    assert BitLength(3) == 2;
  }

  lemma SeedOneKeys()
    ensures MakeShuffler(1, 4).keys == [1, 0, 0, 0]
  {
    Pow2Of32();
    Pow2Monotone(8, 16);
    Pow2Monotone(8, 24);
    assert Pow2(8 * 0) == 1 && Pow2(8 * 1) == 0x100 && Pow2(8 * 2) == 0x1_0000 && Pow2(8 * 3) == 0x100_0000;
    hide Pow2;
    Arithmetic.SmallMod(1, 0x100);
    Arithmetic.SmallMod(1, 0x1_0000);
    Arithmetic.SmallMod(1, 0x100_0000);
  }

  /** Two shufflers visit four addresses in the same order exactly when their keys agree in the two
      bits that count. */
  lemma SameOrderIff(s: Shuffler, t: Shuffler)
    requires s.Valid() && s.maxVal == 4 && s.halfBits == 1
    requires t.Valid() && t.maxVal == 4 && t.halfBits == 1
    ensures (forall x: nat :: x < 4 ==> Shuffle(s, x) == Shuffle(t, x)) <==>
            RoundKeys.HighBit(s.keys) == RoundKeys.HighBit(t.keys) &&
            RoundKeys.LowKeyBit(s.keys) == RoundKeys.LowKeyBit(t.keys)
  {
    hide Shuffle, RoundKeys.HighBit, RoundKeys.LowKeyBit;
    forall x: nat | x < 4
      ensures Shuffle(s, x) == 2 * ((x / 2 + x % 2 + RoundKeys.HighBit(s.keys)) % 2)
                               + (x % 2 + RoundKeys.LowKeyBit(s.keys)) % 2
      ensures Shuffle(t, x) == 2 * ((x / 2 + x % 2 + RoundKeys.HighBit(t.keys)) % 2)
                               + (x % 2 + RoundKeys.LowKeyBit(t.keys)) % 2
    {
      OrderOfFour(s, x);
      OrderOfFour(t, x);
    }
    assert 0 / 2 == 0 && 0 % 2 == 0;
    KeyBits(s.keys);
    KeyBits(t.keys);
    if forall x: nat :: x < 4 ==> Shuffle(s, x) == Shuffle(t, x) {
      assert Shuffle(s, 0) == Shuffle(t, 0);
    }
  }

  lemma KeyBits(ks: seq<uint32>)
    requires |ks| == 4
    ensures RoundKeys.HighBit(ks) < 2 && RoundKeys.LowKeyBit(ks) < 2
  {
  }
}
