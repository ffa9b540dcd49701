/** Bitwise operators of Python's unbounded non-negative integers. */
module Bits {
  import opened Arithmetic

  const TWO32: nat := 0x1_0000_0000

  type uint32 = x: nat | x < 0x1_0000_0000

  function Pow2(n: nat): (p: nat)
    ensures p >= 1
  {
    if n == 0 then 1 else 2 * Pow2(n - 1)
  }

  function Shr(a: nat, n: nat): nat {
    DivNonNegative(a, Pow2(n));
    a / Pow2(n)
  }

  function Shl(a: nat, n: nat): nat { a * Pow2(n) }

  function Xor(a: nat, b: nat): nat
    decreases a + b
  {
    if a == 0 && b == 0 then 0 else (a % 2 + b % 2) % 2 + 2 * Xor(a / 2, b / 2)
  }

  function And(a: nat, b: nat): nat
    decreases a + b
  {
    if a == 0 && b == 0 then 0 else a % 2 * (b % 2) + 2 * And(a / 2, b / 2)
  }

  function Or(a: nat, b: nat): nat
    decreases a + b
  {
    if a == 0 && b == 0 then 0
    else (if a % 2 == 1 || b % 2 == 1 then 1 else 0) + 2 * Or(a / 2, b / 2)
  }

  /** `n.bit_length()` of Python. */
  function BitLength(n: nat): nat { if n == 0 then 0 else 1 + BitLength(n / 2) }

  lemma {:induction false} Pow2Add(a: nat, b: nat)
    ensures Pow2(a + b) == Pow2(a) * Pow2(b)
  {
    if a > 0 {
      Pow2Add(a - 1, b);
      assert 2 * Pow2(a - 1) * Pow2(b) == 2 * (Pow2(a - 1) * Pow2(b));
    }
  }

  lemma Pow2Of32()
    ensures Pow2(8) == 0x100 && Pow2(16) == 0x1_0000 && Pow2(24) == 0x100_0000
    ensures Pow2(32) == 0x1_0000_0000
  {
    assert Pow2(3) == 8;
    assert Pow2(5) == 4 * Pow2(3);
    assert Pow2(8) == 8 * Pow2(5);
    Pow2Add(8, 8); Pow2Add(8, 16); Pow2Add(16, 16);
  }

  lemma {:induction false} Pow2Monotone(a: nat, b: nat)
    requires a <= b
    ensures Pow2(a) <= Pow2(b)
    decreases b
  {
    if a < b { Pow2Monotone(a, b - 1); }
  }

  lemma {:induction false} BitLengthBounds(n: nat)
    ensures n < Pow2(BitLength(n))
    ensures n > 0 ==> BitLength(n) >= 1 && Pow2(BitLength(n) - 1) <= n
  {
    if n > 0 { BitLengthBounds(n / 2); }
  }

  lemma ModHalf(a: nat, m: nat)
    requires m >= 1
    ensures a % (2 * m) == a % 2 + 2 * ((a / 2) % m)
  {
    var h := a / 2;
    assert a == 2 * m * (h / m) + (a % 2 + 2 * (h % m)) by {
      assert h == m * (h / m) + h % m;
      assert 2 * m * (h / m) == 2 * (m * (h / m));
    }
    DivModUnique(a, 2 * m, h / m, a % 2 + 2 * (h % m));
  }

  lemma {:induction false} XorZero(a: nat)
    ensures Xor(a, 0) == a
  {
    if a > 0 { XorZero(a / 2); }
  }

  lemma XorStep(a: nat, b: nat)
    ensures Xor(a, b) % 2 == (a % 2 + b % 2) % 2 && Xor(a, b) / 2 == Xor(a / 2, b / 2)
  {
  }

  lemma {:induction false} XorCancel(a: nat, b: nat)
    ensures Xor(Xor(a, b), b) == a
    decreases a + b
  {
    if a > 0 || b > 0 {
      hide Xor;
      var x := Xor(a, b);
      XorStep(a, b);
      XorStep(x, b);
      XorCancel(a / 2, b / 2);
      ParityCancel(a % 2, b % 2);
    }
  }

  lemma ParityCancel(p: nat, q: nat)
    requires p < 2 && q < 2
    ensures ((p + q) % 2 + q) % 2 == p
  {
  }

  lemma {:induction false} XorMod(a: nat, b: nat, n: nat)
    ensures Xor(a, b) % Pow2(n) == Xor(a % Pow2(n), b % Pow2(n))
    decreases n
  {
    hide Xor;
    if n == 0 {
      XorZero(0);
    } else {
      var m := Pow2(n - 1);
      var c, d, x := a % (2 * m), b % (2 * m), Xor(a, b);
      ModHalf(a, m); ModHalf(b, m); ModHalf(x, m);
      XorStep(a, b);
      XorMod(a / 2, b / 2, n - 1);
      HalfOfMod(a, m); HalfOfMod(b, m);
      XorStep(c, d);
    }
  }

  lemma HalfOfMod(a: nat, m: nat)
    requires m >= 1
    ensures a % (2 * m) % 2 == a % 2 && a % (2 * m) / 2 == (a / 2) % m
  {
    ModHalf(a, m);
    DivModUnique(a % (2 * m), 2, (a / 2) % m, a % 2);
  }

  lemma XorBound(a: nat, b: nat, n: nat)
    requires a < Pow2(n) && b < Pow2(n)
    ensures Xor(a, b) < Pow2(n)
  {
    XorMod(a, b, n);
    SmallMod(a, Pow2(n)); SmallMod(b, Pow2(n));
  }

  lemma AndStep(a: nat, b: nat)
    ensures And(a, b) == a % 2 * (b % 2) + 2 * And(a / 2, b / 2)
  {
  }

  /** Masking with 2^n - 1 keeps the remainder. */
  lemma {:induction false} AndMask(a: nat, n: nat)
    ensures And(a, Pow2(n) - 1) == a % Pow2(n)
    decreases n
  {
    hide And;
    if n == 0 {
      AndZero(a);
    } else {
      var m := Pow2(n - 1);
      ModHalf(a, m);
      AndMask(a / 2, n - 1);
      DivModUnique(2 * m - 1, 2, m - 1, 1);
      AndStep(a, 2 * m - 1);
    }
  }

  lemma {:induction false} AndZero(a: nat)
    ensures And(a, 0) == 0
  {
    if a > 0 { AndZero(a / 2); }
  }

  lemma {:induction false} AndSelf(a: nat)
    ensures And(a, a) == a
  {
    hide And;
    if a > 0 {
      AndSelf(a / 2);
      AndStep(a, a);
    } else {
      AndZero(0);
    }
  }

  lemma OrStep(a: nat, b: nat)
    ensures Or(a, b) == (if a % 2 == 1 || b % 2 == 1 then 1 else 0) + 2 * Or(a / 2, b / 2)
  {
  }

  lemma {:induction false} OrZero(a: nat)
    ensures Or(a, 0) == a
  {
    if a > 0 { OrZero(a / 2); }
  }

  /** Or-ing a value into the zeroed low bits of a shifted one is addition. */
  lemma {:induction false} OrDisjoint(hi: nat, lo: nat, n: nat)
    requires lo < Pow2(n)
    ensures Or(Shl(hi, n), lo) == hi * Pow2(n) + lo
    decreases n
  {
    if n == 0 {
      OrZero(hi);
    } else {
      var m := Pow2(n - 1);
      OrDisjoint(hi, lo / 2, n - 1);
      DoubleProduct(hi, m);
      OrStep(2 * (hi * m), lo);
    }
  }
}
