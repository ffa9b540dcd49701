/** Division and remainder facts used by several modules; `/` and `%` are only ever
    applied to a positive divisor, where Dafny's and Python's meanings coincide. */
module Arithmetic {

  function Max(a: int, b: int): int { if a > b then a else b }

  function Min(a: int, b: int): int { if a < b then a else b }

  function Sum(xs: seq<int>): (s: int)
    ensures (forall k :: 0 <= k < |xs| ==> xs[k] >= 0) ==> s >= 0
  {
    if xs == [] then 0 else xs[0] + Sum(xs[1..])
  }

  lemma {:induction false} SumOfEqual(xs: seq<int>, v: int)
    requires forall k :: 0 <= k < |xs| ==> xs[k] == v
    ensures Sum(xs) == |xs| * v
  {
    if xs != [] {
      SumOfEqual(xs[1..], v);
      assert |xs| * v == v + (|xs| - 1) * v;
    }
  }

  lemma DivModUnique(a: int, m: int, q: int, r: int)
    requires m > 0 && a == m * q + r && 0 <= r < m
    ensures a / m == q && a % m == r
  {
    var d := a / m - q;
    assert m * d == r - a % m by {
      assert a == m * (a / m) + a % m;
      assert m * d == m * (a / m) - m * q;
    }
    assert (d >= 1 ==> m * d >= m) && (d <= -1 ==> m * d <= -m);
  }

  /** Equal remainders mean a difference that is a multiple. */
  lemma CongruentDifference(a: int, b: int, m: int)
    requires m > 0
    ensures a % m == b % m <==> (a - b) % m == 0
  {
    var q := a / m - b / m;
    assert a - b == m * q + (a % m - b % m) by {
      assert m * q == m * (a / m) - m * (b / m);
    }
    if a % m == b % m {
      DivModUnique(a - b, m, q, 0);
    } else if a % m > b % m {
      DivModUnique(a - b, m, q, a % m - b % m);
    } else {
      assert m * (q - 1) == m * q - m;
      DivModUnique(a - b, m, q - 1, a % m - b % m + m);
    }
  }

  lemma ModOfMod(i: int, t: int, m: int)
    requires t > 0 && m > 0 && t % m == 0
    ensures i % t % m == i % m
  {
    var a, b := t / m, i / t;
    assert i == t * b + i % t && t == m * a;
    assert t * b == m * (a * b);
    DivModUnique(i - i % t, m, a * b, 0);
    CongruentDifference(i, i % t, m);
  }

  lemma SmallMod(a: int, m: int)
    requires 0 <= a < m
    ensures a % m == a && a / m == 0
  {
    DivModUnique(a, m, 0, a);
  }

  lemma MulMonotone(a: int, b: int, m: int)
    requires a <= b && m >= 0
    ensures a * m <= b * m
  {
    assert (b - a) * m >= 0;
  }

  lemma DivOfProduct(a: int, m: int, n: int)
    requires m > 0 && n > 0
    ensures m * n > 0 && a / (m * n) == a / m / n
  {
    var q, r, s := a / m, a % m, a / m % n;
    MulMonotone(1, m, n);
    MulMonotone(0, s, m);
    MulMonotone(s + 1, n, m);
    assert a == m * q + r && q == n * (q / n) + s;
    assert m * q == m * n * (q / n) + s * m;
    assert s * m + r < n * m;
    DivModUnique(a, m * n, q / n, s * m + r);
  }

  lemma DivNonNegative(a: nat, m: int)
    requires m > 0
    ensures 0 <= a / m
  {
    var q := a / m;
    if q < 0 { MulMonotone(q, -1, m); }
  }

  lemma DigitOfQuotient(n: int, p: int)
    requires p > 0
    ensures p * (n / p) <= n
  {
  }

  lemma QuotientBound(n: int, t: int, p: int)
    requires p > 0 && n < t * p
    ensures n / p < t
  {
    var q := n / p;
    if q >= t { MulMonotone(t, q, p); }
  }

  lemma ParityOfSum(k: int)
    ensures (2 + k) % 2 == k % 2
  {
  }

  lemma DoubleProduct(a: int, m: int)
    ensures a * (2 * m) == 2 * (a * m)
  {
  }

  /** A pair of digits to base p, packed and unpacked. */
  lemma PairDigits(hi: int, lo: int, p: int)
    requires 0 <= hi < p && 0 <= lo < p
    ensures hi * p + lo < p * p
    ensures (hi * p + lo) / p == hi && (hi * p + lo) % p == lo
  {
    var q := hi * p;
    MulMonotone(hi + 1, p, p);
    assert q + p == (hi + 1) * p;
    DivModUnique(q + lo, p, hi, lo);
  }

  lemma DigitPair(x: int, p: int)
    requires p > 0 && 0 <= x < p * p
    ensures 0 <= x / p < p && x == (x / p) * p + x % p
  {
  }

  /** The two low digits to base p survive reduction modulo p * p. */
  lemma DigitsOfMod(x: int, p: int)
    requires p > 0
    ensures p * p > 0 && x % (p * p) % p == x % p && x % (p * p) / p % p == x / p % p
  {
    var y, q := x % (p * p), x / (p * p);
    assert p * p > 0 by { MulMonotone(1, p, p); }
    assert x == p * p * q + y && p * p * q == p * (p * q);
    DivModUnique(x, p, p * q + y / p, y % p);
    DivModUnique(x / p, p, q + y / p / p, y / p % p);
  }

  function Below(n: nat): set<nat> { if n == 0 then {} else Below(n - 1) + {n - 1} }

  lemma {:induction false} BelowFacts(n: nat)
    ensures |Below(n)| == n
    ensures forall x: nat :: x in Below(n) <==> x < n
  {
    if n > 0 { BelowFacts(n - 1); }
  }

  /** The cardinality of a set of integers that fits between two bounds. */
  lemma BoundedSetSize(s: set<int>, lo: int, hi: int)
    requires lo <= hi && forall x :: x in s ==> lo <= x < hi
    ensures |s| <= hi - lo
    decreases hi - lo
  {
    if lo == hi {
      assert s == {};
    } else {
      var t := s - {hi - 1};
      BoundedSetSize(t, lo, hi - 1);
      assert s == t || s == t + {hi - 1};
    }
  }
}
