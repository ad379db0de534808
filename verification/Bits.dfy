/** Bitwise operations on non-negative integers, and their arithmetic meaning on masks and fields. */
module Bits {

  function Pow2(k: nat): (r: nat)
    ensures r > 0
  {
    if k == 0 then 1 else 2 * Pow2(k - 1)
  }

  function And(x: nat, y: nat): (r: nat)
    decreases x
  {
    if x == 0 then 0
    else (if x % 2 == 1 && y % 2 == 1 then 1 else 0) + 2 * And(x / 2, y / 2)
  }

  function Or(x: nat, y: nat): (r: nat)
    decreases x + y
  {
    if x == 0 then y else if y == 0 then x
    else (if x % 2 == 1 || y % 2 == 1 then 1 else 0) + 2 * Or(x / 2, y / 2)
  }

  lemma AndStep(x: nat, y: nat)
    ensures And(x, y) == (if x % 2 == 1 && y % 2 == 1 then 1 else 0) + 2 * And(x / 2, y / 2)
  {
  }

  lemma Pow2Zero()
    ensures Pow2(0) == 1
  {
  }

  lemma Pow2Step(k: nat)
    requires k > 0
    ensures Pow2(k) == 2 * Pow2(k - 1)
  {
  }

  /** Masking with 2^k - 1 is reduction modulo 2^k. */
  lemma {:induction false} AndLowMask(x: nat, k: nat)
    ensures And(x, Pow2(k) - 1) == x % Pow2(k)
    decreases k
  {
    hide And;
    hide Pow2;
    if k == 0 {
      Pow2Zero();
      AndZero(x);
    } else {
      Pow2Step(k);
      var m, y := Pow2(k - 1), Pow2(k) - 1;
      assert y / 2 == m - 1 && y % 2 == 1;
      AndStep(x, y);
      AndLowMask(x / 2, k - 1);
      ModHalf(x, m);
    }
  }

  lemma {:induction false} AndZero(x: nat)
    ensures And(x, 0) == 0
    decreases x
  {
    if x > 0 {
      AndZero(x / 2);
    }
  }

  lemma ModHalf(x: nat, m: nat)
    requires m > 0
    ensures x % (2 * m) == x % 2 + 2 * (x / 2 % m)
  {
    var h := x / 2;
    var q, r := h / m, h % m;
    assert x == 2 * h + x % 2 && h == m * q + r;
    assert x == (2 * m) * q + (2 * r + x % 2);
    DivUnique(x, 2 * m, q, 2 * r + x % 2);
  }

  /** Quotient and remainder are determined by the division equation. */
  lemma DivUnique(x: int, m: int, q: int, r: int)
    requires m > 0 && 0 <= r < m && x == m * q + r
    ensures x / m == q && x % m == r
  {
    var q', r' := x / m, x % m;
    assert x == m * q' + r';
    assert m * (q - q') == r' - r;
    if q > q' {
      MulAtLeast(m, q - q');
    } else if q < q' {
      assert m * (q' - q) == r - r';
      MulAtLeast(m, q' - q);
    }
  }

  lemma MulAtLeast(m: int, d: int)
    requires m > 0 && d >= 1
    ensures m * d >= m
  {
  }

  lemma OrStep(x: nat, y: nat)
    ensures Or(x, y) == (if x % 2 == 1 || y % 2 == 1 then 1 else 0) + 2 * Or(x / 2, y / 2)
  {
    if x == 0 {
      assert Or(0, y / 2) == y / 2;
    } else if y == 0 {
      assert Or(x / 2, 0) == x / 2;
    }
  }

  /** Masking with 2^n - 2^k keeps bits k to n - 1. */
  lemma {:induction false} AndField(x: nat, n: nat, k: nat)
    requires k <= n
    ensures Pow2(k) <= Pow2(n) && And(x, Pow2(n) - Pow2(k)) == x % Pow2(n) - x % Pow2(k)
    decreases k
  {
    hide And;
    hide Pow2;
    if k == 0 {
      Pow2Zero();
      AndLowMask(x, n);
    } else {
      Pow2Step(n);
      Pow2Step(k);
      AndField(x / 2, n - 1, k - 1);
      var y := Pow2(n) - Pow2(k);
      assert y % 2 == 0 && y / 2 == Pow2(n - 1) - Pow2(k - 1);
      AndStep(x, y);
      ModHalf(x, Pow2(n - 1));
      ModHalf(x, Pow2(k - 1));
    }
  }

  /** Disjoint fields: combining is adding. */
  lemma {:induction false} OrField(x: nat, y: nat, k: nat)
    requires x % Pow2(k) == 0 && y < Pow2(k)
    ensures Or(x, y) == x + y
    decreases k
  {
    hide Or;
    hide Pow2;
    if k == 0 {
      Pow2Zero();
      OrZero(x);
    } else {
      Pow2Step(k);
      ModHalf(x, Pow2(k - 1));
      OrField(x / 2, y / 2, k - 1);
      OrStep(x, y);
    }
  }

  lemma OrZero(x: nat)
    ensures Or(x, 0) == x
  {
  }

  /** A field `y` with bits below k and from n on leaves room for a field in between. */
  lemma {:induction false} OrBetween(x: nat, hi: nat, lo: nat, n: nat, k: nat)
    requires k <= n && x < Pow2(n) && x % Pow2(k) == 0 && lo < Pow2(k)
    ensures Or(x, hi * Pow2(n) + lo) == hi * Pow2(n) + x + lo
    decreases n
  {
    hide Or;
    hide Pow2;
    if k == 0 {
      Pow2Zero();
      OrAbove(x, hi, n);
    } else {
      Pow2Step(n);
      Pow2Step(k);
      ModHalf(x, Pow2(k - 1));
      OrBetween(x / 2, hi, lo / 2, n - 1, k - 1);
      var y := hi * Pow2(n) + lo;
      Halves(hi, Pow2(n - 1), lo);
      OrStep(x, y);
    }
  }

  lemma {:induction false} OrAbove(x: nat, hi: nat, n: nat)
    requires x < Pow2(n)
    ensures Or(x, hi * Pow2(n)) == hi * Pow2(n) + x
    decreases n
  {
    hide Or;
    hide Pow2;
    if n == 0 {
      Pow2Zero();
      ZeroOr(hi);
    } else {
      Pow2Step(n);
      OrAbove(x / 2, hi, n - 1);
      Halves(hi, Pow2(n - 1), 0);
      OrStep(x, hi * Pow2(n));
    }
  }

  lemma ZeroOr(y: nat)
    ensures Or(0, y) == y
  {
  }

  lemma Halves(hi: nat, m: nat, lo: nat)
    ensures (hi * (2 * m) + lo) % 2 == lo % 2 && (hi * (2 * m) + lo) / 2 == hi * m + lo / 2
  {
    assert hi * (2 * m) == 2 * (hi * m);
  }

  lemma {:induction false} Pow2Sum(a: nat, b: nat)
    ensures Pow2(a + b) == Pow2(a) * Pow2(b)
    decreases b
  {
    if b > 0 {
      Pow2Sum(a, b - 1);
    }
  }

  lemma MulLe(a: nat, b: nat, c: nat)
    requires a <= b
    ensures a * c <= b * c
  {
  }
}
