/**
 Small facts about products, quotients and remainders.
 */
module Nat {
  function Pow2(n: nat): (p: nat)
    ensures p >= 1
  {
    if n == 0 then 1 else 2 * Pow2(n - 1)
  }

  function Quotient(a: nat, b: nat): nat
    requires b > 0
  {
    QuotientNonNegative(a, b);
    a / b
  }

  function Remainder(a: nat, b: nat): (r: nat)
    requires b > 0
    ensures r < b
  {
    a % b
  }

  /** A quotient and remainder are known by what they add up to. */
  lemma DivMod(a: nat, q: nat, m: nat, r: nat)
    requires a == q * m + r && r < m
    ensures a / m == q && a % m == r
  {
    var d := a / m - q;
    assert m * d == r - a % m by {
      assert a == m * (a / m) + a % m;
    }
    SmallMultiple(m, d);
  }

  lemma SmallMultiple(m: int, d: int)
    requires m > 0 && -m < m * d < m
    ensures d == 0
  {
    AtLeastOnce(m, d);
  }

  lemma AtLeastOnce(m: int, d: int)
    requires m > 0
    ensures (d >= 1 ==> m * d >= m) && (d <= -1 ==> m * d <= -m)
  {
    if d >= 1 {
      assert m * d == m + m * (d - 1);
    } else if d <= -1 {
      assert m * d == -m + m * (d + 1);
    }
  }

  lemma ModShift(a: nat, q: nat, m: nat)
    requires m > 0
    ensures (a + q * m) % m == a % m
  {
    var k := a / m;
    assert a + q * m == (k + q) * m + a % m by {
      assert a == k * m + a % m;
      assert (k + q) * m == k * m + q * m;
    }
    DivMod(a + q * m, k + q, m, a % m);
  }

  lemma Distribute(a: int, b: int, c: int)
    ensures a * (b + c) == a * b + a * c && (b + c) * a == a * b + a * c
  {
  }

  lemma MulMonotone(a: nat, b: nat, c: nat)
    requires a <= b
    ensures a * c <= b * c
  {
    assert b * c == a * c + (b - a) * c;
  }

  lemma QuotientNonNegative(x: nat, m: nat)
    requires m > 0
    ensures x / m >= 0
  {
    assert x == m * (x / m) + x % m;
    AtLeastOnce(m, x / m);
  }

  lemma FactorBelow(h: nat, p: nat, q: nat)
    requires h * q < p * q
    ensures h < p && q > 0
  {
    if q > 0 {
      assert q * (h - p) == h * q - p * q;
      AtLeastOnce(q, h - p);
    }
  }

  lemma Euclid(n: nat, m: nat)
    requires m > 0
    ensures n == (n / m) * m + n % m
  {
  }

  /** A remainder read off a sum of three multiples. */
  lemma ModOfSum(n: nat, x: nat, y: nat, z: nat, m: nat, r: nat)
    requires n == x * m + y * m + z * m + r && r < m
    ensures n % m == r && n / m == x + y + z
  {
    assert (x + y + z) * m == x * m + y * m + z * m;
    DivMod(n, x + y + z, m, r);
  }

  lemma QuotientSmall(x: nat, p: nat, q: nat)
    requires p > 0 && x < p * q
    ensures 0 <= x / p < q
  {
    Euclid(x, p);
    QuotientNonNegative(x, p);
    FactorBelow(x / p, q, p);
  }
}
