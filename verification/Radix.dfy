/**
 Positional notation in any base, and conversion between two bases that keeps leading
 zeros: the arithmetic behind Base58.
 */
module Radix {
  import opened Nat

  function Pow(b: nat, n: nat): (p: nat)
    ensures b > 0 ==> p > 0
  {
    if n == 0 then 1 else b * Pow(b, n - 1)
  }

  /** The number written by digits, most significant first. */
  function Val(b: nat, s: seq<nat>): nat {
    if s == [] then 0 else Val(b, s[..|s| - 1]) * b + s[|s| - 1]
  }

  /** The digits of a number without leading zeros. */
  function Digits(b: nat, v: nat): (s: seq<nat>)
    requires b >= 2
    ensures Val(b, s) == v && IsDigits(b, s) && (s != [] ==> s[0] != 0)
  {
    if v == 0 then [] else
      DivSplit(v, b);
      var rest := Digits(b, v / b);
      ValSnoc(b, rest, v % b);
      rest + [v % b]
  }

  lemma ValSnoc(b: nat, s: seq<nat>, d: nat)
    ensures Val(b, s + [d]) == Val(b, s) * b + d
  {
    assert (s + [d])[..|s|] == s;
  }

  predicate IsDigits(b: nat, s: seq<nat>) {
    forall i :: 0 <= i < |s| ==> s[i] < b
  }

  /** How many zeros a sequence starts with. */
  function Leading(s: seq<nat>): (n: nat)
    ensures n <= |s| && (forall i :: 0 <= i < n ==> s[i] == 0) && (n < |s| ==> s[n] != 0)
  {
    if s == [] || s[0] != 0 then 0 else 1 + Leading(s[1..])
  }

  function Zeros(n: nat): (s: seq<nat>)
    ensures |s| == n && forall i :: 0 <= i < n ==> s[i] == 0
  {
    seq(n, _ => 0)
  }

  /** Rewrites digits from one base to another, keeping each leading zero. */
  function Convert(from: nat, to: nat, s: seq<nat>): seq<nat>
    requires to >= 2
  {
    var z := Leading(s);
    Zeros(z) + Digits(to, Val(from, s[z..]))
  }

  // ----- arithmetic -----

  lemma DivSplit(v: nat, b: nat)
    requires b >= 2
    ensures v == (v / b) * b + v % b && 0 <= v / b && (v > 0 ==> v / b < v)
  {
    var q := v / b;
    Euclid(v, b);
    QuotientNonNegative(v, b);
    MulMonotone(2, b, q);
  }

  /** Digits without a leading zero are the digits of their number. */
  lemma {:induction false} DigitsUnique(b: nat, s: seq<nat>)
    requires b >= 2 && IsDigits(b, s) && (s != [] ==> s[0] != 0)
    ensures s == Digits(b, Val(b, s))
  {
    if s != [] {
      var k := |s| - 1;
      DivMod(Val(b, s), Val(b, s[..k]), b, s[k]);
      DigitsUnique(b, s[..k]);
      assert s == s[..k] + [s[k]];
      PositiveVal(b, s);
    }
  }

  lemma {:induction false} PositiveVal(b: nat, s: seq<nat>)
    requires b > 0 && s != [] && s[0] != 0
    ensures Val(b, s) > 0
  {
    if |s| > 1 {
      PositiveVal(b, s[..|s| - 1]);
      assert Val(b, s[..|s| - 1]) * b > 0;
    }
  }

  /** Converting there and back gives the digits one started from. */
  lemma ConvertBack(from: nat, to: nat, s: seq<nat>)
    requires from >= 2 && to >= 2 && IsDigits(from, s)
    ensures Convert(to, from, Convert(from, to, s)) == s
  {
    var z := Leading(s);
    var v := Val(from, s[z..]);
    var d := Digits(to, v);
    var t := Zeros(z) + d;
    LeadingOf(z, d);
    assert t[z..] == d;
    DigitsUnique(from, s[z..]);
    assert s == Zeros(z) + s[z..];
  }

  lemma {:induction false} LeadingOf(z: nat, d: seq<nat>)
    requires d != [] ==> d[0] != 0
    ensures Leading(Zeros(z) + d) == z
  {
    if z > 0 {
      assert (Zeros(z) + d)[1..] == Zeros(z - 1) + d;
      LeadingOf(z - 1, d);
    } else {
      assert Zeros(0) + d == d;
    }
  }

  lemma ConvertDigits(from: nat, to: nat, s: seq<nat>)
    requires to >= 2
    ensures IsDigits(to, Convert(from, to, s))
  {
  }

  // ----- powers and buffer sizes -----

  lemma {:induction false} PowAdd(b: nat, m: nat, n: nat)
    ensures Pow(b, m + n) == Pow(b, m) * Pow(b, n)
  {
    if n > 0 {
      PowAdd(b, m, n - 1);
      assert m + n - 1 == m + (n - 1);
      Swap(Pow(b, m), b, Pow(b, n - 1));
    }
  }

  lemma Swap(x: nat, y: nat, z: nat)
    ensures x * (y * z) == y * (x * z)
  {
  }

  lemma {:induction false} PowPow(b: nat, m: nat, n: nat)
    ensures Pow(b, m * n) == Pow(Pow(b, m), n)
  {
    if n == 0 {
      assert m * 0 == 0;
    } else {
      PowPow(b, m, n - 1);
      assert m * n == m + m * (n - 1);
      PowAdd(b, m, m * (n - 1));
    }
  }

  /** Powers preserve order, strictly when the exponent is positive. */
  lemma {:induction false} PowMonotone(a: nat, b: nat, n: nat)
    requires a <= b
    ensures Pow(a, n) <= Pow(b, n)
  {
    if n > 0 {
      PowMonotone(a, b, n - 1);
      Product(a, b, Pow(a, n - 1), Pow(b, n - 1));
    }
  }

  lemma Product(a: nat, b: nat, x: nat, y: nat)
    requires a <= b && x <= y
    ensures a * x <= b * y
  {
    assert b * y == a * x + a * (y - x) + (b - a) * y;
  }

  lemma StrictProduct(a: nat, b: nat, x: nat, y: nat)
    requires a <= b && 0 < a && x < y
    ensures a * x < b * y
  {
    Product(a, b, x + 1, y);
    assert a * (x + 1) == a * x + a;
  }

  lemma {:induction false} PowGrows(b: nat, m: nat, n: nat)
    requires b >= 2 && m < n
    ensures Pow(b, m) < Pow(b, n)
  {
    if n > m + 1 {
      PowGrows(b, m, n - 1);
    }
    var p := Pow(b, n - 1);
    assert Pow(b, n) == b * p;
    hide Pow;
    Product(2, b, p, p);
  }

  /**
   A buffer of n * p / q + 1 digits of base b holds every number of n digits of base a, for
   every n, as soon as a^q < b^p.
   */
  lemma BufferSuffices(a: nat, b: nat, p: nat, q: nat, n: nat)
    requires a >= 2 && b >= 2 && q > 0 && Pow(a, q) < Pow(b, p)
    ensures Pow(a, n) < Pow(b, n * p / q + 1)
  {
    var k := n * p / q;
    QuotientRange(n * p, q);
    PowPow(a, n, q);
    PowPow(a, q, n);
    PowPow(b, p, n);
    PowPow(b, k + 1, q);
    assert n * q == q * n && p * n == n * p;
    PowMonotone(Pow(a, q), Pow(b, p), n);
    PowGrows(b, p * n, (k + 1) * q);
    var x, y := Pow(a, n), Pow(b, k + 1);
    assert Pow(x, q) < Pow(y, q);
    PowReflects(x, y, q);
  }

  lemma PowReflects(x: nat, y: nat, q: nat)
    requires Pow(x, q) < Pow(y, q)
    ensures x < y
  {
    if y <= x {
      PowMonotone(y, x, q);
    }
  }

  lemma QuotientRange(m: nat, q: nat)
    requires q > 0
    ensures 0 <= m / q && m < (m / q + 1) * q
  {
    Euclid(m, q);
    QuotientNonNegative(m, q);
    Distribute(q, m / q, 1);
  }
}
