/**
 Little-endian numbers in base 2^32 and the arithmetic facts the limb loops rest on.
 */
module Limbs {
  import opened Nat

  const LIMB := 0x1_0000_0000

  /** LIMB to the n-th power. */
  function Base(n: nat): (p: nat)
    ensures p >= 1
  {
    if n == 0 then 1 else LIMB * Base(n - 1)
  }

  /** The number held in the first n limbs. */
  function Value(s: seq<nat>, n: nat): nat
    requires n <= |s|
  {
    if n == 0 then 0 else Value(s, n - 1) + s[n - 1] * Base(n - 1)
  }

  ghost predicate IsLimbs(s: seq<nat>) {
    |s| == 8 && forall i :: 0 <= i < 8 ==> s[i] < LIMB
  }

  /** A right shift of a word. */
  function Shr(x: nat, s: nat): (r: nat) {
    QuotientNonNegative(x, Pow2(s));
    x / Pow2(s)
  }

  /** A left shift of a 32-bit word; bits above the width are lost. */
  function Shl32(x: nat, s: nat): (r: nat)
    ensures r < LIMB
  {
    (x * Pow2(s)) % LIMB
  }

  // ----- powers -----

  lemma {:induction false} Pow2Add(a: nat, b: nat)
    ensures Pow2(a + b) == Pow2(a) * Pow2(b)
  {
    if b > 0 {
      Pow2Add(a, b - 1);
      assert a + b - 1 == a + (b - 1);
      assert Pow2(a) * (2 * Pow2(b - 1)) == 2 * (Pow2(a) * Pow2(b - 1));
    }
  }

  lemma {:induction false} Pow2Monotone(a: nat, b: nat)
    requires a <= b
    ensures Pow2(a) <= Pow2(b)
  {
    if a < b {
      Pow2Monotone(a, b - 1);
    }
  }

  lemma Pow2Limb()
    ensures Pow2(8) == 256 && Pow2(16) == 0x10000 && Pow2(32) == LIMB
  {
    assert Pow2(8) == 256;
    Pow2Add(8, 8);
    Pow2Add(16, 16);
  }

  lemma {:induction false} BaseIsPow2(n: nat)
    ensures Base(n) == Pow2(32 * n)
  {
    if n > 0 {
      BaseIsPow2(n - 1);
      Pow2Add(32, 32 * (n - 1));
      assert 32 + 32 * (n - 1) == 32 * n;
      Pow2Limb();
    }
  }

  lemma {:induction false} BaseAdd(a: nat, b: nat)
    ensures Base(a + b) == Base(a) * Base(b)
  {
    if b > 0 {
      BaseAdd(a, b - 1);
      assert a + b - 1 == a + (b - 1);
      assert Base(a) * (LIMB * Base(b - 1)) == LIMB * (Base(a) * Base(b - 1));
    }
  }

  // ----- values -----

  lemma ValueSnoc(s: seq<nat>, n: nat)
    requires n < |s|
    ensures Value(s, n + 1) == Value(s, n) + s[n] * Base(n)
  {
  }

  lemma BaseSucc(n: nat)
    ensures Base(n + 1) == LIMB * Base(n)
  {
  }

  lemma {:induction false} ValueBound(s: seq<nat>, n: nat)
    requires n <= |s| && forall i :: 0 <= i < n ==> s[i] < LIMB
    ensures Value(s, n) < Base(n)
  {
    if n > 0 {
      ValueBound(s, n - 1);
      var p := Base(n - 1);
      MulMonotone(s[n - 1], LIMB - 1, p);
    }
  }

  lemma {:induction false} ValueSame(s: seq<nat>, t: seq<nat>, n: nat)
    requires n <= |s| && n <= |t| && forall i :: 0 <= i < n ==> s[i] == t[i]
    ensures Value(s, n) == Value(t, n)
  {
    if n > 0 {
      ValueSame(s, t, n - 1);
    }
  }

  lemma {:induction false} ValueZero(s: seq<nat>, n: nat)
    requires n <= |s|
    ensures Value(s, n) == 0 <==> forall i :: 0 <= i < n ==> s[i] == 0
  {
    if n > 0 {
      ValueZero(s, n - 1);
      var p := Base(n - 1);
      assert s[n - 1] > 0 ==> s[n - 1] * p > 0;
    }
  }

  /** Changing one limb changes the value by that limb's weight. */
  lemma {:induction false} ValueUpdate(s: seq<nat>, n: nat, i: nat, x: nat)
    requires i < n <= |s|
    ensures Value(s[i := x], n) + s[i] * Base(i) == Value(s, n) + x * Base(i)
  {
    if i == n - 1 {
      ValueSame(s, s[i := x], i);
    } else {
      ValueUpdate(s, n - 1, i, x);
    }
  }

  /** The limbs above the first k, as a number of their own. */
  lemma {:induction false} ValueSplit(s: seq<nat>, k: nat, n: nat)
    requires k <= n <= |s|
    ensures Value(s, n) == Value(s, k) + Base(k) * Value(s[k..], n - k)
  {
    if n > k {
      ValueSplit(s, k, n - 1);
      BaseAdd(k, n - 1 - k);
      assert s[k..][n - 1 - k] == s[n - 1];
      Regroup(Base(k), Value(s[k..], n - 1 - k), s[n - 1], Base(n - 1 - k));
      hide Value, Base;
    }
  }

  lemma Regroup(p: int, v: int, x: int, q: int)
    ensures p * (v + x * q) == p * v + x * (p * q)
  {
    Distribute(p, v, x * q);
    assert p * (x * q) == x * (p * q);
  }

  /** Numbers compare as their highest differing limbs do. */
  lemma ValueOrder(s: seq<nat>, t: seq<nat>, i: nat)
    requires IsLimbs(s) && IsLimbs(t) && i < 8 && s[i] < t[i] && forall j :: i < j < 8 ==> s[j] == t[j]
    ensures Value(s, 8) < Value(t, 8)
  {
    ValueBound(s, i);
    var p := Base(i);
    assert Value(s, i + 1) == Value(s, i) + s[i] * p;
    assert Value(t, i + 1) == Value(t, i) + t[i] * p;
    MulMonotone(s[i] + 1, t[i], p);
    assert (s[i] + 1) * p == s[i] * p + p;
    OrderLift(s, t, i + 1, 8);
  }

  lemma {:induction false} OrderLift(s: seq<nat>, t: seq<nat>, i: nat, n: nat)
    requires i <= n <= |s| && n <= |t| && Value(s, i) < Value(t, i) && forall j :: i <= j < n ==> s[j] == t[j]
    ensures Value(s, n) < Value(t, n)
  {
    if n > i {
      OrderLift(s, t, i, n - 1);
    }
  }

  // ----- bitwise or -----

  /** Bitwise or of two non-negative numbers. */
  function Or(x: nat, y: nat): nat {
    if x == 0 then y else (if x % 2 == 1 || y % 2 == 1 then 1 else 0) + 2 * Or(x / 2, y / 2)
  }

  /** When the operands share no bit, or is addition. */
  lemma {:induction false} OrIsAdd(x: nat, y: nat, s: nat)
    requires x < Pow2(s) && y % Pow2(s) == 0
    ensures Or(x, y) == x + y
    decreases s
  {
    if x != 0 && s > 0 {
      var p := Pow2(s - 1);
      var q := y / (2 * p);
      assert y == 2 * (p * q) by {
        assert y == (2 * p) * q;
        assert (2 * p) * q == 2 * (p * q);
      }
      DivMod(y / 2, q, p, 0);
      OrIsAdd(x / 2, y / 2, s - 1);
    }
  }
}
