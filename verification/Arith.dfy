/**
 256-bit unsigned integers held in eight 32-bit limbs (src/arith_uint256.h and
 src/arith_uint256.cpp).  Every operator is proved against the number the limbs stand for.
 */
module Arith {
  import opened Nat
  import opened Limbs

  /** 2^256. */
  function Modulus(): (m: nat)
    ensures m == Base(8) && m > 0
  {
    Base(8)
  }

  function Val(s: seq<nat>): (v: nat)
    requires IsLimbs(s)
    ensures v < Modulus()
  {
    ValueBound(s, 8);
    Value(s, 8)
  }

  // ----- addition -----

  /** One column of the addition: what is written and what is carried. */
  lemma AddStep(vs: nat, va: nat, vb: nat, p: nat, carry: nat, x: nat, y: nat)
    requires vs + carry * p == va + vb
    ensures var n := carry + x + y;
            (vs + (n % LIMB) * p) + (n / LIMB) * (LIMB * p) == (va + x * p) + (vb + y * p)
  {
    var n := carry + x + y;
    assert n == n % LIMB + LIMB * (n / LIMB);
    var lo, hi := n % LIMB, n / LIMB;
    assert n * p == lo * p + hi * (LIMB * p);
    assert n * p == carry * p + x * p + y * p;
  }

  /** The low limbs of a sum, whatever the last carry. */
  lemma SumMod(vs: nat, carry: nat, total: nat)
    requires vs < Modulus() && vs + carry * Base(8) == total
    ensures vs == total % Modulus()
  {
    hide Base;
    ModShift(vs, carry, Base(8));
    DivMod(vs, 0, Base(8), vs);
  }

  // ----- multiplication -----

  /** One column of the product: row `a`, limb `y`, at the column of weight w = q * r. */
  lemma MulStep(vs: nat, vx: nat, a: nat, vb: nat, q: nat, r: nat, carry: nat, x: nat, y: nat)
    requires vs + carry * (q * r) == vx + a * (vb * q)
    ensures var n := carry + x + a * y;
            (vs + (n % LIMB) * (q * r)) + (n / LIMB) * (LIMB * (q * r)) == (vx + x * (q * r)) + a * ((vb + y * r) * q)
  {
    var n, w := carry + x + a * y, q * r;
    var lo, hi := n % LIMB, n / LIMB;
    assert n == lo + LIMB * hi;
    assert n * w == lo * w + hi * (LIMB * w);
    assert n * w == carry * w + x * w + (a * y) * w by {
      Distribute(w, carry + x, a * y);
      Distribute(w, carry, x);
    }
    assert a * ((vb + y * r) * q) == a * (vb * q) + (a * y) * w by {
      assert (vb + y * r) * q == vb * q + y * w;
      Distribute(a, vb * q, y * w);
      assert a * (y * w) == (a * y) * w;
    }
  }

  lemma ColumnFits(carry: nat, x: nat, a: nat, y: nat)
    requires carry < LIMB && x < LIMB && a < LIMB && y < LIMB
    ensures Column(carry, x, a, y) < LIMB * LIMB
    ensures Column(carry, x, a, y) / LIMB < LIMB
    ensures y == 0 ==> a * y == 0
  {
    MulMonotone(a, LIMB - 1, y);
    assert a * y <= (LIMB - 1) * (LIMB - 1);
  }

  /** Adding one row of the product: limbs of b beyond the width do not matter. */
  lemma RowMod(vs: nat, carry: nat, vx: nat, a: nat, b: seq<nat>, j: nat, done: nat)
    requires IsLimbs(b) && j < 8 && vs < Modulus()
    requires vs + carry * Base(8) == vx + a * (Value(b, 8 - j) * Base(j))
    requires vx == (done * Value(b, 8)) % Modulus()
    ensures vs == ((done + a * Base(j)) * Value(b, 8)) % Modulus()
  {
    ValueSplit(b, 8 - j, 8);
    BaseAdd(8 - j, j);
    hide Value, Base;
    RowArith(vs, carry, vx, a, done, Value(b, 8), Value(b, 8 - j), Base(8 - j), Value(b[8 - j..], j), Base(j), Base(8));
  }

  lemma RowArith(vs: nat, carry: nat, vx: nat, a: nat, done: nat, all: nat, lo: nat, r: nat, hi: nat, q: nat, m: nat)
    requires vs < m && all == lo + r * hi && m == r * q
    requires vs + carry * m == vx + a * (lo * q) && vx == (done * all) % m
    ensures vs == ((done + a * q) * all) % m
  {
    RowSplit(all, lo, r, hi, q, m, a);
    Euclid(done * all, m);
    RowJoin(done, a, q, all);
    ModOfSum((done + a * q) * all, carry, (done * all) / m, a * hi, m, vs);
  }

  lemma RowJoin(done: nat, a: nat, q: nat, all: nat)
    ensures (done + a * q) * all == done * all + a * (all * q)
  {
    Distribute(all, done, a * q);
    assert all * (a * q) == a * (all * q);
  }

  lemma RowSplit(all: nat, lo: nat, r: nat, hi: nat, q: nat, m: nat, a: nat)
    requires all == lo + r * hi && m == r * q
    ensures a * (all * q) == a * (lo * q) + (a * hi) * m
  {
    assert (r * hi) * q == hi * m;
    Distribute(q, lo, r * hi);
    Distribute(a, lo * q, hi * m);
    assert a * (hi * m) == (a * hi) * m;
  }

  // ----- shifts -----

  /** Limb m of a number shifted left by k limbs and s bits. */
  function ShlLimb(a: seq<nat>, k: nat, s: nat, m: nat): nat
    requires |a| == 8 && m < 8
  {
    if m < k then 0
    else Shl32(a[m - k], s) + Spill(a, s, m - k - 1)
  }

  /** What limb i pushes over its upper edge. */
  function Spill(a: seq<nat>, s: nat, i: int): nat
    requires i < |a|
  {
    if i < 0 then 0 else a[i] * Pow2(s) / LIMB
  }

  /** The code finds the spill by shifting the other way. */
  lemma SpillIsShr(a: seq<nat>, s: nat, i: nat)
    requires IsLimbs(a) && i < 8 && s < 32
    ensures Spill(a, s, i) == (if s != 0 then Shr(a[i], 32 - s) else 0) < Pow2(s)
  {
    Pow2Add(s, 32 - s);
    Pow2Limb();
    if s == 0 {
      assert Pow2(0) == 1;
      assert a[i] / LIMB == 0;
    } else {
      hide Pow2;
      SpillArith(a[i], Pow2(s), Pow2(32 - s));
    }
  }

  lemma SpillArith(x: nat, p: nat, q: nat)
    requires p > 0 && q > 0 && p * q == LIMB && x < LIMB
    ensures x * p / LIMB == x / q < p
  {
    var h, l := x / q, x % q;
    Euclid(x, q);
    Distribute(p, h * q, l);
    assert (h * q) * p == h * (p * q);
    MulMonotone(l + 1, q, p);
    Distribute(p, l, 1);
    DivMod(x * p, h, p * q, l * p);
    FactorBelow(h, p, q);
  }

  lemma {:induction false} ShlValue(a: seq<nat>, t: seq<nat>, k: nat, s: nat, m: nat)
    requires |a| == |t| == 8 && k <= m <= 8 && forall i :: 0 <= i < 8 ==> t[i] == ShlLimb(a, k, s, i)
    ensures Value(t, m) + Spill(a, s, m - k - 1) * Base(m) == (Value(a, m - k) * Pow2(s)) * Base(k)
  {
    hide Value, Base, Pow2;
    if m == k {
      ShlLow(a, t, k, s);
      hide ShlLimb, Spill;
      ZeroTimes(Pow2(s), Base(k));
    } else {
      var i := m - 1 - k;
      ShlValue(a, t, k, s, m - 1);
      BaseAdd(i, k);
      BaseSucc(m - 1);
      ValueSnoc(t, m - 1);
      ValueSnoc(a, i);
      assert t[m - 1] == ShlLimb(a, k, s, m - 1) == Shl32(a[i], s) + Spill(a, s, i - 1);
      assert Spill(a, s, i) == a[i] * Pow2(s) / LIMB;
      hide ShlLimb, Spill;
      ShlStep(Value(t, m - 1), Spill(a, s, i - 1), Value(a, i), a[i], Pow2(s), Base(i), Base(k));
    }
  }

  lemma ShlLow(a: seq<nat>, t: seq<nat>, k: nat, s: nat)
    requires |a| == |t| == 8 && k <= 8 && forall i :: 0 <= i < 8 ==> t[i] == ShlLimb(a, k, s, i)
    ensures Value(t, k) == Spill(a, s, -1) == Value(a, 0) == 0
  {
    hide Pow2, Base;
    ValueZero(t, k);
  }

  lemma ZeroTimes(x: nat, y: nat)
    ensures 0 * x == 0 && (0 * x) * y == 0 && 0 * y == 0
  {
  }

  lemma ShlStep(vt: nat, spill: nat, va: nat, x: nat, p: nat, r: nat, q: nat)
    requires vt + spill * (r * q) == (va * p) * q
    ensures vt + ((x * p) % LIMB + spill) * (r * q) + (x * p / LIMB) * (LIMB * (r * q)) == ((va + x * r) * p) * q
  {
    var w, n := r * q, x * p;
    var lo, hi := n % LIMB, n / LIMB;
    assert n == lo + LIMB * hi;
    assert n * w == lo * w + hi * (LIMB * w);
    assert (lo + spill) * w == lo * w + spill * w;
    assert ((va + x * r) * p) * q == (va * p) * q + n * w by {
      Distribute(p, va, x * r);
      Distribute(q, va * p, (x * r) * p);
      assert ((x * r) * p) * q == n * w;
    }
  }

  /** A left shift multiplies by a power of two, modulo 2^256. */
  lemma ShlIsProduct(a: seq<nat>, t: seq<nat>, k: nat, s: nat)
    requires IsLimbs(a) && IsLimbs(t) && forall i :: 0 <= i < 8 ==> t[i] == ShlLimb(a, k, s, i)
    ensures Val(t) == (Val(a) * Pow2(32 * k + s)) % Modulus()
  {
    hide Base, Pow2, Value, Spill;
    Pow2Add(32 * k, s);
    BaseIsPow2(k);
    if k >= 8 {
      ValueZero(t, 8);
      BaseAdd(8, k - 8);
      hide ShlLimb;
      Overshift(Val(a), Pow2(s), Base(8), Base(k - 8), Base(k));
    } else {
      ShlValue(a, t, k, s, 8);
      ValueSplit(a, 8 - k, 8);
      BaseAdd(8 - k, k);
      hide ShlLimb;
      ShlWhole(Val(t), Spill(a, s, 7 - k), Base(8), Value(a, 8 - k), Value(a[8 - k..], k), Base(8 - k), Pow2(s), Base(k), Val(a));
    }
  }

  lemma Overshift(v: nat, p: nat, m: nat, r: nat, q: nat)
    requires q == m * r && m > 0
    ensures (v * (q * p)) % m == 0
  {
    assert v * (q * p) == (v * (r * p)) * m;
    DivMod(v * (q * p), v * (r * p), m, 0);
  }

  lemma ShlWhole(vt: nat, spill: nat, m: nat, lo: nat, hi: nat, r: nat, p: nat, q: nat, v: nat)
    requires vt < m && vt + spill * m == (lo * p) * q && v == lo + r * hi && m == r * q
    ensures vt == (v * (q * p)) % m
  {
    ShlProducts(m, lo, hi, r, p, q, v);
    ModOfSum(v * (q * p), spill, hi * p, 0, m, vt);
  }

  lemma ShlProducts(m: nat, lo: nat, hi: nat, r: nat, p: nat, q: nat, v: nat)
    requires v == lo + r * hi && m == r * q
    ensures v * (q * p) == (lo * p) * q + (hi * p) * m
  {
    Distribute(q * p, lo, r * hi);
    assert lo * (q * p) == (lo * p) * q;
    assert (r * hi) * (q * p) == (hi * p) * m;
  }

  /** Limb m of a number shifted right by k limbs and s bits. */
  function ShrLimb(a: seq<nat>, k: nat, s: nat, m: nat): nat
    requires |a| == 8 && s < 32
  {
    if m + k >= 8 then 0
    else Shr(a[m + k], s) + if s != 0 && m + k + 1 < 8 then Shl32(a[m + k + 1], 32 - s) else 0
  }

  /** The bits that leave limb i downwards. */
  function Dropped(a: seq<nat>, s: nat, i: nat): (r: nat)
    requires |a| == 8
    ensures r < Pow2(s)
  {
    if i < 8 then a[i] % Pow2(s) else 0
  }

  /** Bits shifted into the limb below are those that leave this one. */
  lemma HandDown(x: nat, s: nat)
    requires s < 32
    ensures s != 0 ==> Shl32(x, 32 - s) * Pow2(s) == (x % Pow2(s)) * LIMB
    ensures s == 0 ==> x % Pow2(s) == 0
  {
    if s == 0 {
      assert Pow2(0) == 1;
    } else {
      Pow2Add(s, 32 - s);
      Pow2Limb();
      hide Pow2;
      HandDownArith(x, Pow2(s), Pow2(32 - s));
    }
  }

  lemma HandDownArith(x: nat, p: nat, q: nat)
    requires p > 0 && q > 0 && p * q == LIMB
    ensures ((x * q) % LIMB) * p == (x % p) * LIMB
  {
    var h, l := x / p, x % p;
    Euclid(x, p);
    assert x * q == h * (p * q) + l * q by {
      Distribute(q, h * p, l);
      assert (h * p) * q == h * (p * q);
    }
    MulMonotone(l + 1, p, q);
    assert (l + 1) * q == l * q + q;
    DivMod(x * q, h, p * q, l * q);
    assert (l * q) * p == l * (p * q);
  }

  lemma ShrOne(a: seq<nat>, k: nat, s: nat, m: nat)
    requires |a| == 8 && s < 32 && m + k < 8
    ensures ShrLimb(a, k, s, m) * Pow2(s) + Dropped(a, s, k + m) == a[k + m] + Dropped(a, s, k + m + 1) * LIMB
  {
    hide Pow2, Shl32;
    Euclid(a[k + m], Pow2(s));
    if m + k + 1 < 8 {
      HandDown(a[m + k + 1], s);
      if s != 0 {
        hide Shr;
        Distribute(Pow2(s), Shr(a[m + k], s), Shl32(a[m + k + 1], 32 - s));
      }
    }
  }

  lemma {:induction false} ShrValue(a: seq<nat>, t: seq<nat>, k: nat, s: nat, m: nat)
    requires |a| == |t| == 8 && s < 32 && k <= 8 && m <= 8 - k && forall i :: 0 <= i < 8 ==> t[i] == ShrLimb(a, k, s, i)
    ensures Value(t, m) * Pow2(s) + Dropped(a, s, k) == Value(a[k..], m) + Dropped(a, s, k + m) * Base(m)
  {
    hide Value, Base, Pow2, Dropped;
    if m == 0 {
      ShrNone(a, t, k, s);
    } else {
      var i := m - 1;
      ShrValue(a, t, k, s, i);
      ShrOne(a, k, s, i);
      assert t[i] == ShrLimb(a, k, s, i) && a[k..][i] == a[k + i];
      hide ShrLimb;
      ValueSnoc(t, i);
      ValueSnoc(a[k..], i);
      BaseSucc(i);
      ShrStep(Value(t, i), Value(a[k..], i), t[i], a[k + i], Pow2(s), Base(i), Dropped(a, s, k + i), Dropped(a, s, k + m));
    }
  }

  lemma ShrNone(a: seq<nat>, t: seq<nat>, k: nat, s: nat)
    requires |a| == |t| == 8 && k <= 8
    ensures Value(t, 0) * Pow2(s) == 0 && Value(a[k..], 0) == 0 && Base(0) == 1
  {
  }

  lemma ShrStep(vt: nat, va: nat, x: nat, y: nat, p: nat, w: nat, r: nat, r': nat)
    requires x * p + r == y + r' * LIMB
    ensures (vt + x * w) * p == vt * p + (x * p) * w
    ensures vt * p + (x * p) * w + r * w == vt * p + y * w + r' * (LIMB * w)
  {
    Distribute(p, vt, x * w);
    assert (x * w) * p == (x * p) * w;
    assert (x * p + r) * w == (x * p) * w + r * w;
    assert (y + r' * LIMB) * w == y * w + r' * (LIMB * w);
  }

  /** A right shift divides by a power of two. */
  lemma ShrIsQuotient(a: seq<nat>, t: seq<nat>, k: nat, s: nat)
    requires IsLimbs(a) && IsLimbs(t) && s < 32 && forall i :: 0 <= i < 8 ==> t[i] == ShrLimb(a, k, s, i)
    ensures Val(t) == Val(a) / Pow2(32 * k + s)
  {
    hide Base, Pow2, Value, Dropped;
    Pow2Add(32 * k, s);
    BaseIsPow2(k);
    if k >= 8 {
      ValueZero(t, 8);
      BaseAdd(8, k - 8);
      hide ShrLimb;
      ShiftedOut(Val(a), Base(8), Base(k - 8), Pow2(s), Base(k));
    } else {
      ShrValue(a, t, k, s, 8 - k);
      assert Dropped(a, s, 8) == 0 by { DroppedEnd(a, s); }
      ShrHigh(a, t, k, s);
      hide ShrLimb;
      ValueSplit(a, k, 8);
      ValueBound(a, k);
      ShrWhole(Val(a), Value(a, k), Value(a[k..], 8 - k), Base(k), Pow2(s), Dropped(a, s, k), Val(t));
    }
  }

  lemma DroppedEnd(a: seq<nat>, s: nat)
    requires |a| == 8
    ensures Dropped(a, s, 8) == 0
  {
  }

  lemma ShrHigh(a: seq<nat>, t: seq<nat>, k: nat, s: nat)
    requires IsLimbs(a) && IsLimbs(t) && s < 32 && k < 8 && forall i :: 0 <= i < 8 ==> t[i] == ShrLimb(a, k, s, i)
    ensures Val(t) == Value(t, 8 - k)
  {
    hide Pow2, Base, Value;
    ValueSplit(t, 8 - k, 8);
    ValueZero(t[8 - k..], k);
    var high := t[8 - k..];
    assert forall i :: 0 <= i < k ==> high[i] == 0;
  }

  lemma ShiftedOut(v: nat, m: nat, r: nat, p: nat, q: nat)
    requires v < m && q == m * r && r >= 1 && p >= 1
    ensures v / (q * p) == 0
  {
    MulMonotone(1, r, m);
    MulMonotone(1, p, q);
    DivMod(v, 0, q * p, v);
  }

  lemma ShrWhole(v: nat, lo: nat, h: nat, q: nat, p: nat, r: nat, vt: nat)
    requires v == lo + q * h && lo < q && vt * p + r == h && r < p
    ensures vt == v / (q * p)
  {
    Distribute(q, vt * p, r);
    assert q * (vt * p) == vt * (q * p);
    MulMonotone(r + 1, p, q);
    Distribute(q, r, 1);
    DivMod(v, vt, q * p, lo + q * r);
  }

  // ----- the highest bit -----

  /** n is the number of binary digits of v. */
  ghost predicate IsBits(v: nat, n: nat) {
    if v == 0 then n == 0 else n > 0 && Pow2(n - 1) <= v < Pow2(n)
  }

  lemma BitsOfLimbs(s: seq<nat>, pos: nat, b: nat)
    requires IsLimbs(s) && pos < 8 && Pow2(b) <= s[pos] < Pow2(b + 1) && forall i :: pos < i < 8 ==> s[i] == 0
    ensures IsBits(Val(s), 32 * pos + b + 1)
  {
    hide Pow2, Base, Value;
    ValueBound(s, pos);
    ValueSplit(s, pos + 1, 8);
    ValueZero(s[pos + 1..], 7 - pos);
    var high := s[pos + 1..];
    assert forall i :: 0 <= i < 7 - pos ==> high[i] == 0;
    ValueSnoc(s, pos);
    BaseIsPow2(pos);
    Pow2Add(32 * pos, b);
    Pow2Add(32 * pos, b + 1);
    assert 32 * pos + (b + 1) == 32 * pos + b + 1;
    BitsArith(Value(s, pos), s[pos], Base(pos), Pow2(b), Pow2(b + 1));
  }

  lemma BitsArith(v: nat, x: nat, w: nat, lo: nat, hi: nat)
    requires v < w && lo <= x < hi
    ensures w * lo <= v + x * w < w * hi
  {
    MulMonotone(lo, x, w);
    MulMonotone(x + 1, hi, w);
    assert (x + 1) * w == x * w + w;
  }

  // ----- words, complements, negation -----

  /** The limbs of a 64-bit word. */
  function WordLimbs(b: nat): (s: seq<nat>)
    requires b < LIMB * LIMB
    ensures IsLimbs(s)
  {
    [b % LIMB, b / LIMB, 0, 0, 0, 0, 0, 0]
  }

  lemma WordValue(b: nat)
    requires b < LIMB * LIMB
    ensures Val(WordLimbs(b)) == b
  {
    var s := WordLimbs(b);
    ValueSplit(s, 2, 8);
    ValueZero(s[2..], 6);
    assert Value(s, 2) == Value(s, 1) + s[1] * Base(1);
    assert Value(s, 1) == Value(s, 0) + s[0] * Base(0);
    assert Base(1) == LIMB * Base(0);
  }

  lemma LowWords(s: seq<nat>)
    requires IsLimbs(s)
    ensures Or(s[0], s[1] * LIMB) == Val(s) % (LIMB * LIMB)
  {
    hide Or;
    Pow2Limb();
    DivMod(s[1] * LIMB, s[1], LIMB, 0);
    OrIsAdd(s[0], s[1] * LIMB, 32);
    ValueSplit(s, 2, 8);
    assert Value(s, 2) == Value(s, 1) + s[1] * Base(1);
    assert Value(s, 1) == Value(s, 0) + s[0] * Base(0);
    assert Base(2) == LIMB * Base(1) && Base(1) == LIMB * Base(0);
    var h := Value(s[2..], 6);
    hide Value, Base;
    DivMod(Val(s), h, LIMB * LIMB, s[0] + s[1] * LIMB);
  }

  lemma NoLimbs(s: seq<nat>, t: seq<nat>, u: seq<nat>)
    ensures Value(s, 0) == Value(t, 0) == Value(u, 0) == 0 && Base(0) == 1
  {
  }

  lemma {:induction false} ComplementValue(s: seq<nat>, t: seq<nat>, n: nat)
    requires |s| == |t| && n <= |s| && forall i :: 0 <= i < n ==> t[i] == LIMB - 1 - s[i]
    ensures Value(s, n) + Value(t, n) == Base(n) - 1
  {
    if n == 0 {
      NoLimbs(s, t, t);
    } else {
      hide Value, Base;
      ComplementValue(s, t, n - 1);
      ValueSnoc(s, n - 1);
      ValueSnoc(t, n - 1);
      BaseSucc(n - 1);
      ComplementStep(s[n - 1], t[n - 1], Base(n - 1));
    }
  }

  lemma ComplementStep(x: nat, y: nat, p: nat)
    requires x + y == LIMB - 1
    ensures x * p + y * p == LIMB * p - p
  {
    assert x * p + y * p == (x + y) * p;
  }

  /** Numbers that agree above limb i differ as their low parts do. */
  lemma {:induction false} SameAbove(s: seq<nat>, t: seq<nat>, i: nat, d: int)
    requires IsLimbs(s) && IsLimbs(t) && i <= 8 && (forall j :: i <= j < 8 ==> s[j] == t[j])
    requires Value(s, i) == Value(t, i) + d
    ensures Value(s, 8) == Value(t, 8) + d
    decreases 8 - i
  {
    if i < 8 {
      ValueSnoc(s, i);
      ValueSnoc(t, i);
      SameAbove(s, t, i + 1, d);
    }
  }

  lemma NegateValue(v: nat, r: nat, m: nat)
    requires v < m && r == (m - 1 - v + 1) % m
    ensures r == (m - v) % m && (r + v) % m == 0
  {
    if v == 0 {
      DivMod(m, 1, m, 0);
      DivMod(0, 0, m, 0);
    } else {
      DivMod(m - v, 0, m, m - v);
      DivMod(m, 1, m, 0);
    }
  }

  lemma SubValue(x: nat, y: nat, m: nat)
    requires x < m && y < m
    ensures (x + (m - y) % m) % m == (x + m - y) % m
    ensures y <= x ==> (x + m - y) % m == x - y
  {
    if y == 0 {
      DivMod(m, 1, m, 0);
      DivMod(x + m, 1, m, x);
      DivMod(x, 0, m, x);
    } else {
      DivMod(m - y, 0, m, m - y);
      if y <= x {
        DivMod(x + m - y, 1, m, x - y);
      }
    }
  }

  // ----- steps of the loops -----

  const ZERO: seq<nat> := [0, 0, 0, 0, 0, 0, 0, 0]

  lemma ZeroValue()
    ensures IsLimbs(ZERO) && Val(ZERO) == 0
  {
    ValueZero(ZERO, 8);
  }

  lemma ZeroMod(v: nat, m: nat)
    requires m > 0
    ensures (0 * v) % m == 0
  {
    assert 0 * v == 0;
  }

  /** Columns below i hold the product of a word and a number, up to the carry. */
  ghost predicate WordDone(s: seq<nat>, x: seq<nat>, a: nat, i: nat, carry: nat)
    requires i <= |s| && i <= |x|
  {
    Value(s, i) + carry * Base(i) == a * Value(x, i)
  }

  lemma WordStart(x: seq<nat>, a: nat)
    ensures WordDone(x, x, a, 0, 0)
  {
  }

  lemma WordColumn(s: seq<nat>, x: seq<nat>, a: nat, i: nat, carry: nat, n: nat)
    requires |s| == |x| == 8 && i < 8 && WordDone(s, x, a, i, carry) && n == carry + a * x[i]
    ensures var low: nat := n % LIMB; WordDone(s[i := low], x, a, i + 1, n / LIMB)
  {
    hide Value, Base;
    var low: nat := n % LIMB;
    ValueSame(s, s[i := low], i);
    ValueSnoc(s[i := low], i);
    ValueSnoc(x, i);
    BaseSucc(i);
    WordStep(Value(s, i), Value(x, i), a, Base(i), carry, x[i]);
  }

  lemma WordStep(vs: nat, vx: nat, a: nat, p: nat, carry: nat, x: nat)
    requires vs + carry * p == a * vx
    ensures var n := carry + a * x;
            (vs + (n % LIMB) * p) + (n / LIMB) * (LIMB * p) == a * (vx + x * p)
  {
    var n := carry + a * x;
    var lo, hi := n % LIMB, n / LIMB;
    assert n * p == lo * p + hi * (LIMB * p);
    Distribute(p, carry, a * x);
    Distribute(a, vx, x * p);
    assert a * (x * p) == (a * x) * p;
  }

  lemma WordEnd(s: seq<nat>, x: seq<nat>, a: nat, carry: nat)
    requires IsLimbs(s) && IsLimbs(x) && WordDone(s, x, a, 8, carry)
    ensures Val(s) == (Val(x) * a) % Modulus()
  {
    hide Value, Base;
    SumMod(Val(s), carry, Val(x) * a);
  }

  /** What one column of a row adds up to. */
  function Column(carry: nat, x: nat, a: nat, y: nat): nat {
    carry + x + a * y
  }

  /** Columns below i + j hold the number and the part of row j done so far, up to the carry. */
  ghost predicate RowDone(s: seq<nat>, x: seq<nat>, y: seq<nat>, a: nat, i: nat, j: nat, carry: nat)
    requires i + j <= |s| && i + j <= |x| && i <= |y|
  {
    Value(s, i + j) + carry * Base(i + j) == Value(x, i + j) + a * (Value(y, i) * Base(j))
  }

  lemma RowStart(x: seq<nat>, y: seq<nat>, a: nat, j: nat)
    requires j <= |x|
    ensures RowDone(x, x, y, a, 0, j, 0)
  {
    hide Base;
    ZeroTimes(Base(j), a);
  }

  lemma RowColumn(s: seq<nat>, x: seq<nat>, y: seq<nat>, a: nat, i: nat, j: nat, carry: nat, n: nat)
    requires |s| == |x| == |y| == 8 && i + j < 8 && s[i + j] == x[i + j] && n == Column(carry, x[i + j], a, y[i])
    requires RowDone(s, x, y, a, i, j, carry)
    ensures var low: nat := n % LIMB; RowDone(s[i + j := low], x, y, a, i + 1, j, n / LIMB)
  {
    hide Value, Base;
    var low: nat := n % LIMB;
    var t := s[i + j := low];
    ValueSame(s, t, i + j);
    ValueSnoc(t, i + j);
    ValueSnoc(x, i + j);
    ValueSnoc(y, i);
    BaseSucc(i + j);
    BaseAdd(j, i);
    assert j + i == i + j && i + 1 + j == i + j + 1;
    MulStep(Value(s, i + j), Value(x, i + j), a, Value(y, i), Base(j), Base(i), carry, x[i + j], y[i]);
  }

  lemma ShlStart(a: seq<nat>, k: nat, s: nat)
    requires |a| == 8
    ensures Spill(a, s, -1) == 0 && forall m :: 0 <= m < 8 && m < k ==> ShlLimb(a, k, s, m) == 0
  {
  }

  /** The words written by step i of the left shift. */
  lemma ShlLimbs(a: seq<nat>, k: nat, s: nat, i: nat)
    requires IsLimbs(a) && i < 8 && s < 32
    ensures Spill(a, s, i) == (if s != 0 then Shr(a[i], 32 - s) else 0) < LIMB
    ensures s != 0 ==> Or(Shr(a[i], 32 - s), 0) == Shr(a[i], 32 - s)
    ensures i + k < 8 ==>
              var spill := Spill(a, s, i - 1);
              Or(spill, Shl32(a[i], s)) == ShlLimb(a, k, s, i + k) < LIMB
  {
    SpillIsShr(a, s, i);
    OrZero(Shr(a[i], 32 - s));
    Pow2Limb();
    Pow2Monotone(s, 32);
    if i + k < 8 {
      if i > 0 {
        SpillIsShr(a, s, i - 1);
      }
      Aligned(a[i], s);
      hide Or, Pow2, Shl32, Shr;
      OrIsAdd(Spill(a, s, i - 1), Shl32(a[i], s), s);
      SumFits(Spill(a, s, i - 1), Shl32(a[i], s), s);
    }
  }

  lemma {:induction false} OrZero(x: nat)
    ensures Or(x, 0) == x
  {
    if x != 0 {
      OrZero(x / 2);
    }
  }

  /** A word shifted left by s has s zero bits. */
  lemma Aligned(x: nat, s: nat)
    requires s <= 32
    ensures Shl32(x, s) % Pow2(s) == 0
  {
    Pow2Add(s, 32 - s);
    Pow2Limb();
    hide Pow2;
    AlignedArith(x, Pow2(s), Pow2(32 - s));
  }

  lemma AlignedArith(x: nat, p: nat, q: nat)
    requires p > 0 && q > 0 && p * q == LIMB
    ensures ((x * p) % LIMB) % p == 0
  {
    var h := x * p / LIMB;
    Euclid(x * p, LIMB);
    var r := (x * p) % LIMB;
    assert h * LIMB == (h * q) * p by {
      assert h * (p * q) == (h * q) * p;
    }
    assert r == (x - h * q) * p by {
      Distribute(p, x, -(h * q));
    }
    if x < h * q {
      AtLeastOnce(p, x - h * q);
    }
    DivMod(r, x - h * q, p, 0);
  }

  /** Below the alignment there is room for whatever fits. */
  lemma SumFits(x: nat, y: nat, s: nat)
    requires s <= 32 && x < Pow2(s) && y % Pow2(s) == 0 && y < LIMB
    ensures x + y < LIMB
  {
    Pow2Add(s, 32 - s);
    Pow2Limb();
    hide Pow2;
    SumFitsArith(x, y, Pow2(s), Pow2(32 - s));
  }

  lemma SumFitsArith(x: nat, y: nat, p: nat, q: nat)
    requires p * q == LIMB && x < p && y % p == 0 && y < LIMB
    ensures x + y < LIMB
  {
    var h := y / p;
    Euclid(y, p);
    FactorBelow(h, q, p);
    MulMonotone(h + 1, q, p);
    Distribute(p, h, 1);
  }

  /** The words written by step i of the right shift. */
  lemma ShrLimbs(a: seq<nat>, k: nat, s: nat, i: nat)
    requires IsLimbs(a) && i < 8 && s < 32
    ensures Shr(a[i], s) < LIMB && Or(0, Shr(a[i], s)) == Shr(a[i], s)
    ensures i - k - 1 >= 0 ==>
              ShrLimb(a, k, s, i - k - 1) == (if s != 0 then Or(Shr(a[i - 1], s), Shl32(a[i], 32 - s)) else Shr(a[i - 1], s)) < LIMB
  {
    ShrSmall(a[i], s);
    if i - k - 1 >= 0 {
      ShrSmall(a[i - 1], s);
      if s != 0 {
        Aligned(a[i], 32 - s);
        hide Or, Pow2, Shl32, Shr;
        OrIsAdd(Shr(a[i - 1], s), Shl32(a[i], 32 - s), 32 - s);
        SumFits(Shr(a[i - 1], s), Shl32(a[i], 32 - s), 32 - s);
      }
    }
  }

  lemma ShrSmall(x: nat, s: nat)
    requires x < LIMB && s < 32
    ensures Shr(x, s) < Pow2(32 - s) <= LIMB
  {
    Pow2Add(s, 32 - s);
    Pow2Limb();
    Pow2Monotone(32 - s, 32);
    hide Pow2;
    QuotientSmall(x, Pow2(s), Pow2(32 - s));
  }

  /** The top limb receives nothing from above. */
  lemma ShrEnd(a: seq<nat>, k: nat, s: nat)
    requires IsLimbs(a) && s < 32
    ensures k <= 7 ==> ShrLimb(a, k, s, 7 - k) == Shr(a[7], s)
    ensures forall m {:trigger ShrLimb(a, k, s, m)} :: m >= 0 && m + k >= 8 ==> ShrLimb(a, k, s, m) == 0
  {
  }

  /** The top bit of a word below 2^(b+1). */
  lemma TopBit(x: nat, b: nat)
    requires x < Pow2(b + 1)
    ensures Shr(x, b) % 2 == 1 ==> Pow2(b) <= x
    ensures Shr(x, b) % 2 != 1 ==> x < Pow2(b)
  {
    var p, h := Pow2(b), Shr(x, b);
    Euclid(x, p);
    assert h * p <= x < 2 * p;
    hide Pow2, Shr;
    FactorBelow(h, 2, p);
    assert h == 0 || h == 1;
  }

  lemma BitOne()
    ensures Pow2(0) == 1 && Pow2(1) == 2
  {
  }

  // ----- division -----

  /** Before step t - 1: the numerator left, the quotient so far, and what they account for. */
  ghost predicate Dividing(num: nat, q: nat, n: nat, d: nat, t: nat) {
    num + q * d == n && num < d * Pow2(t)
  }

  /** The t lowest bits are clear. */
  ghost predicate LowClear(s: seq<nat>, t: nat) {
    |s| == 8 && forall m :: 0 <= m < 8 ==> LimbClear(s[m], m, t)
  }

  ghost predicate LimbClear(x: nat, m: nat, t: nat) {
    && (32 * m + 32 <= t ==> x == 0)
    && (32 * m < t < 32 * m + 32 ==> x % Pow2(t - 32 * m) == 0)
  }

  function Bit(s: nat): nat {
    Pow2(s)
  }

  function WithBit(s: seq<nat>, shift: nat): (t: seq<nat>)
    requires |s| == 8 && shift < 256
    ensures |t| == 8
  {
    s[shift / 32 := Or(Bit(shift % 32), s[shift / 32])]
  }

  lemma BitsZero(v: nat, n: nat)
    requires IsBits(v, n)
    ensures n == 0 <==> v == 0
  {
  }

  lemma FewerBits(n: nat, d: nat, nb: nat, db: nat)
    requires IsBits(n, nb) && IsBits(d, db) && nb < db
    ensures d > 0 && n / d == 0
  {
    if n > 0 {
      Pow2Monotone(nb, db - 1);
    }
    DivMod(n, 0, d, n);
  }

  lemma DivideStart(n: nat, d: nat, nb: nat, db: nat)
    requires IsBits(n, nb) && IsBits(d, db) && d > 0 && db <= nb <= 256
    ensures db > 0 && Dividing(n, 0, n, d, nb - db + 1)
    ensures (d * Pow2(nb - db)) % Modulus() == d * Pow2(nb - db)
  {
    hide Pow2, Base;
    Pow2Add(db - 1, nb - db + 1);
    Pow2Add(db, nb - db);
    assert db - 1 + (nb - db + 1) == nb == db + (nb - db);
    Pow2Monotone(nb, 256);
    BaseIsPow2(8);
    DivideStartArith(n, d, Pow2(db - 1), Pow2(db), Pow2(nb - db), Pow2(nb - db + 1), Modulus());
    ZeroTimes(d, d);
  }

  lemma DivideStartArith(n: nat, d: nat, lo: nat, hi: nat, p: nat, p': nat, m: nat)
    requires lo <= d < hi && n < lo * p' && hi * p <= m && p > 0
    ensures n < d * p' && (d * p) % m == d * p
  {
    MulMonotone(lo, d, p');
    MulMonotone(d + 1, hi, p);
    Distribute(p, d, 1);
    DivMod(d * p, 0, m, d * p);
  }

  lemma ClearAll(t: nat)
    ensures LowClear(ZERO, t)
  {
  }

  lemma ModHalf(y: nat, p: nat)
    requires p > 0 && y % (2 * p) == 0
    ensures y % p == 0 && (y + p) % p == 0
  {
    var h := y / (2 * p);
    Euclid(y, 2 * p);
    QuotientNonNegative(y, 2 * p);
    assert h * (2 * p) == (2 * h) * p;
    DivMod(y, 2 * h, p, 0);
    Distribute(p, 2 * h, 1);
    DivMod(y + p, 2 * h + 1, p, 0);
  }

  lemma LimbClearFewer(x: nat, m: nat, t: nat)
    requires LimbClear(x, m, t + 1)
    ensures LimbClear(x, m, t)
  {
    if 32 * m < t && t + 1 < 32 * m + 32 {
      ModHalf(x, Pow2(t - 32 * m));
    } else if 32 * m < t && t + 1 == 32 * m + 32 {
      DivMod(0, 0, Pow2(t - 32 * m), 0);
    }
  }

  lemma ClearFewer(s: seq<nat>, t: nat)
    requires LowClear(s, t + 1)
    ensures LowClear(s, t)
  {
    forall m | 0 <= m < 8
      ensures LimbClear(s[m], m, t)
    {
      LimbClearFewer(s[m], m, t);
    }
  }

  /** Setting bit `shift`, when it and all lower bits are clear, adds its weight. */
  lemma SetBit(s: seq<nat>, shift: nat)
    requires IsLimbs(s) && shift < 256 && LowClear(s, shift + 1)
    ensures var t := WithBit(s, shift);
            IsLimbs(t) && LowClear(t, shift) && Val(t) == Val(s) + Pow2(shift)
  {
    hide Value, Base, Or, Pow2, LimbClear, WithBit;
    SetBitWord(s, shift);
    ClearFewer(s, shift);
    var t := WithBit(s, shift);
    forall i | 0 <= i < 8
      ensures LimbClear(t[i], i, shift)
    {
      assert i != shift / 32 ==> t[i] == s[i];
    }
  }

  lemma SetBitWord(s: seq<nat>, shift: nat)
    requires IsLimbs(s) && shift < 256 && LowClear(s, shift + 1)
    ensures var t, m := WithBit(s, shift), shift / 32;
            && IsLimbs(t) && Val(t) == Val(s) + Pow2(shift) && LimbClear(t[m], m, shift)
            && (forall i :: 0 <= i < 8 && i != m ==> t[i] == s[i])
  {
    hide Value, Base, Or, Pow2, LimbClear, Bit;
    var m, b := shift / 32, shift % 32;
    var t := WithBit(s, shift);
    assert LimbClear(s[m], m, shift + 1);
    BitWord(s[m], m, b);
    ValueUpdate(s, 8, m, t[m]);
    Distribute(Base(m), s[m], Pow2(b));
    BaseIsPow2(m);
    Pow2Add(32 * m, b);
  }

  lemma BitWord(x: nat, m: nat, b: nat)
    requires b < 32 && x < LIMB && LimbClear(x, m, 32 * m + b + 1)
    ensures Or(Bit(b), x) == x + Pow2(b) < LIMB && LimbClear(Or(Bit(b), x), m, 32 * m + b)
  {
    hide Or;
    if b == 31 {
      DivMod(0, 0, Pow2(32), 0);
    }
    OrIsAdd(Pow2(b), x, b + 1);
    SumFits(Pow2(b), x, b + 1);
    ModHalf(x, Pow2(b));
  }

  lemma DivideStep(num: nat, q: nat, n: nat, d: nat, shift: nat)
    requires Dividing(num, q, n, d, shift + 1)
    ensures num < d * Pow2(shift) ==> Dividing(num, q, n, d, shift)
    ensures num >= d * Pow2(shift) ==> Dividing(num - d * Pow2(shift), q + Pow2(shift), n, d, shift)
  {
    assert Pow2(shift + 1) == 2 * Pow2(shift);
    var p := Pow2(shift);
    hide Pow2;
    assert d * (2 * p) == d * p + d * p;
    Distribute(d, q, p);
  }

  /** Undoing one position of the alignment. */
  lemma HalfShift(d: nat, shift: nat)
    ensures shift > 0 ==> (d * Pow2(shift)) / Pow2(1) == d * Pow2(shift - 1)
  {
    BitOne();
    if shift > 0 {
      assert d * (2 * Pow2(shift - 1)) == 2 * (d * Pow2(shift - 1));
    }
  }

  lemma DivideEnd(num: nat, q: nat, n: nat, d: nat)
    requires Dividing(num, q, n, d, 0)
    ensures d > 0 && n / d == q && n % d == num
  {
    BitOne();
    DivMod(n, q, d, num);
  }
}
