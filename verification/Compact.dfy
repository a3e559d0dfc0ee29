/**
 Compact targets (src/arith_uint256.cpp) and the block proof built on them
 (src/chain.cpp): a 256-bit number rounded to 23 significant bits and a byte count.
 */
module Compact {
  import opened Nat
  import opened Limbs
  import opened Arith
  import opened ArithUint256

  const SIGN := 0x80_0000      // 2^23
  const EXPONENT := 0x100_0000 // 2^24

  /** 256 to the n-th power. */
  function Bytes(n: nat): (p: nat)
    ensures p >= 1
  {
    Pow2(8 * n)
  }

  // ----- decoding -----

  /** The number meant by a byte count and a mantissa, without any width limit. */
  function Decoded(size: nat, word: nat): nat {
    if size <= 3 then Quotient(word, Bytes(3 - size)) else word * Bytes(size - 3)
  }

  /** The mantissa as the flags see it: already shifted down for short numbers. */
  function ShownWord(size: nat, word: nat): nat {
    if size <= 3 then Quotient(word, Bytes(3 - size)) else word
  }

  // ----- encoding -----

  function BitLen(v: nat): (n: nat)
    ensures IsBits(v, n)
  {
    if v == 0 then 0 else
      assert v / 2 == 0 ==> Pow2(0) == 1;
      1 + BitLen(v / 2)
  }

  function ByteLen(v: nat): nat {
    (BitLen(v) + 7) / 8
  }

  /** The number scaled so that `size` bytes keep three of them. */
  function Scaled(v: nat, size: nat): nat {
    if size <= 3 then v * Bytes(3 - size) else Quotient(v, Bytes(size - 3))
  }

  /** The byte count chosen: one more when the top mantissa bit would read as a sign. */
  function SizeOf(v: nat): nat {
    if Scaled(v, ByteLen(v)) >= SIGN then ByteLen(v) + 1 else ByteLen(v)
  }

  function WordOf(v: nat): nat {
    var raw := Scaled(v, ByteLen(v));
    if raw >= SIGN then raw / 256 else raw
  }

  /** What encoding and decoding again makes of a number. */
  function Rounded(v: nat): nat {
    Decoded(SizeOf(v), WordOf(v))
  }

  // ----- powers of 256 -----

  lemma BytesAdd(a: nat, b: nat)
    ensures Bytes(a + b) == Bytes(a) * Bytes(b)
  {
    Pow2Add(8 * a, 8 * b);
    assert 8 * (a + b) == 8 * a + 8 * b;
  }

  lemma BytesSmall()
    ensures Bytes(0) == 1 && Bytes(1) == 256 && Bytes(2) == 0x10000 && Bytes(3) == EXPONENT
  {
    Pow2Limb();
    BytesAdd(1, 1);
    BytesAdd(1, 2);
    assert Pow2(0) == 1;
  }

  lemma BytesMonotone(a: nat, b: nat)
    requires a <= b
    ensures Bytes(a) <= Bytes(b)
  {
    Pow2Monotone(8 * a, 8 * b);
  }

  lemma BytesModulus()
    ensures Bytes(32) == Modulus()
  {
    BaseIsPow2(8);
  }

  /** The first half of a bit count: the bytes needed. */
  lemma ByteRange(v: nat)
    requires v > 0
    ensures ByteLen(v) > 0 && Bytes(ByteLen(v) - 1) <= v < Bytes(ByteLen(v))
  {
    var n, b := BitLen(v), ByteLen(v);
    Pow2Monotone(8 * (b - 1), n - 1);
    Pow2Monotone(n, 8 * b);
  }

  lemma ByteLenUnique(v: nat, n: nat)
    requires IsBits(v, n)
    ensures n == BitLen(v)
  {
    if v > 0 {
      var k := BitLen(v);
      if n < k {
        Pow2Monotone(n, k - 1);
      } else if k < n {
        Pow2Monotone(k, n - 1);
      }
    }
  }

  // ----- the canonical form -----

  /** The mantissa before the sign rule has its top byte in use. */
  lemma RawRange(v: nat)
    requires v > 0
    ensures 0x10000 <= Scaled(v, ByteLen(v)) < EXPONENT
  {
    hide Bytes, ByteLen;
    var b := ByteLen(v);
    ByteRange(v);
    BytesSmall();
    if b <= 3 {
      BytesAdd(b - 1, 3 - b);
      BytesAdd(b, 3 - b);
      assert b - 1 + (3 - b) == 2 && b + (3 - b) == 3;
      ScaleUp(v, Bytes(b - 1), Bytes(b), Bytes(3 - b));
    } else {
      BytesAdd(2, b - 3);
      BytesAdd(3, b - 3);
      assert 2 + (b - 3) == b - 1 && 3 + (b - 3) == b;
      ScaleDown(v, 0x10000, EXPONENT, Bytes(b - 3));
    }
  }

  lemma ScaleUp(v: nat, lo: nat, hi: nat, p: nat)
    requires lo <= v < hi && p > 0
    ensures lo * p <= v * p < hi * p
  {
    MulMonotone(lo, v, p);
    MulMonotone(v + 1, hi, p);
    Distribute(p, v, 1);
  }

  lemma ScaleDown(v: nat, lo: nat, hi: nat, p: nat)
    requires p > 0 && lo * p <= v < hi * p
    ensures lo <= v / p < hi
  {
    Euclid(v, p);
    QuotientNonNegative(v, p);
    FactorBelow(v / p, hi, p);
    Distribute(p, v / p, 1);
    FactorBelow(lo, v / p + 1, p);
  }

  /** Dropping one more byte is dividing once more by 256. */
  lemma ScaledNext(v: nat, size: nat)
    requires size > 0
    ensures Scaled(v, size + 1) == Scaled(v, size) / 256
  {
    BytesSmall();
    if size < 3 {
      BytesAdd(2 - size, 1);
      assert 2 - size + 1 == 3 - size && 3 - (size + 1) == 2 - size;
      var p := Bytes(2 - size);
      hide Bytes;
      assert v * (p * 256) == (v * p) * 256;
    } else if size == 3 {
      assert Scaled(v, 3) == v * 1;
    } else {
      BytesAdd(size - 3, 1);
      assert size - 3 + 1 == size - 2;
      hide Bytes;
      DivTwice(v, Bytes(size - 3), 256);
    }
  }

  lemma DivTwice(v: nat, a: nat, b: nat)
    requires a > 0 && b > 0
    ensures a * b > 0 && v / (a * b) == (v / a) / b
  {
    var q := v / a;
    QuotientNonNegative(v, a);
    Euclid(v, a);
    Euclid(q, b);
    QuotientNonNegative(q, b);
    var h, r := q / b, q % b;
    Distribute(a, h * b, r);
    assert (h * b) * a == h * (a * b);
    MulMonotone(r + 1, b, a);
    Distribute(a, r, 1);
    DivMod(v, h, a * b, r * a + v % a);
  }

  /** The mantissa stays clear of the sign bit and keeps at least fifteen bits. */
  lemma Canonical(v: nat)
    requires v > 0
    ensures SizeOf(v) > 0 && 0x8000 <= WordOf(v) < SIGN && WordOf(v) == Scaled(v, SizeOf(v))
  {
    hide Scaled, ByteLen;
    RawRange(v);
    ByteRange(v);
    ScaledNext(v, ByteLen(v));
  }

  /** The interval of numbers a byte count stands for. */
  ghost predicate InRange(v: nat, size: nat) {
    0x8000 * Bytes(size) <= v * EXPONENT < SIGN * Bytes(size)
  }

  lemma ScaledRange(v: nat, size: nat)
    requires 0x8000 <= Scaled(v, size) < SIGN
    ensures InRange(v, size)
  {
    BytesSmall();
    if size <= 3 {
      BytesAdd(size, 3 - size);
      assert size + (3 - size) == 3;
      hide Bytes;
      RangeUp(v, Bytes(size), Bytes(3 - size));
    } else {
      BytesAdd(size - 3, 3);
      assert size - 3 + 3 == size;
      hide Bytes;
      RangeDown(v, Bytes(size - 3));
    }
  }

  lemma RangeUp(v: nat, p: nat, q: nat)
    requires p > 0 && p * q == EXPONENT && 0x8000 <= v * q < SIGN
    ensures 0x8000 * p <= v * EXPONENT < SIGN * p
  {
    ScaleUp(v * q, 0x8000, SIGN, p);
    assert (v * q) * p == v * (p * q);
  }

  lemma RangeDown(v: nat, u: nat)
    requires u > 0 && 0x8000 <= v / u < SIGN
    ensures 0x8000 * (u * EXPONENT) <= v * EXPONENT < SIGN * (u * EXPONENT)
  {
    Euclid(v, u);
    MulMonotone(0x8000, v / u, u);
    MulMonotone(v / u + 1, SIGN, u);
    Distribute(u, v / u, 1);
  }

  /** Larger numbers have larger byte counts; in particular each number has one. */
  lemma RangeOrder(v: nat, w: nat, s: nat, t: nat)
    requires InRange(v, s) && InRange(w, t) && v <= w
    ensures s <= t
  {
    if t < s {
      BytesSmall();
      BytesAdd(t, 1);
      BytesMonotone(t + 1, s);
      assert false;
    }
  }

  lemma SizeUnique(v: nat, s: nat)
    requires v > 0 && InRange(v, s)
    ensures s == SizeOf(v)
  {
    hide Scaled, SizeOf, WordOf, InRange;
    Canonical(v);
    ScaledRange(v, SizeOf(v));
    RangeOrder(v, v, s, SizeOf(v));
    RangeOrder(v, v, SizeOf(v), s);
  }

  // ----- what rounding does -----

  /** Rounding goes down by less than one part in 2^15. */
  lemma RoundsDown(v: nat)
    ensures Rounded(v) <= v && (v - Rounded(v)) * 0x8000 <= v
  {
    var s, word := SizeOf(v), WordOf(v);
    if v == 0 {
      RoundedZero();
    } else {
      Canonical(v);
      hide SizeOf, WordOf;
      if s <= 3 {
        hide Bytes;
        TimesOver(v, Bytes(3 - s));
      } else {
        hide Bytes;
        Floor(v, Bytes(s - 3));
      }
    }
  }

  lemma RoundedZero()
    ensures SizeOf(0) == 0 && WordOf(0) == 0 && Rounded(0) == 0
  {
    hide Bytes;
    assert BitLen(0) == 0;
    assert Scaled(0, 0) == 0 * Bytes(3);
    TimesOver(0, Bytes(3));
  }

  lemma TimesOver(v: nat, p: nat)
    requires p > 0
    ensures (v * p) / p == v && (v * p) % p == 0
  {
    DivMod(v * p, v, p, 0);
  }

  lemma Floor(v: nat, u: nat)
    requires u > 0 && v / u >= 0x8000
    ensures (v / u) * u <= v && (v - (v / u) * u) * 0x8000 <= v
  {
    Euclid(v, u);
    MulMonotone(0x8000, v / u, u);
  }

  /** A rounded number keeps its byte count and mantissa: encoding it again changes nothing. */
  lemma RoundedStable(v: nat)
    ensures SizeOf(Rounded(v)) == SizeOf(v) && WordOf(Rounded(v)) == WordOf(v) && Rounded(Rounded(v)) == Rounded(v)
  {
    if v == 0 {
      RoundedZero();
    } else {
      var s, word, y := SizeOf(v), WordOf(v), Rounded(v);
      Canonical(v);
      hide SizeOf, WordOf, Rounded;
      SameScaled(s, word, v);
      assert y == Decoded(s, word) by { RoundedIs(v); }
      ScaledZero(s);
      ScaledRange(y, s);
      SizeUnique(y, s);
      Canonical(y);
      RoundedIs(y);
    }
  }

  lemma RoundedIs(v: nat)
    ensures Rounded(v) == Decoded(SizeOf(v), WordOf(v))
  {
  }

  lemma SameScaled(s: nat, word: nat, v: nat)
    requires word == Scaled(v, s)
    ensures Scaled(Decoded(s, word), s) == word
  {
    hide Bytes;
    if s <= 3 {
      TimesOver(v, Bytes(3 - s));
    } else {
      TimesOver(word, Bytes(s - 3));
    }
  }

  lemma ScaledZero(s: nat)
    ensures Scaled(0, s) == 0
  {
    hide Bytes;
    if s <= 3 {
      ZeroTimes(Bytes(3 - s), 0);
    } else {
      DivMod(0, 0, Bytes(s - 3), 0);
    }
  }

  /** Rounding preserves order. */
  lemma RoundedMonotone(v: nat, w: nat)
    requires v <= w
    ensures Rounded(v) <= Rounded(w)
  {
    RoundsDown(v);
    if v > 0 {
      var s, t := SizeOf(v), SizeOf(w);
      Canonical(v);
      Canonical(w);
      RoundedIs(v);
      RoundedIs(w);
      hide SizeOf, WordOf, Rounded;
      ScaledRange(v, s);
      ScaledRange(w, t);
      RangeOrder(v, w, s, t);
      DecodedOrder(v, w, s, t, WordOf(v), WordOf(w));
    } else {
      RoundedZero();
    }
  }

  lemma DecodedOrder(v: nat, w: nat, s: nat, t: nat, x: nat, y: nat)
    requires v <= w && s <= t && InRange(v, s) && y >= 0x8000
    requires x == Scaled(v, s) && y == Scaled(w, t) && Decoded(s, x) <= v
    ensures Decoded(s, x) <= Decoded(t, y)
  {
    if t <= 3 {
      hide Bytes;
      TimesOver(w, Bytes(3 - t));
    } else if s == t {
      hide Bytes;
      FloorMonotone(v, w, Bytes(s - 3));
    } else {
      HigherBytes(v, y, s, t);
    }
  }

  lemma FloorMonotone(v: nat, w: nat, u: nat)
    requires u > 0 && v <= w
    ensures (v / u) * u <= (w / u) * u
  {
    Euclid(v, u);
    Euclid(w, u);
    QuotientNonNegative(v, u);
    QuotientNonNegative(w, u);
    Distribute(u, w / u, 1);
    FactorBelow(v / u, w / u + 1, u);
    MulMonotone(v / u, w / u, u);
  }

  lemma HigherBytes(v: nat, word: nat, s: nat, t: nat)
    requires InRange(v, s) && s < t && t > 3 && word >= 0x8000
    ensures v <= Decoded(t, word)
  {
    BytesSmall();
    BytesAdd(s, 1);
    BytesMonotone(s + 1, t);
    BytesAdd(t - 3, 3);
    assert t - 3 + 3 == t;
    MulMonotone(0x8000, word, Bytes(t - 3));
  }

  // ----- the code -----

  /** Setting one bit of a word. */
  function OrBit(x: nat, b: nat): nat {
    if Shr(x, b) % 2 == 1 then x else x + Pow2(b)
  }

  /**
   Decoding: the number modulo 2^256, with the overflow flag raised exactly when the number
   does not fit.
   */
  method SetCompact(x: Uint256, nCompact: nat) returns (negative: bool, overflow: bool)
    requires x.pn.Length == 8 && nCompact < LIMB
    modifies x.pn
    ensures var size, word := nCompact / EXPONENT, nCompact % SIGN;
            && x.Valid() && x.Num() == Decoded(size, word) % Modulus()
            && (overflow <==> Decoded(size, word) >= Modulus())
            && (negative <==> ShownWord(size, word) != 0 && nCompact % EXPONENT >= SIGN)
  {
    hide Bytes, Decoded, ShownWord, Base, Value, Shr, Pow2;
    var size := nCompact / EXPONENT;
    var word := nCompact % SIGN;
    SignTest(nCompact);
    if size <= 3 {
      ShownSmall(size, word);
      word := Shr(word, 8 * (3 - size));
      x.AssignWord(word);
    } else {
      LongNumber(size, word);
      x.AssignWord(word);
      x.ShlAssign(8 * (size - 3));
    }
    negative := word != 0 && nCompact / SIGN % 2 != 0;
    overflow := word != 0 && (size > 34 || (word > 0xff && size > 33) || (word > 0xffff && size > 32));
  }

  lemma SignTest(c: nat)
    ensures c / SIGN % 2 != 0 <==> c % EXPONENT >= SIGN
  {
  }

  lemma LongNumber(size: nat, word: nat)
    requires size > 3 && word < SIGN
    ensures Decoded(size, word) == word * Pow2(8 * (size - 3)) && ShownWord(size, word) == word
    ensures Decoded(size, word) >= Modulus() <==>
              word != 0 && (size > 34 || (word > 0xff && size > 33) || (word > 0xffff && size > 32))
  {
    hide Base, Pow2;
    BytesIs(size - 3);
    hide Bytes;
    OverflowExact(size, word);
  }

  lemma BytesIs(n: nat)
    ensures Bytes(n) == Pow2(8 * n)
  {
  }

  /** Short numbers never overflow. */
  lemma ShownSmall(size: nat, word: nat)
    requires size <= 3 && word < SIGN
    ensures Shr(word, 8 * (3 - size)) == Decoded(size, word) == ShownWord(size, word) <= word
    ensures Decoded(size, word) < Modulus() && Decoded(size, word) % Modulus() == Decoded(size, word)
  {
    var d := Decoded(size, word);
    QuotientAtMost(word, Bytes(3 - size));
    BytesModulus();
    BytesSmall();
    BytesMonotone(3, 32);
    hide Bytes, Base;
    DivMod(d, 0, Modulus(), d);
  }

  lemma QuotientAtMost(a: nat, b: nat)
    requires b > 0
    ensures 0 <= a / b <= a
  {
    QuotientNonNegative(a, b);
    Euclid(a, b);
    MulMonotone(1, b, a / b);
  }

  /** The tests on size and mantissa say exactly that the number reaches 2^256. */
  lemma OverflowExact(size: nat, word: nat)
    requires size > 3 && word < SIGN
    ensures word * Bytes(size - 3) >= Modulus() <==>
              word != 0 && (size > 34 || (word > 0xff && size > 33) || (word > 0xffff && size > 32))
  {
    hide Bytes, Base, Pow2;
    BytesModulus();
    BytesSmall();
    var u := Bytes(size - 3);
    if size <= 34 {
      BytesAdd(35 - size, size - 3);
      assert 35 - size + (size - 3) == 32;
      Reaches(word, Bytes(35 - size), u);
      assert size == 34 ==> 35 - size == 1;
      assert size == 33 ==> 35 - size == 2;
      if size <= 32 {
        BytesMonotone(3, 35 - size);
      }
    } else {
      BytesMonotone(32, size - 3);
      LargeProduct(word, u, Modulus());
    }
  }

  lemma LargeProduct(word: nat, u: nat, m: nat)
    requires 0 < m <= u
    ensures word * u >= m <==> word != 0
  {
    if word > 0 {
      MulMonotone(1, word, u);
    }
  }

  lemma Reaches(word: nat, p: nat, u: nat)
    requires u > 0
    ensures word * u >= p * u <==> word >= p
  {
    if word >= p {
      MulMonotone(p, word, u);
    } else {
      MulMonotone(word + 1, p, u);
      Distribute(u, word, 1);
    }
  }

  /** Encoding: the canonical byte count and mantissa, and a sign only on a non-zero mantissa. */
  method GetCompact(x: Uint256, fNegative: bool) returns (nCompact: nat)
    requires x.Valid()
    ensures nCompact == SizeOf(x.Num()) * EXPONENT + WordOf(x.Num()) + (if fNegative && WordOf(x.Num()) != 0 then SIGN else 0)
    ensures nCompact < LIMB && SizeOf(x.Num()) <= 33
  {
    hide Bytes, Scaled, Or, Shr, Base, Value;
    ghost var v := x.Num();
    var bits := x.Bits();
    ByteLenUnique(v, bits);
    var size := (bits + 7) / 8;
    assert size == ByteLen(v);
    RawSmall(v);
    if size <= 3 {
      nCompact := x.GetLow64();
      nCompact := nCompact * Pow2(8 * (3 - size)) % LIMB;
    } else {
      var bn := new Uint256(x.pn[..]);
      bn.ShrAssign(8 * (size - 3));
      nCompact := bn.GetLow64();
      nCompact := nCompact % LIMB;
    }
    ghost var raw := Scaled(v, size);
    assert nCompact == raw;
    SignBit(raw);
    if Shr(nCompact, 23) % 2 == 1 {
      nCompact := Shr(nCompact, 8);
      size := size + 1;
    }
    assert nCompact == WordOf(v) && size == SizeOf(v);
    assert nCompact < SIGN && size < 256;
    PutSize(nCompact, size);
    nCompact := Or(nCompact, size * EXPONENT);
    if fNegative && nCompact % SIGN != 0 {
      nCompact := OrBit(nCompact, 23);
    }
  }

  /** The intermediate words of the encoder fit where the code keeps them. */
  lemma RawSmall(v: nat)
    requires v < Modulus()
    ensures var b := ByteLen(v);
            && b <= 32 && Scaled(v, b) < EXPONENT
            && (b <= 3 ==> v % (LIMB * LIMB) == v && (v * Pow2(8 * (3 - b))) % LIMB == Scaled(v, b))
            && (b > 3 ==> (v / Pow2(8 * (b - 3))) % (LIMB * LIMB) % LIMB == Scaled(v, b))
  {
    hide Base, Bytes, ByteLen, Scaled, Pow2, Modulus;
    var b := ByteLen(v);
    RawLength(v);
    if b <= 3 {
      ShortScaled(v, b);
      RawShort(v, b);
    } else {
      LongScaled(v, b);
    }
  }

  lemma RawLength(v: nat)
    requires v < Modulus()
    ensures ByteLen(v) <= 32 && Scaled(v, ByteLen(v)) < EXPONENT
  {
    hide Base, Bytes, ByteLen, Scaled, Pow2;
    if v == 0 {
      RawZero();
    } else {
      RawRange(v);
      ByteRange(v);
      BytesModulus();
      LengthBelow(v, ByteLen(v));
    }
  }

  lemma RawShort(v: nat, b: nat)
    requires b == ByteLen(v) <= 3
    ensures v < LIMB * LIMB
  {
    hide Bytes, ByteLen;
    if v > 0 {
      ByteRange(v);
      BytesSmall();
      BytesMonotone(b, 3);
    }
  }

  lemma LengthBelow(v: nat, b: nat)
    requires b > 0 && Bytes(b - 1) <= v < Bytes(32)
    ensures b <= 32
  {
    if b > 32 {
      BytesMonotone(32, b - 1);
      assert false;
    }
  }

  lemma RawZero()
    ensures ByteLen(0) == 0 && Scaled(0, 0) == 0 && 0 * Pow2(24) == 0
  {
    hide Pow2, Scaled;
    assert BitLen(0) == 0;
    ScaledZero(0);
    ZeroTimes(Pow2(24), 0);
  }

  lemma ShortScaled(v: nat, b: nat)
    requires b <= 3
    ensures Scaled(v, b) == v * Pow2(8 * (3 - b))
  {
  }

  lemma LongScaled(v: nat, b: nat)
    requires b > 3
    ensures Scaled(v, b) == v / Pow2(8 * (b - 3))
  {
  }

  lemma SignBit(raw: nat)
    requires raw < EXPONENT
    ensures Shr(raw, 23) % 2 == 1 <==> raw >= SIGN
    ensures Shr(raw, 8) == raw / 256
  {
    Pow2Limb();
    TwentyThree();
    hide Pow2;
    assert raw / SIGN < 2;
  }

  lemma TwentyThree()
    ensures Pow2(23) == SIGN && Pow2(24) == EXPONENT
  {
    Pow2Limb();
    Pow2Add(16, 8);
    assert Pow2(24) == 2 * Pow2(23);
  }

  /** The byte count goes above the mantissa, and the sign bit in between is clear. */
  lemma PutSize(word: nat, size: nat)
    requires word < SIGN
    ensures var c := Or(word, size * EXPONENT);
            && c == size * EXPONENT + word && c % SIGN == word
            && OrBit(c, 23) == c + SIGN
  {
    hide Or;
    TwentyThree();
    DivMod(size * EXPONENT, size, EXPONENT, 0);
    hide Pow2;
    OrIsAdd(word, size * EXPONENT, 24);
    var c := size * EXPONENT + word;
    DivMod(c, 2 * size, SIGN, word);
  }

  /**
   The round trip: the compact form of any 256-bit number decodes without a flag to a
   number no larger, closer than one part in 2^15, which has the same compact form.
   */
  lemma CompactRoundTrip(v: nat)
    requires v < Modulus()
    ensures var c := SizeOf(v) * EXPONENT + WordOf(v);
            var size, word := c / EXPONENT, c % SIGN;
            var y := Decoded(size, word);
            && y < Modulus() && c % EXPONENT < SIGN
            && y <= v && (v - y) * 0x8000 <= v
            && SizeOf(y) == size && WordOf(y) == word && y == Rounded(v)
  {
    hide Scaled, ByteLen, Decoded;
    if v == 0 {
      RoundedZero();
    } else {
      Canonical(v);
    }
    var s, w := SizeOf(v), WordOf(v);
    var c := s * EXPONENT + w;
    DivMod(c, s, EXPONENT, w);
    DivMod(c, 2 * s, SIGN, w);
    hide SizeOf, WordOf, Base;
    RoundsDown(v);
    RoundedStable(v);
  }

  // ----- block proof -----

  /** The proof of a block: the expected number of tries for its target. */
  method GetBlockProof(nBits: nat, proofOfStake: bool) returns (r: Uint256)
    requires nBits < LIMB
    ensures fresh(r) && fresh(r.pn) && r.Valid()
    ensures var size, word := nBits / EXPONENT, nBits % SIGN;
            var target := Decoded(size, word);
            if target == 0 || target >= Modulus() || nBits % EXPONENT >= SIGN then r.Num() == 0
            else target + 1 < Modulus() && r.Num() == if proofOfStake then Modulus() / (target + 1) else 1
  {
    hide Decoded, ShownWord, Value, Base, Pow2, Bytes;
    ghost var size, word := nBits / EXPONENT, nBits % SIGN;
    ghost var target := Decoded(size, word);
    var bnTarget := new Uint256.FromWord(0);
    var negative, overflow := SetCompact(bnTarget, nBits);
    var zero := new Uint256.FromWord(0);
    var cmp := bnTarget.CompareTo(zero);
    SameNumber(bnTarget.pn[..], zero.pn[..]);
    ShownZero(size, word);
    if target < Modulus() {
      DivMod(target, 0, Modulus(), target);
    }
    if negative || overflow || cmp == 0 {
      return zero;
    }
    r := new Uint256.FromWord(1);
    TargetBelow(size, word);
    if proofOfStake {
      r := Tries(bnTarget);
    }
  }

  /** The complement of the target divided by the target plus one, plus one. */
  method Tries(bnTarget: Uint256) returns (r: Uint256)
    requires bnTarget.Valid() && 0 < bnTarget.Num() && bnTarget.Num() + 1 < Modulus()
    modifies bnTarget.pn
    ensures fresh(r) && fresh(r.pn) && r.Valid() && r.Num() == Modulus() / (old(bnTarget.Num()) + 1)
  {
    hide Value, Base;
    ProofFormula(bnTarget.Num(), Modulus());
    r := bnTarget.Complement();
    var one := new Uint256.FromWord(1);
    bnTarget.AddAssign(one);
    var ok := r.DivAssign(bnTarget);
    r.AddAssign(one);
  }

  lemma SameNumber(s: seq<nat>, t: seq<nat>)
    requires IsLimbs(s) && IsLimbs(t)
    ensures s == t <==> Val(s) == Val(t)
  {
    hide Value, Base;
    if s != t {
      var i :| 0 <= i < 8 && s[i] != t[i] && forall j :: i < j < 8 ==> s[j] == t[j];
      if s[i] < t[i] {
        ValueOrder(s, t, i);
      } else {
        ValueOrder(t, s, i);
      }
    }
  }

  lemma ShownZero(size: nat, word: nat)
    ensures ShownWord(size, word) == 0 <==> Decoded(size, word) == 0
  {
    if size > 3 && word > 0 {
      MulMonotone(1, word, Bytes(size - 3));
    }
  }

  /** A target that fits is not the largest number: a mantissa of 23 bits has no room for it. */
  lemma TargetBelow(size: nat, word: nat)
    requires word < SIGN && Decoded(size, word) < Modulus()
    ensures Decoded(size, word) + 1 < Modulus()
  {
    hide Bytes, Base, Pow2, Decoded;
    BytesModulus();
    BytesSmall();
    BytesMonotone(3, 32);
    if size <= 3 {
      ShownSmall(size, word);
    } else {
      BytesAdd(1, size - 4);
      BytesAdd(1, 31);
      assert 1 + (size - 4) == size - 3 && 1 + 31 == 32;
      BytesIs(size - 3);
      LongNumber(size, word);
      Multiples(word, Bytes(size - 4), Bytes(31));
    }
  }

  lemma Multiples(word: nat, p: nat, q: nat)
    ensures word * (256 * p) < 256 * q ==> word * (256 * p) + 1 < 256 * q
  {
    assert word * (256 * p) == 256 * (word * p);
  }

  /** 2^256 divided by t + 1, computed without leaving 256 bits. */
  lemma ProofFormula(t: nat, m: nat)
    requires 0 < t && t + 1 < m
    ensures (t + 1) % m == t + 1
    ensures var q := (m - 1 - t) / (t + 1);
            0 <= q && (q + 1) % m == q + 1 == m / (t + 1)
  {
    var d := t + 1;
    DivMod(d, 0, m, d);
    var q := (m - d) / d;
    Euclid(m - d, d);
    QuotientNonNegative(m - d, d);
    Distribute(d, q, 1);
    DivMod(m, q + 1, d, (m - d) % d);
    MulMonotone(2, d, q + 1);
    DivMod(q + 1, 0, m, q + 1);
  }
}
