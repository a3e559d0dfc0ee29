/**
 The limb loops of arith_uint256, each proved against the number the limbs stand for.
 */
module ArithUint256 {
  import opened Nat
  import opened Limbs
  import opened Arith

  class Uint256 {
    const pn: array<nat>

    ghost predicate Valid()
      reads pn
    {
      pn.Length == 8 && IsLimbs(pn[..])
    }

    /** The number held. */
    ghost function Num(): (v: nat)
      requires Valid()
      reads pn
      ensures v < Modulus()
    {
      Val(pn[..])
    }

    /** A copy of eight limbs. */
    constructor (limbs: seq<nat>)
      requires IsLimbs(limbs)
      ensures fresh(pn) && Valid() && pn[..] == limbs
    {
      pn := new nat[8](i requires 0 <= i < 8 => limbs[i]);
      new;
      assert pn[..] == limbs;
    }

    /** From a 64-bit word. */
    constructor FromWord(b: nat)
      requires b < LIMB * LIMB
      ensures fresh(pn) && Valid() && Num() == b
    {
      var limbs := WordLimbs(b);
      WordValue(b);
      pn := new nat[8](i requires 0 <= i < 8 => limbs[i]);
      new;
      assert pn[..] == limbs;
    }

    /** Addition modulo 2^256; the operand may be the receiver itself. */
    method AddAssign(b: Uint256)
      requires Valid() && b.Valid()
      modifies pn
      ensures Valid() && Num() == (old(Num()) + old(b.Num())) % Modulus()
    {
      hide Value, Base;
      ghost var x, y := pn[..], b.pn[..];
      var carry: nat := 0;
      NoLimbs(pn[..], x, y);
      for i := 0 to 8
        invariant Valid() && carry <= 1
        invariant forall j :: i <= j < 8 ==> pn[j] == x[j] && b.pn[j] == y[j]
        invariant Value(pn[..], i) + carry * Base(i) == Value(x, i) + Value(y, i)
      {
        ghost var before := pn[..];
        var n := carry + pn[i] + b.pn[i];
        AddStep(Value(before, i), Value(x, i), Value(y, i), Base(i), carry, x[i], y[i]);
        var low: nat := n % LIMB;
        pn[i] := low;
        carry := n / LIMB;
        assert pn[..] == before[i := low];
        ValueSame(pn[..], before, i);
        ValueSnoc(pn[..], i);
        ValueSnoc(x, i);
        ValueSnoc(y, i);
        BaseSucc(i);
      }
      SumMod(Num(), carry, Val(x) + Val(y));
    }

    /** Bitwise complement. */
    method Complement() returns (r: Uint256)
      requires Valid()
      ensures fresh(r) && fresh(r.pn) && r.Valid() && r.Num() == Modulus() - 1 - Num()
    {
      hide Value, Base;
      r := new Uint256([0, 0, 0, 0, 0, 0, 0, 0]);
      for i := 0 to 8
        invariant r.Valid() && forall j :: 0 <= j < i ==> r.pn[j] == LIMB - 1 - pn[j]
      {
        r.pn[i] := LIMB - 1 - pn[i];
      }
      ComplementValue(pn[..], r.pn[..], 8);
    }

    /** Increment modulo 2^256: the carry runs while limbs wrap to zero. */
    method Increment()
      requires Valid()
      modifies pn
      ensures Valid() && Num() == (old(Num()) + 1) % Modulus()
    {
      hide Value, Base;
      ghost var x := pn[..];
      NoLimbs(x, x, x);
      var i := 0;
      while i < 8
        invariant 0 <= i <= 8 && Valid()
        invariant forall j :: i <= j < 8 ==> pn[j] == x[j]
        invariant Value(pn[..], i) + Base(i) == Value(x, i) + 1
      {
        ghost var before := pn[..];
        var low: nat := (pn[i] + 1) % LIMB;
        pn[i] := low;
        assert pn[..] == before[i := low];
        ValueSame(pn[..], before, i);
        ValueSnoc(pn[..], i);
        ValueSnoc(x, i);
        BaseSucc(i);
        if pn[i] != 0 {
          assert pn[i] == x[i] + 1;
          Distribute(Base(i), x[i], 1);
          SameAbove(pn[..], x, i + 1, 1);
          SumMod(Num(), 0, Val(x) + 1);
          return;
        }
        assert x[i] == LIMB - 1;
        Distribute(Base(i), LIMB - 1, 1);
        i := i + 1;
      }
      SumMod(Num(), 1, Val(x) + 1);
    }

    /** Two's complement negation. */
    method Negate() returns (r: Uint256)
      requires Valid()
      ensures fresh(r) && fresh(r.pn) && r.Valid() && (r.Num() + Num()) % Modulus() == 0
      ensures r.Num() == (Modulus() - Num()) % Modulus()
    {
      r := Complement();
      ghost var c := r.Num();
      r.Increment();
      NegateValue(Num(), r.Num(), Modulus());
    }

    /** Subtraction modulo 2^256, by adding the negation. */
    method SubAssign(b: Uint256)
      requires Valid() && b.Valid()
      modifies pn
      ensures Valid()
      ensures Num() == (old(Num()) + Modulus() - old(b.Num())) % Modulus()
      ensures old(b.Num()) <= old(Num()) ==> Num() == old(Num()) - old(b.Num())
    {
      var n := b.Negate();
      SubValue(Num(), b.Num(), Modulus());
      AddAssign(n);
    }

    /** Lexicographic comparison from the top limb is comparison of the numbers. */
    method CompareTo(b: Uint256) returns (r: int)
      requires Valid() && b.Valid()
      ensures -1 <= r <= 1
      ensures r < 0 <==> Num() < b.Num()
      ensures r > 0 <==> Num() > b.Num()
      ensures r == 0 <==> pn[..] == b.pn[..]
    {
      hide Value, Base;
      var i := 7;
      while i >= 0
        invariant -1 <= i <= 7
        invariant forall j :: i < j < 8 ==> pn[j] == b.pn[j]
      {
        if pn[i] < b.pn[i] {
          ValueOrder(pn[..], b.pn[..], i);
          return -1;
        }
        if pn[i] > b.pn[i] {
          ValueOrder(b.pn[..], pn[..], i);
          return 1;
        }
        i := i - 1;
      }
      assert pn[..] == b.pn[..];
      r := 0;
    }

    /** Multiplication by a 32-bit word, modulo 2^256. */
    method MulWord(b32: nat)
      requires Valid() && b32 < LIMB
      modifies pn
      ensures Valid() && Num() == (old(Num()) * b32) % Modulus()
    {
      hide Value, Base, WordDone;
      ghost var x := pn[..];
      WordStart(x, b32);
      var carry: nat := 0;
      for i := 0 to 8
        invariant Valid() && carry < LIMB
        invariant forall j :: i <= j < 8 ==> pn[j] == x[j]
        invariant WordDone(pn[..], x, b32, i, carry)
      {
        ghost var before := pn[..];
        ColumnFits(carry, 0, b32, pn[i]);
        var n := carry + b32 * pn[i];
        WordColumn(before, x, b32, i, carry, n);
        var low: nat := n % LIMB;
        pn[i] := low;
        assert pn[..] == before[i := low];
        carry := n / LIMB;
      }
      WordEnd(pn[..], x, b32, carry);
    }

    /**
     Adds row j of the product into the limbs from j on.  When the operand is the receiver
     and holds zero, it stays zero.
     */
    method AddRow(a: nat, b: array<nat>, j: nat) returns (ghost lost: nat)
      requires Valid() && a < LIMB && j < 8 && b.Length == 8 && IsLimbs(b[..])
      modifies pn
      ensures Valid()
      ensures b != pn ==> RowDone(pn[..], old(pn[..]), b[..], a, 8 - j, j, lost)
      ensures b == pn && old(pn[..]) == ZERO ==> pn[..] == ZERO
    {
      hide Value, Base, RowDone;
      ghost var x, y := pn[..], b[..];
      RowStart(x, y, a, j);
      var carry: nat := 0;
      for i := 0 to 8 - j
        invariant Valid() && carry < LIMB
        invariant forall l :: 0 <= l < j || i + j <= l < 8 ==> pn[l] == x[l]
        invariant b != pn ==> RowDone(pn[..], x, y, a, i, j, carry)
        invariant b == pn && x == ZERO ==> pn[..] == ZERO && carry == 0
      {
        ghost var before := pn[..];
        assert b != pn ==> b[i] == y[i];
        ColumnFits(carry, pn[i + j], a, b[i]);
        var n := Column(carry, pn[i + j], a, b[i]);
        if b != pn {
          RowColumn(before, x, y, a, i, j, carry, n);
        }
        var low: nat := n % LIMB;
        pn[i + j] := low;
        assert pn[..] == before[i + j := low];
        carry := n / LIMB;
      }
      lost := carry;
    }

    /**
     Multiplication modulo 2^256.  The receiver is zeroed before the operand is read, so
     multiplying a number by itself through the same object gives zero.
     */
    method MulAssign(b: Uint256)
      requires Valid() && b.Valid()
      modifies pn
      ensures Valid()
      ensures b.pn != pn ==> Num() == (old(Num()) * old(b.Num())) % Modulus()
      ensures b.pn == pn ==> Num() == 0
    {
      hide Value, Base;
      var a := pn[..];
      ghost var y := b.pn[..];
      Clear();
      NoLimbs(a, a, a);
      ZeroValue();
      ZeroMod(Val(y), Modulus());
      for j := 0 to 8
        invariant Valid()
        invariant b.pn != pn ==> Num() == (Value(a, j) * Val(y)) % Modulus()
        invariant b.pn == pn ==> pn[..] == ZERO
      {
        ghost var before := pn[..];
        ghost var lost := AddRow(a[j], b.pn, j);
        if b.pn != pn {
          assert b.pn[..] == y;
          RowMod(Num(), lost, Val(before), a[j], y, j, Value(a, j));
          ValueSnoc(a, j);
        }
      }
    }

    method Clear()
      requires pn.Length == 8
      modifies pn
      ensures Valid() && pn[..] == ZERO && Num() == 0
    {
      for i := 0 to 8
        invariant forall j :: 0 <= j < i ==> pn[j] == 0
      {
        pn[i] := 0;
      }
      assert pn[..] == ZERO;
      ZeroValue();
    }

    /** Assignment of a 64-bit word. */
    method AssignWord(b: nat)
      requires pn.Length == 8 && b < LIMB * LIMB
      modifies pn
      ensures Valid() && Num() == b
    {
      hide Value, Base;
      Clear();
      pn[0], pn[1] := b % LIMB, b / LIMB;
      assert pn[..] == WordLimbs(b);
      WordValue(b);
    }

    /** The two lowest limbs; the whole number when it fits in them. */
    method GetLow64() returns (r: nat)
      requires Valid()
      ensures r == Num() % (LIMB * LIMB)
    {
      hide Value, Base, Or;
      LowWords(pn[..]);
      r := Or(pn[0], pn[1] * LIMB);
    }

    /** Left shift: multiplication by a power of two, modulo 2^256. */
    method ShlAssign(shift: nat)
      requires Valid()
      modifies pn
      ensures Valid() && Num() == (old(Num()) * Pow2(shift)) % Modulus()
    {
      hide Value, Base, Pow2, ShlLimb, Spill, Or, Shr, Shl32;
      var a := pn[..];
      Clear();
      var k, s := shift / 32, shift % 32;
      ShlStart(a, k, s);
      for i := 0 to 8
        invariant Valid()
        invariant forall m :: 0 <= m < 8 && m < i + k ==> pn[m] == ShlLimb(a, k, s, m)
        invariant i + k < 8 ==> pn[i + k] == Spill(a, s, i - 1)
        invariant forall m :: i + k < m < 8 ==> pn[m] == 0
      {
        ShlLimbs(a, k, s, i);
        if i + k + 1 < 8 && s != 0 {
          pn[i + k + 1] := Or(Shr(a[i], 32 - s), pn[i + k + 1]);
        }
        if i + k < 8 {
          pn[i + k] := Or(pn[i + k], Shl32(a[i], s));
        }
      }
      ShlIsProduct(a, pn[..], k, s);
    }

    /** Right shift: division by a power of two. */
    method ShrAssign(shift: nat)
      requires Valid()
      modifies pn
      ensures Valid() && Num() == old(Num()) / Pow2(shift)
    {
      hide Value, Base, Pow2, ShrLimb, Or, Shr, Shl32;
      var a := pn[..];
      Clear();
      var k, s := shift / 32, shift % 32;
      for i := 0 to 8
        invariant Valid()
        invariant forall m :: 0 <= m < i - k - 1 ==> pn[m] == ShrLimb(a, k, s, m)
        invariant i - k - 1 >= 0 ==> pn[i - k - 1] == Shr(a[i - 1], s)
        invariant forall m :: 0 <= m < 8 && m >= i - k ==> pn[m] == 0
      {
        ShrLimbs(a, k, s, i);
        if i - k - 1 >= 0 && s != 0 {
          pn[i - k - 1] := Or(pn[i - k - 1], Shl32(a[i], 32 - s));
        }
        if i - k >= 0 {
          pn[i - k] := Or(pn[i - k], Shr(a[i], s));
        }
      }
      ShrEnd(a, k, s);
      ShrIsQuotient(a, pn[..], k, s);
    }

    /** The number of binary digits. */
    method Bits() returns (n: nat)
      requires Valid()
      ensures IsBits(Num(), n) && n <= 256
    {
      hide Value, Base, Pow2;
      var pos := 7;
      while pos >= 0
        invariant -1 <= pos <= 7 && forall i :: pos < i < 8 ==> pn[i] == 0
      {
        if pn[pos] != 0 {
          var nbits := 31;
          Pow2Limb();
          while nbits > 0
            invariant 0 <= nbits <= 31 && pn[pos] < Pow2(nbits + 1)
          {
            TopBit(pn[pos], nbits);
            if Shr(pn[pos], nbits) % 2 == 1 {
              BitsOfLimbs(pn[..], pos, nbits);
              return 32 * pos + nbits + 1;
            }
            nbits := nbits - 1;
          }
          BitOne();
          BitsOfLimbs(pn[..], pos, 0);
          return 32 * pos + 1;
        }
        pos := pos - 1;
      }
      ValueZero(pn[..], 8);
      n := 0;
    }

    /**
     Division: the quotient rounded down, by shifting and subtracting.  Division by zero is
     refused, with the receiver already cleared.
     */
    method DivAssign(b: Uint256) returns (ok: bool)
      requires Valid() && b.Valid()
      modifies pn
      ensures Valid() && (ok <==> old(b.Num()) != 0)
      ensures ok ==> Num() == old(Num()) / old(b.Num())
      ensures !ok ==> Num() == 0
    {
      hide Value, Base, Pow2, IsBits, Or;
      var div := new Uint256(b.pn[..]);
      var num := new Uint256(pn[..]);
      ghost var n, d := num.Num(), div.Num();
      Clear();
      var numBits := num.Bits();
      var divBits := div.Bits();
      BitsZero(d, divBits);
      if divBits == 0 {
        return false;
      }
      ok := true;
      if divBits > numBits {
        FewerBits(n, d, numBits, divBits);
        return;
      }
      DivideRest(num, div, numBits - divBits, numBits, divBits);
    }

    /** The loop of the division, once the operands are known to have suitable lengths. */
    method DivideRest(num: Uint256, div: Uint256, first: nat, ghost nb: nat, ghost db: nat)
      requires Valid() && num.Valid() && div.Valid() && pn != num.pn && pn != div.pn && num.pn != div.pn
      requires pn[..] == ZERO && IsBits(num.Num(), nb) && IsBits(div.Num(), db) && nb <= 256
      requires div.Num() > 0 && nb - db == first
      modifies pn, num.pn, div.pn
      ensures Valid() && Num() == old(num.Num()) / old(div.Num())
    {
      hide Value, Base, Pow2, IsBits, Or, Dividing, LowClear;
      ghost var n, d := num.Num(), div.Num();
      DivideStart(n, d, nb, db);
      var shift: int := first;
      div.ShlAssign(shift);
      ClearAll(first + 1);
      ZeroValue();
      while shift >= 0
        invariant -1 <= shift < 256 && Valid() && num.Valid() && div.Valid()
        invariant Dividing(num.Num(), Num(), n, d, shift + 1) && LowClear(pn[..], shift + 1)
        invariant shift >= 0 ==> div.Num() == d * Pow2(shift)
      {
        ghost var before, numBefore := pn[..], num.Num();
        var cmp := num.CompareTo(div);
        ClearFewer(before, shift);
        DivideStep(numBefore, Val(before), n, d, shift);
        if cmp >= 0 {
          num.SubAssign(div);
          SetBit(before, shift);
          pn[shift / 32] := Or(Bit(shift % 32), pn[shift / 32]);
          assert pn[..] == WithBit(before, shift);
        }
        HalfShift(d, shift);
        div.ShrAssign(1);
        shift := shift - 1;
      }
      DivideEnd(num.Num(), Num(), n, d);
    }
  }
}
