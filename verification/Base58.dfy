/**
 Base58 strings (src/base58.cpp).  Bytes and digits are numbers; C strings are character
 sequences without the terminating zero character.
 */
module Base58 {
  import opened Prelude
  import opened Nat
  import opened Radix

  /** Consecutive characters. */
  function Run(first: char, n: nat): (s: string)
    requires n <= 14 && first <= 'z'
    ensures |s| == n && forall i :: 0 <= i < n ==> s[i] == first + i as char
  {
    seq(n, i requires 0 <= i < n => first + i as char)
  }

  /** All digits and letters except 0, I, O and l: 1-9, A-H, J-N, P-Z, a-k, m-z. */
  function Alphabet(): (s: string)
    ensures |s| == 58 && s[0] == '1'
  {
    Run('1', 9) + Run('A', 8) + Run('J', 5) + Run('P', 11) + Run('a', 11) + Run('m', 14)
  }

  predicate IsSpace(c: char) {
    c == ' ' || ('\U{0009}' <= c <= '\U{000D}')
  }

  // ----- the specification -----

  /** The first index of a character in a string, or the string's length. */
  function IndexOf(s: string, c: char): (k: nat)
    ensures k <= |s| && (k < |s| ==> s[k] == c) && forall i :: 0 <= i < k ==> s[i] != c
  {
    if s == [] || s[0] == c then 0 else 1 + IndexOf(s[1..], c)
  }

  function Find(c: char): (k: nat)
    ensures k <= 58
  {
    IndexOf(Alphabet(), c)
  }

  predicate InAlphabet(c: char) {
    Find(c) < 58
  }

  function Spell(digits: seq<nat>): (s: string)
    requires IsDigits(58, digits)
    ensures |s| == |digits|
  {
    seq(|digits|, i requires 0 <= i < |digits| => Alphabet()[digits[i]])
  }

  function Read(s: string): (digits: seq<nat>)
    ensures |digits| == |s|
  {
    seq(|s|, i requires 0 <= i < |s| => Find(s[i]))
  }

  /** Bytes as a Base58 string. */
  function Encoded(bytes: seq<nat>): string {
    ConvertDigits(256, 58, bytes);
    Spell(Convert(256, 58, bytes))
  }

  function SkipSpaces(s: string): (r: string)
    ensures |r| <= |s|
  {
    if s != [] && IsSpace(s[0]) then SkipSpaces(s[1..]) else s
  }

  function DropSpaces(s: string): (r: string)
    ensures |r| <= |s|
  {
    if s != [] && IsSpace(s[|s| - 1]) then DropSpaces(s[..|s| - 1]) else s
  }

  /** A string without the white space around it. */
  function Trim(s: string): string {
    DropSpaces(SkipSpaces(s))
  }

  predicate Accepted(s: string) {
    forall i :: 0 <= i < |Trim(s)| ==> InAlphabet(Trim(s)[i])
  }

  /** The bytes written by a string, when it is one. */
  function Decoded(s: string): Option<seq<nat>> {
    if Accepted(s) then Some(Convert(58, 256, Read(Trim(s)))) else None
  }

  // ----- the alphabet -----

  lemma Ascending(i: nat)
    requires i < 57
    ensures Alphabet()[i] < Alphabet()[i + 1]
  {
  }

  lemma {:induction false} Ordered(i: nat, j: nat)
    requires i < j < 58
    ensures Alphabet()[i] < Alphabet()[j]
  {
    Ascending(j - 1);
    hide Alphabet;
    if i < j - 1 {
      Ordered(i, j - 1);
    }
  }

  /** Each digit is found at its own place, and no letter is a space. */
  lemma FindSpelt(d: nat)
    requires d < 58
    ensures Find(Alphabet()[d]) == d && !IsSpace(Alphabet()[d])
  {
    hide Alphabet;
    var k := Find(Alphabet()[d]);
    if k < d {
      Ordered(k, d);
    }
    if d > 0 {
      Ordered(0, d);
    }
  }

  lemma ReadSpelt(digits: seq<nat>)
    requires IsDigits(58, digits)
    ensures Read(Spell(digits)) == digits
    ensures forall i :: 0 <= i < |digits| ==> InAlphabet(Spell(digits)[i]) && !IsSpace(Spell(digits)[i])
  {
    hide Alphabet, Find, IsSpace;
    forall i | 0 <= i < |digits|
      ensures Read(Spell(digits))[i] == digits[i] && InAlphabet(Spell(digits)[i]) && !IsSpace(Spell(digits)[i])
    {
      FindSpelt(digits[i]);
    }
  }

  lemma SpellRead(s: string)
    requires forall i :: 0 <= i < |s| ==> InAlphabet(s[i])
    ensures IsDigits(58, Read(s)) && Spell(Read(s)) == s
  {
    hide Alphabet;
  }

  lemma TrimClean(s: string)
    requires forall i :: 0 <= i < |s| ==> !IsSpace(s[i])
    ensures Trim(s) == s
  {
  }

  // ----- the two directions -----

  /** Every byte string is read back. */
  lemma DecodeEncoded(bytes: seq<nat>)
    requires IsDigits(256, bytes)
    ensures Decoded(Encoded(bytes)) == Some(bytes)
  {
    hide Find, Alphabet;
    ConvertDigits(256, 58, bytes);
    ReadSpelt(Convert(256, 58, bytes));
    TrimClean(Encoded(bytes));
    ConvertBack(256, 58, bytes);
  }

  /** Every accepted string is written back, without the white space around it. */
  lemma EncodeDecoded(s: string)
    requires Accepted(s)
    ensures Decoded(s).Some? && IsDigits(256, Decoded(s).value) && Encoded(Decoded(s).value) == Trim(s)
  {
    hide Find, Trim, Alphabet;
    SpellRead(Trim(s));
    ConvertBack(58, 256, Read(Trim(s)));
    ConvertDigits(58, 256, Read(Trim(s)));
  }

  // ----- the buffers -----

  /** The number in the last i digits. */
  function Low(b: nat, s: seq<nat>, i: nat): nat
    requires i <= |s|
  {
    if i == 0 then 0 else Low(b, s, i - 1) + s[|s| - i] * Pow(b, i - 1)
  }

  lemma {:induction false} ValCons(b: nat, d: nat, s: seq<nat>)
    ensures Val(b, [d] + s) == d * Pow(b, |s|) + Val(b, s)
  {
    if s == [] {
      assert [d] + s == [d] && [d][..0] == [];
    } else {
      var k := |s| - 1;
      ValCons(b, d, s[..k]);
      assert ([d] + s)[..k + 1] == [d] + s[..k];
      ConsArith(b, d, Pow(b, k), Val(b, s[..k]), s[k]);
    }
  }

  lemma ConsArith(b: nat, d: nat, p: nat, v: nat, x: nat)
    ensures (d * p + v) * b + x == d * (b * p) + (v * b + x)
  {
    Distribute(b, d * p, v);
    assert (d * p) * b == d * (b * p);
  }

  lemma {:induction false} LowIsVal(b: nat, s: seq<nat>, i: nat)
    requires i <= |s|
    ensures Low(b, s, i) == Val(b, s[|s| - i..])
  {
    if i > 0 {
      LowIsVal(b, s, i - 1);
      assert s[|s| - i..] == [s[|s| - i]] + s[|s| - i + 1..];
      ValCons(b, s[|s| - i], s[|s| - i + 1..]);
    }
  }

  lemma {:induction false} LowSame(b: nat, s: seq<nat>, t: seq<nat>, i: nat)
    requires |s| == |t| && i <= |s| && forall j :: |s| - i <= j < |s| ==> s[j] == t[j]
    ensures Low(b, s, i) == Low(b, t, i)
  {
    if i > 0 {
      LowSame(b, s, t, i - 1);
    }
  }

  lemma LowStep(b: nat, s: seq<nat>, i: nat)
    requires i < |s|
    ensures Low(b, s, i + 1) == Low(b, s, i) + s[|s| - i - 1] * Pow(b, i) && Pow(b, i + 1) == b * Pow(b, i)
  {
  }

  /** Zeros in front change nothing. */
  lemma {:induction false} ValZeros(b: nat, s: seq<nat>, k: nat)
    requires k <= |s| && forall i :: 0 <= i < k ==> s[i] == 0
    ensures Val(b, s) == Val(b, s[k..])
  {
    if k > 0 {
      ValZeros(b, s[1..], k - 1);
      assert s == [0] + s[1..] && s[1..][k - 1..] == s[k..];
      ValCons(b, 0, s[1..]);
      assert 0 * Pow(b, |s[1..]|) == 0;
    } else {
      assert s[0..] == s;
    }
  }

  lemma {:induction false} ValBound(b: nat, s: seq<nat>)
    requires b > 0 && IsDigits(b, s)
    ensures Val(b, s) < Pow(b, |s|)
  {
    if s != [] {
      var k := |s| - 1;
      ValBound(b, s[..k]);
      MulMonotone(Val(b, s[..k]) + 1, Pow(b, k), b);
      Distribute(b, Val(b, s[..k]), 1);
    }
  }

  /** Digits below i hold the multiplied number, up to the carry. */
  ghost predicate MulDone(s: seq<nat>, x: seq<nat>, radix: nat, factor: nat, digit: nat, i: nat, carry: nat)
    requires i <= |s| && i <= |x|
  {
    Low(radix, s, i) + carry * Pow(radix, i) == factor * Low(radix, x, i) + digit
  }

  lemma MulStart(x: seq<nat>, radix: nat, factor: nat, digit: nat)
    ensures MulDone(x, x, radix, factor, digit, 0, digit)
  {
  }

  lemma MulColumn(s: seq<nat>, x: seq<nat>, radix: nat, factor: nat, digit: nat, i: nat, carry: nat)
    requires radix >= 2 && |s| == |x| && i < |s| && s[|s| - 1 - i] == x[|s| - 1 - i]
    requires MulDone(s, x, radix, factor, digit, i, carry)
    ensures var n := carry + factor * x[|s| - 1 - i];
            MulDone(s[|s| - 1 - i := Remainder(n, radix)], x, radix, factor, digit, i + 1, Quotient(n, radix))
  {
    var k := |s| - 1 - i;
    var n := carry + factor * x[k];
    var t := s[k := Remainder(n, radix)];
    LowSame(radix, s, t, i);
    LowStep(radix, t, i);
    LowStep(radix, x, i);
    hide Low, Pow;
    MulArith(Low(radix, s, i), Low(radix, x, i), Pow(radix, i), radix, factor, digit, carry, x[k]);
  }

  lemma MulArith(vs: nat, vx: nat, p: nat, radix: nat, factor: nat, digit: nat, carry: nat, x: nat)
    requires radix > 0 && vs + carry * p == factor * vx + digit
    ensures var n := carry + factor * x;
            vs + Remainder(n, radix) * p + Quotient(n, radix) * (radix * p) == factor * (vx + x * p) + digit
  {
    var n := carry + factor * x;
    Euclid(n, radix);
    var lo, hi := Remainder(n, radix), Quotient(n, radix);
    hide Remainder, Quotient;
    assert n == hi * radix + lo;
    assert n * p == (hi * radix) * p + lo * p;
    assert (hi * radix) * p == hi * (radix * p);
    assert n * p == carry * p + (factor * x) * p;
    Distribute(factor, vx, x * p);
    assert factor * (x * p) == (factor * x) * p;
  }

  /** Above the digits in use everything is zero, before and after. */
  lemma MulStop(s: seq<nat>, x: seq<nat>, radix: nat, factor: nat, digit: nat, i: nat, carry: nat)
    requires |s| == |x| && i <= |s| && MulDone(s, x, radix, factor, digit, i, carry)
    requires forall j :: 0 <= j < |s| - i ==> s[j] == x[j] == 0
    requires carry != 0 ==> i == |s|
    ensures Val(radix, s) + carry * Pow(radix, |s|) == factor * Val(radix, x) + digit
  {
    LowIsVal(radix, s, i);
    LowIsVal(radix, x, i);
    ValZeros(radix, s, |s| - i);
    ValZeros(radix, x, |x| - i);
    hide Low, Pow, Val;
    if carry == 0 {
      assert 0 * Pow(radix, |s|) == 0 && 0 * Pow(radix, i) == 0;
    }
  }

  /** Multiplies the number in the buffer by `factor` and adds `digit`, from the last digit up. */
  method MulAdd(buf: array<nat>, radix: nat, factor: nat, digit: nat, length: nat) returns (carry: nat, i: nat)
    requires radix >= 2 && IsDigits(radix, buf[..]) && length <= buf.Length
    requires forall j :: 0 <= j < buf.Length - length ==> buf[j] == 0
    modifies buf
    ensures IsDigits(radix, buf[..]) && i <= buf.Length && forall j :: 0 <= j < buf.Length - i ==> buf[j] == 0
    ensures Val(radix, buf[..]) + carry * Pow(radix, buf.Length) == factor * Val(radix, old(buf[..])) + digit
  {
    hide MulDone, Val, Pow, Low, Remainder, Quotient;
    ghost var x := buf[..];
    carry, i := digit, 0;
    MulStart(x, radix, factor, digit);
    while (carry != 0 || i < length) && i < buf.Length
      invariant i <= buf.Length && IsDigits(radix, buf[..])
      invariant forall j :: 0 <= j < buf.Length - i ==> buf[j] == x[j]
      invariant MulDone(buf[..], x, radix, factor, digit, i, carry)
      decreases buf.Length - i
    {
      var k := buf.Length - 1 - i;
      ghost var before := buf[..];
      MulColumn(before, x, radix, factor, digit, i, carry);
      carry := carry + factor * buf[k];
      buf[k] := Remainder(carry, radix);
      assert buf[..] == before[k := Remainder(carry, radix)];
      carry := Quotient(carry, radix);
      i := i + 1;
    }
    MulStop(buf[..], x, radix, factor, digit, i, carry);
  }

  /** The buffer is large enough, so nothing is carried out of it. */
  lemma NoCarry(v: nat, carry: nat, p: nat, total: nat)
    requires v + carry * p == total < p
    ensures carry == 0 && v == total
  {
    AtLeastOnce(p, carry);
  }

  /** The digits from the first non-zero one on are those of the number. */
  method Significant(buf: array<nat>, radix: nat, length: nat) returns (digits: seq<nat>)
    requires radix >= 2 && IsDigits(radix, buf[..]) && length <= buf.Length
    requires forall j :: 0 <= j < buf.Length - length ==> buf[j] == 0
    ensures digits == Digits(radix, Val(radix, buf[..]))
  {
    hide Val, Digits;
    var it := buf.Length - length;
    while it < buf.Length && buf[it] == 0
      invariant it <= buf.Length && forall j :: 0 <= j < it ==> buf[j] == 0
    {
      it := it + 1;
    }
    digits := buf[it..];
    ValZeros(radix, buf[..], it);
    assert buf[..][it..] == digits;
    DigitsUnique(radix, digits);
  }

  // ----- sizes -----

  lemma EncodeBuffer(n: nat)
    ensures Pow(256, n) < Pow(58, n * 138 / 100 + 1)
  {
    hide Pow;
    Sizes58();
    BufferSuffices(256, 58, 138, 100, n);
  }

  lemma DecodeBuffer(n: nat)
    ensures Pow(58, n) < Pow(256, n * 733 / 1000 + 1)
  {
    hide Pow;
    Sizes256();
    BufferSuffices(58, 256, 733, 1000, n);
  }

  /** 256^8 < 58^11 and 256^4 < 58^6 give 256^100 < 58^138. */
  lemma Sizes58()
    ensures Pow(256, 100) < Pow(58, 138)
  {
    hide Pow;
    Small58();
    Small256();
    Repeated(256, 8, 58, 11, 12, 4, 6);
  }

  /** 58^71 < 256^52 and 58^6 < 256^5 give 58^1000 < 256^733. */
  lemma Sizes256()
    ensures Pow(58, 1000) < Pow(256, 733)
  {
    hide Pow;
    Small58();
    Small256();
    SeventyOne();
    Repeated(58, 71, 256, 52, 14, 6, 5);
  }

  lemma Small58()
    ensures Pow(58, 6) == 38068692544 && Pow(58, 7) == 2207984167552 && Pow(58, 8) == 128063081718016 && Pow(58, 11) == 24986644000165537792
  {
    assert Pow(58, 5) == 656356768;
    assert Pow(58, 6) == 58 * Pow(58, 5);
    assert Pow(58, 7) == 58 * Pow(58, 6);
    assert Pow(58, 8) == 58 * Pow(58, 7);
    hide Pow;
    PowAdd(58, 5, 6);
  }

  lemma Small256()
    ensures Pow(256, 4) == 0x1_0000_0000 && Pow(256, 5) == 0x100_0000_0000 && Pow(256, 8) == 0x1_0000_0000_0000_0000
  {
    assert Pow(256, 4) == 0x1_0000_0000;
    assert Pow(256, 5) == 256 * Pow(256, 4);
    hide Pow;
    PowAdd(256, 4, 4);
  }

  /** Taking one inequality `times` over and another once. */
  lemma Repeated(a: nat, m: nat, b: nat, n: nat, times: nat, r: nat, s: nat)
    requires a > 0 && b > 0 && Pow(a, m) < Pow(b, n) && Pow(a, r) < Pow(b, s)
    ensures Pow(a, m * times + r) < Pow(b, n * times + s)
  {
    PowPow(a, m, times);
    PowPow(b, n, times);
    PowMonotone(Pow(a, m), Pow(b, n), times);
    PowAdd(a, m * times, r);
    PowAdd(b, n * times, s);
    StrictProduct(Pow(a, m * times), Pow(b, n * times), Pow(a, r), Pow(b, s));
  }

  lemma SeventyOne()
    ensures Pow(58, 71) < Pow(256, 52)
  {
    hide Pow;
    Small58();
    Small256();
    PowAdd(58, 8, 8);
    PowAdd(58, 16, 16);
    PowAdd(58, 32, 32);
    PowAdd(58, 64, 7);
    assert Pow(58, 16) == 16400152899115243850138976256;
    assert Pow(58, 32) == 268965015114358137726910587140455987105619365599731777536;
    assert Pow(58, 64) == 72342179355466901471258927612150153907721848234316445933056526044582001260898145151856420451025374266490194231296;
    assert Pow(58, 71) == 159730386663078066345306447337161584696769904898410078913243029577507397293846405390982563136983769384625594118558891106107392;
    PowAdd(256, 8, 8);
    PowAdd(256, 16, 16);
    PowAdd(256, 32, 16);
    PowAdd(256, 48, 4);
    assert Pow(256, 16) == 340282366920938463463374607431768211456;
    assert Pow(256, 32) == 115792089237316195423570985008687907853269984665640564039457584007913129639936;
    assert Pow(256, 48) == 39402006196394479212279040100143613805079739270465446667948293404245721771497210611414266254884915640806627990306816;
    assert Pow(256, 52) == 169230328010303641331690318856389386196071598838855992136870091590247882556495704531248437872567112920983350278405979725889536;
  }

  // ----- the code -----

  /** The Base58 digits of a number given in bytes. */
  method EncodeDigits(rest: seq<nat>) returns (digits: seq<nat>)
    requires IsDigits(256, rest)
    ensures digits == Digits(58, Val(256, rest))
  {
    hide Val, Pow, Digits;
    var length: nat := 0;
    var size := |rest| * 138 / 100 + 1;
    var b58 := new nat[size](_ => 0);
    EmptyBuffer(58, b58[..]);
    EmptyBuffer(256, []);
    EncodeBuffer(|rest|);
    assert rest[..0] == [];
    for p := 0 to |rest|
      invariant IsDigits(58, b58[..]) && length <= size && forall j :: 0 <= j < size - length ==> b58[j] == 0
      invariant Val(58, b58[..]) == Val(256, rest[..p])
    {
      var carry, i := MulAdd(b58, 58, 256, rest[p], length);
      NextFits(256, rest, p, Pow(58, size));
      NoCarry(Val(58, b58[..]), carry, Pow(58, size), Val(256, rest[..p + 1]));
      assert carry == 0;
      length := i;
    }
    assert rest[..|rest|] == rest;
    digits := Significant(b58, 58, length);
  }

  /** One more digit: the number so far stays below the capacity. */
  lemma NextFits(b: nat, s: seq<nat>, p: nat, capacity: nat)
    requires b >= 2 && IsDigits(b, s) && p < |s| && Pow(b, |s|) < capacity
    ensures Val(b, s[..p + 1]) == b * Val(b, s[..p]) + s[p] < capacity
  {
    hide Val, Pow;
    assert s[..p + 1] == s[..p] + [s[p]];
    ValSnoc(b, s[..p], s[p]);
    ValBound(b, s[..p + 1]);
    Within(b, p + 1, |s|);
  }

  method EncodeBase58(bytes: seq<nat>) returns (str: string)
    requires IsDigits(256, bytes)
    ensures str == Encoded(bytes)
  {
    hide Val, Pow, Digits, Alphabet, Leading, Spell;
    var zeroes: nat := 0;
    while zeroes < |bytes| && bytes[zeroes] == 0
      invariant zeroes <= |bytes| && forall j :: 0 <= j < zeroes ==> bytes[j] == 0
    {
      zeroes := zeroes + 1;
    }
    LeadingIs(bytes, zeroes);
    var digits := EncodeDigits(bytes[zeroes..]);
    str := seq(zeroes, _ => '1');
    SpellOnes(zeroes, digits);
    for k := 0 to |digits|
      invariant str == Spell(Zeros(zeroes) + digits[..k])
    {
      SpellNext(Zeros(zeroes), digits, k);
      str := str + [Alphabet()[digits[k]]];
    }
    assert digits[..|digits|] == digits;
  }

  lemma SpellNext(z: seq<nat>, digits: seq<nat>, k: nat)
    requires IsDigits(58, z) && IsDigits(58, digits) && k < |digits|
    ensures Spell(z + digits[..k + 1]) == Spell(z + digits[..k]) + [Alphabet()[digits[k]]]
  {
    hide Alphabet;
    assert z + digits[..k + 1] == (z + digits[..k]) + [digits[k]];
  }

  lemma LeadingIs(s: seq<nat>, z: nat)
    requires z <= |s| && (forall j :: 0 <= j < z ==> s[j] == 0) && (z < |s| ==> s[z] != 0)
    ensures Leading(s) == z
  {
  }

  lemma EmptyBuffer(b: nat, s: seq<nat>)
    requires forall j :: 0 <= j < |s| ==> s[j] == 0
    ensures Val(b, s) == 0 && Val(b, []) == 0
  {
    ValZeros(b, s, |s|);
  }

  lemma Within(b: nat, k: nat, n: nat)
    requires b >= 2 && k <= n
    ensures Pow(b, k) <= Pow(b, n)
  {
    if k < n {
      PowGrows(b, k, n);
    }
  }

  lemma SpellOnes(z: nat, digits: seq<nat>)
    requires IsDigits(58, digits)
    ensures Spell(Zeros(z) + digits[..0]) == seq(z, _ => '1')
  {
    assert Alphabet()[0] == '1';
    assert Zeros(z) + digits[..0] == Zeros(z);
  }

  /** The bytes of a number given in Base58 digits, in a buffer that may be longer. */
  method DecodeDigits(s: string, start: nat) returns (ok: bool, end: nat, bytes: seq<nat>)
    requires start <= |s|
    ensures start <= end <= |s| && (forall i :: start <= i < end ==> InAlphabet(s[i]))
    ensures end < |s| ==> if ok then IsSpace(s[end]) else !InAlphabet(s[end]) && !IsSpace(s[end])
    ensures !ok ==> end < |s|
    ensures ok ==> bytes == Digits(256, Val(58, Read(s[start..end])))
  {
    hide Val, Pow, Digits, Alphabet, Find, IsSpace;
    var length: nat := 0;
    var size := (|s| - start) * 733 / 1000 + 1;
    var b256 := new nat[size](_ => 0);
    EmptyBuffer(256, b256[..]);
    EmptyBuffer(58, []);
    DecodeBuffer(|s| - start);
    end := start;
    bytes := [];
    assert Read(s[start..start]) == [];
    while end < |s| && !IsSpace(s[end])
      invariant start <= end <= |s| && forall i :: start <= i < end ==> InAlphabet(s[i])
      invariant IsDigits(256, b256[..]) && length <= size && forall j :: 0 <= j < size - length ==> b256[j] == 0
      invariant Val(256, b256[..]) == Val(58, Read(s[start..end]))
    {
      var ch := Find(s[end]);
      if ch == 58 {
        return false, end, [];
      }
      var carry, i := MulAdd(b256, 256, 58, ch, length);
      ReadNext(s, start, end, Pow(256, size));
      NoCarry(Val(256, b256[..]), carry, Pow(256, size), Val(58, Read(s[start..end + 1])));
      assert carry == 0;
      length := i;
      end := end + 1;
    }
    ok := true;
    bytes := Significant(b256, 256, length);
  }

  lemma ReadNext(s: string, start: nat, end: nat, capacity: nat)
    requires start <= end < |s| && (forall i :: start <= i <= end ==> InAlphabet(s[i])) && Pow(58, |s| - start) < capacity
    ensures Val(58, Read(s[start..end + 1])) == 58 * Val(58, Read(s[start..end])) + Find(s[end]) < capacity
  {
    hide Val, Pow, Find;
    var d := Read(s[start..end + 1]);
    assert d == Read(s[start..end]) + [Find(s[end])];
    Within(58, |d|, |s| - start);
    NextFits58(d, Read(s[start..end]), capacity);
  }

  lemma NextFits58(d: seq<nat>, c: seq<nat>, capacity: nat)
    requires IsDigits(58, d) && d != [] && c == d[..|d| - 1] && Pow(58, |d|) < capacity
    ensures Val(58, d) == 58 * Val(58, c) + d[|d| - 1] < capacity
  {
    assert d[..|d|] == d;
    NextFits(58, d, |d| - 1, capacity);
  }

  // ----- white space -----

  lemma {:induction false} DropIs(t: string, m: nat)
    requires m <= |t| && (forall i :: m <= i < |t| ==> IsSpace(t[i])) && (m > 0 ==> !IsSpace(t[m - 1]))
    ensures DropSpaces(t) == t[..m]
  {
    if m < |t| {
      DropIs(t[..|t| - 1], m);
      assert t[..|t| - 1][..m] == t[..m];
    } else {
      assert t[..m] == t;
    }
  }

  lemma {:induction false} DropKeeps(t: string, e: nat)
    requires e < |t| && !IsSpace(t[e])
    ensures |DropSpaces(t)| > e && DropSpaces(t) <= t
  {
    if IsSpace(t[|t| - 1]) {
      DropKeeps(t[..|t| - 1], e);
    }
  }

  lemma LetterNotSpace(c: char)
    requires InAlphabet(c)
    ensures !IsSpace(c) && (Find(c) == 0 <==> c == '1')
  {
    hide Alphabet, IsSpace;
    FindSpelt(Find(c));
    FindSpelt(0);
  }

  lemma OneIsZero()
    ensures Find('1') == 0
  {
    hide Alphabet;
    FindSpelt(0);
  }

  /** A character that is neither a letter nor white space, with letters before it. */
  lemma Refused(s: string, body: string, e: nat)
    requires body == SkipSpaces(s) && e < |body| && !InAlphabet(body[e]) && !IsSpace(body[e])
    ensures !Accepted(s)
  {
    hide InAlphabet, IsSpace, DropSpaces;
    DropKeeps(body, e);
    assert Trim(s)[e] == body[e];
  }

  /** White space in the middle. */
  lemma Inner(s: string, body: string, e: nat, rest: nat)
    requires body == SkipSpaces(s) && e < rest < |body| && IsSpace(body[e]) && !IsSpace(body[rest])
    ensures !Accepted(s)
  {
    hide InAlphabet, IsSpace, DropSpaces;
    DropKeeps(body, rest);
    assert Trim(s)[e] == body[e];
    if InAlphabet(body[e]) {
      LetterNotSpace(body[e]);
    }
  }

  /** Ones, other letters, white space. */
  lemma Clean(s: string, body: string, z: nat, e: nat)
    requires body == SkipSpaces(s) && z <= e <= |body|
    requires forall i :: 0 <= i < z ==> body[i] == '1'
    requires z < e ==> body[z] != '1'
    requires forall i :: z <= i < e ==> InAlphabet(body[i])
    requires forall i :: e <= i < |body| ==> IsSpace(body[i])
    ensures Accepted(s)
    ensures Convert(58, 256, Read(Trim(s))) == Zeros(z) + Digits(256, Val(58, Read(body[z..e])))
  {
    hide IsSpace, DropSpaces, Val, Digits, Alphabet, Find, Leading;
    OneIsZero();
    if e > 0 {
      LetterNotSpace(body[e - 1]);
    }
    DropIs(body, e);
    var digits := Read(body[..e]);
    if z < e {
      LetterNotSpace(body[z]);
    }
    LeadingIs(digits, z);
    assert digits[z..] == Read(body[z..e]);
  }

  method SkipWhite(s: string) returns (psz: nat)
    ensures psz <= |s| && SkipSpaces(s) == s[psz..]
  {
    psz := 0;
    assert s[0..] == s;
    while psz < |s| && IsSpace(s[psz])
      invariant psz <= |s| && SkipSpaces(s) == SkipSpaces(s[psz..])
    {
      assert s[psz..][1..] == s[psz + 1..];
      psz := psz + 1;
    }
  }

  /** The end of a run of characters chosen by a test. */
  method RunEnd(s: string, start: nat, chosen: char -> bool) returns (end: nat)
    requires start <= |s|
    ensures start <= end <= |s| && (end < |s| ==> !chosen(s[end]))
    ensures forall i :: start <= i < end ==> chosen(s[i])
  {
    end := start;
    while end < |s| && chosen(s[end])
      invariant start <= end <= |s| && forall i :: start <= i < end ==> chosen(s[i])
    {
      end := end + 1;
    }
  }

  /** Accepts a string exactly when, white space around it aside, all its characters are Base58. */
  method DecodeBase58(s: string) returns (r: Option<seq<nat>>)
    requires '\0' !in s
    ensures r == Decoded(s)
  {
    hide Val, Digits, Alphabet, Find, IsSpace, Convert, DropSpaces, SkipSpaces, InAlphabet, Accepted, Trim, Read;
    var psz := SkipWhite(s);
    ghost var body := s[psz..];
    var first := RunEnd(s, psz, c => c == '1');
    var zeroes := first - psz;
    var ok, end, digits := DecodeDigits(s, first);
    if !ok {
      assert body[end - psz] == s[end];
      Refused(s, body, end - psz);
      return None;
    }
    var rest := RunEnd(s, end, IsSpace);
    if rest < |s| {
      assert body[end - psz] == s[end] && body[rest - psz] == s[rest];
      Inner(s, body, end - psz, rest - psz);
      return None;
    }
    Clean(s, body, zeroes, end - psz);
    assert body[zeroes..end - psz] == s[first..end];
    r := Some(Zeros(zeroes) + digits);
  }

  // ----- with a checksum -----

  /** Four check bytes at the end. */
  function EncodedCheck(sum: seq<nat> -> seq<nat>, bytes: seq<nat>): string {
    Encoded(bytes + sum(bytes))
  }

  method EncodeBase58Check(sum: seq<nat> -> seq<nat>, bytes: seq<nat>) returns (str: string)
    requires IsDigits(256, bytes) && |sum(bytes)| == 4 && IsDigits(256, sum(bytes))
    ensures str == EncodedCheck(sum, bytes)
  {
    str := EncodeBase58(bytes + sum(bytes));
  }

  /** Accepts exactly the strings written by the encoder, up to white space around them. */
  method DecodeBase58Check(sum: seq<nat> -> seq<nat>, s: string) returns (r: Option<seq<nat>>)
    requires '\0' !in s && forall b :: |sum(b)| == 4 && IsDigits(256, sum(b))
    ensures r.Some? ==> IsDigits(256, r.value) && EncodedCheck(sum, r.value) == Trim(s)
    ensures forall b :: IsDigits(256, b) && EncodedCheck(sum, b) == Trim(s) ==> r == Some(b)
  {
    hide Encoded, Decoded, Trim, Accepted;
    var d := DecodeBase58(s);
    forall b | IsDigits(256, b) && EncodedCheck(sum, b) == Trim(s)
      ensures d == Some(b + sum(b))
    {
      SameTrim(s, b + sum(b));
    }
    if d == None || |d.value| < 4 {
      return None;
    }
    var k := |d.value| - 4;
    var bytes := d.value[..k];
    WasAccepted(s);
    forall b | IsDigits(256, b) && EncodedCheck(sum, b) == Trim(s)
      ensures bytes == b && d.value[k..] == sum(b)
    {
      assert (b + sum(b))[..k] == b && (b + sum(b))[k..] == sum(b);
    }
    if sum(bytes) != d.value[k..] {
      return None;
    }
    assert d.value == bytes + sum(bytes);
    r := Some(bytes);
  }

  lemma WasAccepted(s: string)
    requires Decoded(s).Some?
    ensures IsDigits(256, Decoded(s).value) && Encoded(Decoded(s).value) == Trim(s)
  {
    hide Encoded, Trim;
    EncodeDecoded(s);
  }

  /** A string that trims to an encoding decodes to what was encoded. */
  lemma SameTrim(s: string, bytes: seq<nat>)
    requires IsDigits(256, bytes) && Encoded(bytes) == Trim(s)
    ensures Decoded(s) == Some(bytes)
  {
    DecodeEncoded(bytes);
    ConvertDigits(256, 58, bytes);
    ReadSpelt(Convert(256, 58, bytes));
    hide Find, Alphabet;
    TrimClean(Encoded(bytes));
  }

  lemma LetterDigits()
    ensures Convert(256, 58, [0x61]) == [1, 39]
  {
    var bytes := [0x61];
    LetterValue(bytes);
    hide Val;
    assert Leading(bytes) == 0 && bytes[0..] == bytes;
    assert Digits(58, 0) == [];
    assert Digits(58, 1) == [] + [1];
    assert Digits(58, 97) == [1] + [39];
    assert Zeros(0) + [1, 39] == [1, 39];
  }

  lemma LetterValue(bytes: seq<nat>)
    requires bytes == [0x61]
    ensures Val(256, bytes) == 0x61
  {
    assert bytes == [] + [0x61];
    ValSnoc(256, [], 0x61);
  }

  lemma TwoLetters()
    ensures Alphabet()[1] == '2' && Alphabet()[39] == 'g'
  {
  }

  /** A small example: the byte of the letter a is written as 2g. */
  lemma EncodedLetter()
    ensures Encoded([0x61]) == "2g"
  {
    hide Convert, Alphabet;
    LetterDigits();
    TwoLetters();
  }
}
