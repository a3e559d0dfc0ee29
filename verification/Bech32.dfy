/**
 Bech32 strings (src/bech32.cpp): a prefix, a separator and five-bit symbols of which the
 last six make the remainder modulo the generator polynomial equal to one.
 */
module Bech32 {
  import opened Prelude

  /** A five-bit symbol. */
  type Sym = bv5

  // ----- the checksum register -----

  /** The 30-bit register as its six five-bit groups, the highest first. */
  datatype Register = Register(a: Sym, b: Sym, c: Sym, d: Sym, e: Sym, f: Sym)

  const ZERO := Register(0, 0, 0, 0, 0, 0)
  const ONE := Register(0, 0, 0, 0, 0, 1)

  /** The integer that packs the groups. */
  function Packed(r: Register): int {
    ((((r.a as int * 32 + r.b as int) * 32 + r.c as int) * 32 + r.d as int) * 32 + r.e as int) * 32 + r.f as int
  }

  /** Addition in the field of 32 elements. */
  function Plus(x: Sym, y: Sym): Sym {
    x ^ y
  }

  function Add(r: Register, s: Register): Register {
    Register(Plus(r.a, s.a), Plus(r.b, s.b), Plus(r.c, s.c), Plus(r.d, s.d), Plus(r.e, s.e), Plus(r.f, s.f))
  }

  function When(on: bool, r: Register): Register {
    if on then r else ZERO
  }

  /** The groups move up by one; a symbol enters at the bottom. */
  function Shift(r: Register, v: Sym): Register {
    Register(r.b, r.c, r.d, r.e, r.f, v)
  }

  // The generator times each power of two, as packed in the source.
  const K1 := Register(29, 22, 20, 21, 29, 18)
  const K2 := Register(19, 5, 1, 3, 19, 13)
  const K4 := Register(15, 10, 2, 6, 15, 26)
  const K8 := Register(30, 20, 4, 12, 30, 29)
  const K16 := Register(21, 1, 8, 24, 21, 19)

  lemma GeneratorConstants()
    ensures Packed(K1) == 0x3b6a57b2 && Packed(K2) == 0x26508e6d && Packed(K4) == 0x1ea119fa
    ensures Packed(K8) == 0x3d4233dd && Packed(K16) == 0x2a1462b3
  {
  }

  /** What the group that leaves at the top brings back. */
  function Reduce(top: Sym): Register {
    Add(Reduce8(top), When(Has(top, 16), K16))
  }

  function Reduce8(top: Sym): Register {
    Add(Reduce4(top), When(Has(top, 8), K8))
  }

  function Reduce4(top: Sym): Register {
    Add(Reduce2(top), When(Has(top, 4), K4))
  }

  function Reduce2(top: Sym): Register {
    Add(When(Has(top, 1), K1), When(Has(top, 2), K2))
  }

  predicate Has(x: Sym, bit: Sym) {
    x & bit != 0
  }

  /** One symbol is processed. */
  function Step(r: Register, v: Sym): Register {
    Add(Shift(r, v), Reduce(r.a))
  }

  /** The conditional additions one after the other. */
  method StepFeed(r: Register, c0: Sym) returns (c: Register)
    ensures c == Add(r, Reduce(c0))
  {
    hide Add, When;
    c := r;
    AddLaws(r, When(Has(c0, 1), K1), When(Has(c0, 2), K2));
    AddLaws(r, Reduce2(c0), When(Has(c0, 4), K4));
    AddLaws(r, Reduce4(c0), When(Has(c0, 8), K8));
    AddLaws(r, Reduce8(c0), When(Has(c0, 16), K16));
    c := Fed(c, Has(c0, 1), K1);
    c := Fed(c, Has(c0, 2), K2);
    c := Fed(c, Has(c0, 4), K4);
    c := Fed(c, Has(c0, 8), K8);
    c := Fed(c, Has(c0, 16), K16);
  }

  function Fed(c: Register, on: bool, k: Register): (r: Register)
    ensures r == Add(c, When(on, k))
  {
    AddLaws(c, ZERO, ZERO);
    if on then Add(c, k) else c
  }

  function PolyRun(r: Register, s: seq<Sym>): Register {
    if s == [] then r else Step(PolyRun(r, s[..|s| - 1]), s[|s| - 1])
  }

  // ----- the register is linear -----

  lemma PlusLaws(x: Sym, y: Sym, z: Sym)
    ensures Plus(x, y) == Plus(y, x) && Plus(Plus(x, y), z) == Plus(x, Plus(y, z))
    ensures Plus(x, x) == 0 && Plus(x, 0) == x && Plus(0, x) == x
  {
  }

  lemma AddLaws(r: Register, s: Register, t: Register)
    ensures Add(r, s) == Add(s, r) && Add(Add(r, s), t) == Add(r, Add(s, t))
    ensures Add(r, r) == ZERO && Add(r, ZERO) == r && Add(ZERO, r) == r
  {
    hide Plus;
    PlusLaws(r.a, s.a, t.a);
    PlusLaws(r.b, s.b, t.b);
    PlusLaws(r.c, s.c, t.c);
    PlusLaws(r.d, s.d, t.d);
    PlusLaws(r.e, s.e, t.e);
    PlusLaws(r.f, s.f, t.f);
  }

  lemma Regroup(p: Register, q: Register, r: Register, s: Register)
    ensures Add(Add(p, q), Add(r, s)) == Add(Add(p, r), Add(q, s))
  {
    hide Add;
    AddLaws(p, q, Add(r, s));
    AddLaws(q, r, s);
    AddLaws(r, q, s);
    AddLaws(p, r, Add(q, s));
  }

  lemma HasAdds(x: Sym, y: Sym, bit: Sym)
    requires bit == 1 || bit == 2 || bit == 4 || bit == 8 || bit == 16
    ensures Has(Plus(x, y), bit) == (Has(x, bit) != Has(y, bit))
  {
  }

  lemma WhenAdds(x: bool, y: bool, k: Register)
    ensures When(x != y, k) == Add(When(x, k), When(y, k))
  {
    hide Add;
    AddLaws(k, k, k);
    AddLaws(ZERO, ZERO, ZERO);
  }

  /** One more conditional term keeps a map additive. */
  lemma WhenJoins(ta: Register, tb: Register, x: bool, y: bool, k: Register)
    ensures Add(Add(ta, tb), When(x != y, k)) == Add(Add(ta, When(x, k)), Add(tb, When(y, k)))
  {
    hide Add, When;
    WhenAdds(x, y, k);
    Regroup(ta, tb, When(x, k), When(y, k));
  }

  lemma ReduceAdds(x: Sym, y: Sym)
    ensures Reduce(Plus(x, y)) == Add(Reduce(x), Reduce(y))
  {
    hide Add, When, Has, Plus;
    HasAdds(x, y, 1);
    HasAdds(x, y, 2);
    HasAdds(x, y, 4);
    HasAdds(x, y, 8);
    HasAdds(x, y, 16);
    WhenAdds(Has(x, 1), Has(y, 1), K1);
    WhenJoins(When(Has(x, 1), K1), When(Has(y, 1), K1), Has(x, 2), Has(y, 2), K2);
    WhenJoins(Reduce2(x), Reduce2(y), Has(x, 4), Has(y, 4), K4);
    WhenJoins(Reduce4(x), Reduce4(y), Has(x, 8), Has(y, 8), K8);
    WhenJoins(Reduce8(x), Reduce8(y), Has(x, 16), Has(y, 16), K16);
  }

  /** The lowest group brought back tells which group left. */
  lemma ReduceZero(x: Sym)
    requires Reduce(x).f == 0
    ensures x == 0
  {
  }

  lemma HasBits(x: Sym)
    ensures x == 0 ==> !Has(x, 1) && !Has(x, 2) && !Has(x, 4) && !Has(x, 8) && !Has(x, 16)
    ensures x == 1 ==> Has(x, 1) && !Has(x, 2) && !Has(x, 4) && !Has(x, 8) && !Has(x, 16)
    ensures x == 18 ==> !Has(x, 1) && Has(x, 2) && !Has(x, 4) && !Has(x, 8) && Has(x, 16)
    ensures x == 30 ==> !Has(x, 1) && Has(x, 2) && Has(x, 4) && Has(x, 8) && Has(x, 16)
  {
  }

  lemma ReduceNone()
    ensures Reduce(0) == ZERO
  {
    hide Add, Has;
    HasBits(0);
    AddLaws(ZERO, ZERO, ZERO);
  }

  lemma ShiftAdds(r: Register, s: Register, v: Sym, w: Sym)
    ensures Shift(Add(r, s), Plus(v, w)) == Add(Shift(r, v), Shift(s, w))
  {
    hide Plus;
  }

  /** Sums of registers evolve as sums. */
  lemma StepAdds(r: Register, s: Register, v: Sym, w: Sym)
    ensures Step(Add(r, s), Plus(v, w)) == Add(Step(r, v), Step(s, w))
  {
    ReduceAdds(r.a, s.a);
    ShiftAdds(r, s, v, w);
    assert Add(r, s).a == Plus(r.a, s.a);
    hide Reduce, Add, Shift, Plus;
    Regroup(Shift(r, v), Shift(s, w), Reduce(r.a), Reduce(s.a));
  }

  /** A non-zero difference stays non-zero. */
  lemma StepZero(r: Register)
    requires Step(r, 0) == ZERO
    ensures r == ZERO
  {
    hide Reduce, Plus;
    PlusLaws(Reduce(r.a).f, 0, 0);
    ReduceZero(r.a);
    ReduceNone();
    AddLaws(Shift(r, 0), ZERO, ZERO);
  }

  // ----- whole runs -----

  function Zeros(n: nat): (s: seq<Sym>)
    ensures |s| == n && forall i :: 0 <= i < n ==> s[i] == 0
  {
    seq(n, _ => 0)
  }

  function Diff(x: seq<Sym>, y: seq<Sym>): (d: seq<Sym>)
    requires |x| == |y|
    ensures |d| == |x| && forall i :: 0 <= i < |d| ==> d[i] == Plus(x[i], y[i])
  {
    seq(|x|, i requires 0 <= i < |x| => Plus(x[i], y[i]))
  }

  lemma RunSnoc(r: Register, s: seq<Sym>, v: Sym)
    ensures PolyRun(r, s + [v]) == Step(PolyRun(r, s), v)
  {
    assert (s + [v])[..|s|] == s;
  }

  lemma {:induction false} RunJoin(r: Register, s: seq<Sym>, t: seq<Sym>)
    ensures PolyRun(r, s + t) == PolyRun(PolyRun(r, s), t)
  {
    hide Step;
    if t == [] {
      assert s + t == s;
    } else {
      var k := |t| - 1;
      RunJoin(r, s, t[..k]);
      assert s + t == (s + t[..k]) + [t[k]];
      RunSnoc(r, s + t[..k], t[k]);
    }
  }

  lemma {:induction false} RunAdds(r: Register, s: Register, x: seq<Sym>, y: seq<Sym>)
    requires |x| == |y|
    ensures PolyRun(Add(r, s), Diff(x, y)) == Add(PolyRun(r, x), PolyRun(s, y))
  {
    hide Step, Add, Plus;
    if x != [] {
      var k := |x| - 1;
      RunAdds(r, s, x[..k], y[..k]);
      assert Diff(x, y)[..k] == Diff(x[..k], y[..k]);
      StepAdds(PolyRun(r, x[..k]), PolyRun(s, y[..k]), x[k], y[k]);
    }
  }

  /** Zeros bring a register to zero only from zero. */
  lemma {:induction false} RunZero(r: Register, n: nat)
    ensures PolyRun(r, Zeros(n)) == ZERO <==> r == ZERO
  {
    hide Step;
    if n > 0 {
      assert Zeros(n)[..n - 1] == Zeros(n - 1);
      var before := PolyRun(r, Zeros(n - 1));
      RunZero(r, n - 1);
      StepFromZero();
      if Step(before, 0) == ZERO {
        StepZero(before);
      }
    }
  }

  lemma StepFromZero()
    ensures Step(ZERO, 0) == ZERO
  {
    ReduceNone();
    hide Reduce;
    AddLaws(ZERO, ZERO, ZERO);
  }

  function Unpacked(r: Register): seq<Sym> {
    [r.a, r.b, r.c, r.d, r.e, r.f]
  }

  /** Six symbols fill an empty register. */
  lemma RunSix(r: Register)
    ensures PolyRun(ZERO, Unpacked(r)) == r
  {
    hide Step, PolyRun;
    var s := Unpacked(r);
    RunNone();
    StepFree(ZERO, r.a);
    StepFree(Register(0, 0, 0, 0, 0, r.a), r.b);
    StepFree(Register(0, 0, 0, 0, r.a, r.b), r.c);
    StepFree(Register(0, 0, 0, r.a, r.b, r.c), r.d);
    StepFree(Register(0, 0, r.a, r.b, r.c, r.d), r.e);
    StepFree(Register(0, r.a, r.b, r.c, r.d, r.e), r.f);
    RunSnoc(ZERO, [], r.a);
    assert [] + [r.a] == [r.a];
    RunSnoc(ZERO, [r.a], r.b);
    RunSnoc(ZERO, [r.a, r.b], r.c);
    RunSnoc(ZERO, [r.a, r.b, r.c], r.d);
    RunSnoc(ZERO, [r.a, r.b, r.c, r.d], r.e);
    RunSnoc(ZERO, [r.a, r.b, r.c, r.d, r.e], r.f);
    assert [r.a] + [r.b] == [r.a, r.b];
    assert [r.a, r.b] + [r.c] == [r.a, r.b, r.c];
    assert [r.a, r.b, r.c] + [r.d] == [r.a, r.b, r.c, r.d];
    assert [r.a, r.b, r.c, r.d] + [r.e] == [r.a, r.b, r.c, r.d, r.e];
    assert [r.a, r.b, r.c, r.d, r.e] + [r.f] == s;
  }

  lemma RunNone()
    ensures PolyRun(ZERO, []) == ZERO
  {
  }

  lemma StepFree(r: Register, v: Sym)
    requires r.a == 0
    ensures Step(r, v) == Shift(r, v)
  {
    ReduceNone();
    hide Reduce;
    AddLaws(Shift(r, v), ZERO, ZERO);
  }

  /** Six symbols after a run add to what six zeros would have left. */
  lemma RunLastSix(r: Register, t: Register)
    ensures PolyRun(r, Unpacked(t)) == Add(PolyRun(r, Zeros(6)), t)
  {
    hide Step, Add, Plus;
    var z := Zeros(6);
    RunAdds(r, ZERO, z, Unpacked(t));
    AddLaws(r, ZERO, ZERO);
    PlusLaws(t.a, 0, 0);
    PlusLaws(t.b, 0, 0);
    PlusLaws(t.c, 0, 0);
    PlusLaws(t.d, 0, 0);
    PlusLaws(t.e, 0, 0);
    PlusLaws(t.f, 0, 0);
    assert Diff(z, Unpacked(t)) == Unpacked(t);
    RunSix(t);
  }

  // ----- checksums -----

  /** The prefix as symbols: high parts, a zero, low parts. */
  function Expanded(hrp: string): seq<Sym> {
    seq(|hrp|, i requires 0 <= i < |hrp| => High(hrp[i])) + [0] + seq(|hrp|, i requires 0 <= i < |hrp| => LowBits(hrp[i]))
  }

  function High(c: char): Sym {
    (c as int / 32 % 32) as bv5
  }

  function LowBits(c: char): Sym {
    (c as int % 32) as bv5
  }

  /** The character codes stand in two parts before and after the zero. */
  lemma ExpandedCodes(hrp: string)
    ensures var e := Expanded(hrp);
            && |e| == 2 * |hrp| + 1 && e[|hrp|] == 0
            && forall i :: 0 <= i < |hrp| && hrp[i] as int < 256 ==> hrp[i] as int == 32 * (e[i] as int) + e[|hrp| + 1 + i] as int
  {
    hide High, LowBits;
    forall i | 0 <= i < |hrp| && hrp[i] as int < 256
      ensures Expanded(hrp)[i] == High(hrp[i]) && Expanded(hrp)[|hrp| + 1 + i] == LowBits(hrp[i])
      ensures hrp[i] as int == 32 * (High(hrp[i]) as int) + LowBits(hrp[i]) as int
    {
      CodeParts(hrp[i]);
    }
  }

  lemma CodeParts(c: char)
    requires c as int < 256
    ensures c as int == 32 * (High(c) as int) + LowBits(c) as int
  {
    var n := c as int;
    Narrow(n / 32 % 32);
    Narrow(n % 32);
    assert n / 32 % 32 == n / 32;
  }

  lemma Narrow(n: int)
    requires 0 <= n < 32
    ensures (n as bv5) as int == n
  {
  }

  predicate Verified(hrp: string, values: seq<Sym>) {
    PolyRun(ONE, Expanded(hrp) + values) == ONE
  }

  function Checksum(hrp: string, values: seq<Sym>): (s: seq<Sym>)
    ensures |s| == 6
  {
    Unpacked(Add(PolyRun(ONE, Expanded(hrp) + values + Zeros(6)), ONE))
  }

  /** The created checksum verifies, and nothing else of its length does. */
  lemma ChecksumIs(hrp: string, values: seq<Sym>, last: seq<Sym>)
    requires |last| == 6
    ensures Verified(hrp, values + last) <==> last == Checksum(hrp, values)
  {
    hide Step, Expanded;
    var enc := Expanded(hrp) + values;
    var r := PolyRun(ONE, enc);
    var m := PolyRun(r, Zeros(6));
    RunJoin(ONE, enc, Zeros(6));
    RunJoin(ONE, enc, last);
    assert Expanded(hrp) + (values + last) == enc + last;
    var t := Register(last[0], last[1], last[2], last[3], last[4], last[5]);
    assert last == Unpacked(t);
    RunLastSix(r, t);
    hide Add, PolyRun;
    Cancel(m, t);
  }

  lemma Cancel(m: Register, t: Register)
    ensures Add(m, t) == ONE <==> t == Add(m, ONE)
  {
    hide Add;
    AddLaws(m, m, t);
    AddLaws(m, m, ONE);
    AddLaws(m, t, t);
    AddLaws(t, ZERO, ZERO);
    AddLaws(ONE, ZERO, ZERO);
  }

  /** Two runs end alike only when their difference runs to zero. */
  lemma SameEnd(r: Register, x: seq<Sym>, y: seq<Sym>)
    requires |x| == |y|
    ensures PolyRun(r, x) == PolyRun(r, y) <==> PolyRun(ZERO, Diff(x, y)) == ZERO
  {
    hide Step, Add, Plus;
    RunAdds(r, r, x, y);
    AddLaws(r, r, r);
    var p, q := PolyRun(r, x), PolyRun(r, y);
    AddLaws(p, q, q);
    AddLaws(q, q, q);
    AddLaws(p, ZERO, ZERO);
    AddLaws(q, ZERO, ZERO);
  }

  /** Symbols that are not all zero, six at most, leave an empty register non-zero. */
  lemma BurstLeaves(d: seq<Sym>, i: nat)
    requires |d| <= 6 && i < |d| && d[i] != 0
    ensures PolyRun(ZERO, d) != ZERO
  {
    hide Step;
    var k := 6 - |d|;
    var s := Zeros(k) + d;
    RunJoin(ZERO, Zeros(k), d);
    RunZero(ZERO, k);
    var t := Register(s[0], s[1], s[2], s[3], s[4], s[5]);
    assert s == Unpacked(t);
    RunSix(t);
    assert s[k + i] == d[i];
    assert t == ZERO ==> s == [0, 0, 0, 0, 0, 0];
  }

  /** A burst of errors over at most six neighbouring symbols is always noticed. */
  lemma BurstDetected(hrp: string, before: seq<Sym>, u: seq<Sym>, w: seq<Sym>, after: seq<Sym>)
    requires |u| == |w| <= 6 && u != w
    ensures !(Verified(hrp, before + u + after) && Verified(hrp, before + w + after))
  {
    hide Step, Plus, Expanded;
    var p := Expanded(hrp) + before;
    var x, y := p + u + after, p + w + after;
    assert Expanded(hrp) + (before + u + after) == x && Expanded(hrp) + (before + w + after) == y;
    SameEnd(ONE, x, y);
    var i :| 0 <= i < |u| && u[i] != w[i];
    var d := Diff(u, w);
    PlusZero(u[i], w[i]);
    BurstLeaves(d, i);
    DiffSame(p);
    DiffSame(after);
    assert Diff(x, y) == Zeros(|p|) + d + Zeros(|after|) by { DiffJoin(p, u, w, after); }
    RunJoin(ZERO, Zeros(|p|) + d, Zeros(|after|));
    RunJoin(ZERO, Zeros(|p|), d);
    RunZero(ZERO, |p|);
    RunZero(PolyRun(ZERO, d), |after|);
  }

  lemma PlusZero(x: Sym, y: Sym)
    ensures Plus(x, y) == 0 <==> x == y
  {
  }

  lemma DiffSame(x: seq<Sym>)
    ensures Diff(x, x) == Zeros(|x|)
  {
    forall i | 0 <= i < |x|
      ensures Plus(x[i], x[i]) == 0
    {
      PlusZero(x[i], x[i]);
    }
    hide Plus;
  }

  lemma DiffJoin(p: seq<Sym>, u: seq<Sym>, w: seq<Sym>, q: seq<Sym>)
    requires |u| == |w|
    ensures Diff(p + u + q, p + w + q) == Zeros(|p|) + Diff(u, w) + Zeros(|q|)
  {
    hide Plus;
    DiffSame(p);
    DiffSame(q);
    assert Diff(p + u + q, p + w + q) == Diff(p, p) + Diff(u, w) + Diff(q, q);
  }

  /** One wrong symbol is always noticed. */
  lemma ErrorDetected(hrp: string, x: seq<Sym>, y: seq<Sym>, i: nat)
    requires |x| == |y| && i < |x| && x[i] != y[i] && forall j :: 0 <= j < |x| && j != i ==> x[j] == y[j]
    ensures !(Verified(hrp, x) && Verified(hrp, y))
  {
    hide Verified;
    assert x == x[..i] + [x[i]] + x[i + 1..];
    assert y == x[..i] + [y[i]] + x[i + 1..];
    BurstDetected(hrp, x[..i], [x[i]], [y[i]], x[i + 1..]);
  }

  // ----- the two character tables -----

  function Letter(v: nat): char
    requires v < 32
  {
    match v
    case 0 => 'q'
    case 1 => 'p'
    case 2 => 'z'
    case 3 => 'r'
    case 4 => 'y'
    case 5 => '9'
    case 6 => 'x'
    case 7 => '8'
    case 8 => 'g'
    case 9 => 'f'
    case 10 => '2'
    case 11 => 't'
    case 12 => 'v'
    case 13 => 'd'
    case 14 => 'w'
    case 15 => '0'
    case 16 => 's'
    case 17 => '3'
    case 18 => 'j'
    case 19 => 'n'
    case 20 => '5'
    case 21 => '4'
    case 22 => 'k'
    case 23 => 'h'
    case 24 => 'c'
    case 25 => 'e'
    case 26 => '6'
    case 27 => 'm'
    case 28 => 'u'
    case 29 => 'a'
    case 30 => '7'
    case _ => 'l'
  }

  /** The symbol of a character in either case, or -1. */
  function Rev(c: char): (r: int)
    ensures -1 <= r < 32
  {
    match LowerCase(c)
    case 'q' => 0
    case 'p' => 1
    case 'z' => 2
    case 'r' => 3
    case 'y' => 4
    case '9' => 5
    case 'x' => 6
    case '8' => 7
    case 'g' => 8
    case 'f' => 9
    case '2' => 10
    case 't' => 11
    case 'v' => 12
    case 'd' => 13
    case 'w' => 14
    case '0' => 15
    case 's' => 16
    case '3' => 17
    case 'j' => 18
    case 'n' => 19
    case '5' => 20
    case '4' => 21
    case 'k' => 22
    case 'h' => 23
    case 'c' => 24
    case 'e' => 25
    case '6' => 26
    case 'm' => 27
    case 'u' => 28
    case 'a' => 29
    case '7' => 30
    case 'l' => 31
    case _ => -1
  }

  predicate IsUpper(c: char) {
    'A' <= c <= 'Z'
  }

  predicate IsLower(c: char) {
    'a' <= c <= 'z'
  }

  function LowerCase(c: char): char {
    if IsUpper(c) then (c - 'A') + 'a' else c
  }

  predicate Printable(c: char) {
    33 as char <= c <= 126 as char
  }

  lemma RevLetter(v: nat)
    requires v < 32
    ensures Rev(Letter(v)) == v && !IsUpper(Letter(v)) && Printable(Letter(v)) && Letter(v) != '1'
  {
  }

  lemma LetterRev(c: char)
    requires Rev(c) != -1
    ensures Letter(Rev(c)) == LowerCase(c) && c != '1'
  {
  }

  /** A symbol's letter, and the symbol of a character that has one. */
  function Spelt(v: Sym): char {
    Letter(v as nat)
  }

  function SymOf(c: char): Sym
    requires Rev(c) != -1
  {
    Rev(c) as bv5
  }

  lemma SymSpelt(v: Sym)
    ensures Rev(Spelt(v)) != -1 && SymOf(Spelt(v)) == v
    ensures !IsUpper(Spelt(v)) && Printable(Spelt(v)) && Spelt(v) != '1'
  {
    hide Rev, Letter, IsUpper, Printable;
    RevLetter(v as nat);
  }

  lemma SpeltSym(c: char)
    requires Rev(c) != -1
    ensures Spelt(SymOf(c)) == LowerCase(c) && c != '1'
  {
    hide Rev, Letter, LowerCase;
    LetterRev(c);
  }

  // ----- strings -----

  function SpellAll(values: seq<Sym>): (s: string)
    ensures |s| == |values| && forall i :: 0 <= i < |s| ==> s[i] == Spelt(values[i])
  {
    seq(|values|, i requires 0 <= i < |values| => Spelt(values[i]))
  }

  predicate AllSyms(s: string) {
    forall i :: 0 <= i < |s| ==> Rev(s[i]) != -1
  }

  function ReadAll(s: string): (values: seq<Sym>)
    requires AllSyms(s)
    ensures |values| == |s| && forall i :: 0 <= i < |s| ==> values[i] == SymOf(s[i])
  {
    seq(|s|, i requires 0 <= i < |s| => SymOf(s[i]))
  }

  function Lowered(s: string): (r: string)
    ensures |r| == |s| && forall i :: 0 <= i < |r| ==> r[i] == LowerCase(s[i])
  {
    seq(|s|, i requires 0 <= i < |s| => LowerCase(s[i]))
  }

  function Encoded(hrp: string, values: seq<Sym>): string {
    hrp + ['1'] + SpellAll(values + Checksum(hrp, values))
  }

  /** The last index of a separator, or -1. */
  function LastOne(s: string): (pos: int)
    ensures -1 <= pos < |s| && (pos >= 0 ==> s[pos] == '1') && forall i :: pos < i < |s| ==> s[i] != '1'
  {
    if s == [] then -1 else if s[|s| - 1] == '1' then |s| - 1 else LastOne(s[..|s| - 1])
  }

  predicate Clean(s: string) {
    && (forall i :: 0 <= i < |s| ==> Printable(s[i]))
    && !((exists i :: 0 <= i < |s| && IsLower(s[i])) && (exists i :: 0 <= i < |s| && IsUpper(s[i])))
  }

  predicate WellPlaced(s: string) {
    var pos := LastOne(s);
    |s| <= 90 && pos >= 1 && pos + 7 <= |s|
  }

  function Decoded(s: string): Option<(string, seq<Sym>)> {
    if !Clean(s) || !WellPlaced(s) then None
    else
      var pos := LastOne(s);
      if !AllSyms(s[pos + 1..]) then None
      else
        var values, hrp := ReadAll(s[pos + 1..]), Lowered(s[..pos]);
        if Verified(hrp, values) then Some((hrp, values[..|values| - 6])) else None
  }

  /** A prefix in printable characters without capitals. */
  predicate ValidPrefix(hrp: string) {
    hrp != [] && forall i :: 0 <= i < |hrp| ==> Printable(hrp[i]) && !IsUpper(hrp[i])
  }

  lemma LastOneIs(s: string, pos: nat)
    requires pos < |s| && s[pos] == '1' && forall i :: pos < i < |s| ==> s[i] != '1'
    ensures LastOne(s) == pos
  {
  }

  /** The encoding has its separator after the prefix, and its letters read back. */
  lemma EncodedPlaces(hrp: string, all: seq<Sym>)
    requires ValidPrefix(hrp) && |all| >= 6 && |hrp| + 1 + |all| <= 90
    ensures var s := hrp + ['1'] + SpellAll(all);
            && LastOne(s) == |hrp| && WellPlaced(s) && s[|hrp| + 1..] == SpellAll(all) && s[..|hrp|] == hrp
            && AllSyms(SpellAll(all)) && ReadAll(SpellAll(all)) == all && Lowered(hrp) == hrp
  {
    hide Rev, Printable, IsUpper, Spelt, SymOf, LowerCase, LastOne;
    var s := hrp + ['1'] + SpellAll(all);
    SpeltFacts(all);
    forall i | |hrp| < i < |s|
      ensures s[i] != '1'
    {
      assert s[i] == Spelt(all[i - |hrp| - 1]);
    }
    LastOneIs(s, |hrp|);
    LoweredSame(hrp);
  }

  lemma EncodedClean(hrp: string, all: seq<Sym>)
    requires ValidPrefix(hrp)
    ensures Clean(hrp + ['1'] + SpellAll(all))
  {
    hide Rev, Printable, IsUpper, IsLower, Spelt, SymOf;
    var s := hrp + ['1'] + SpellAll(all);
    SpeltFacts(all);
    OneFacts();
    forall i | 0 <= i < |s|
      ensures Printable(s[i]) && !IsUpper(s[i])
    {
      if i > |hrp| {
        assert s[i] == Spelt(all[i - |hrp| - 1]);
      }
    }
  }

  /** What is encoded is decoded, for every valid prefix and data within 90 characters. */
  lemma DecodeEncoded(hrp: string, values: seq<Sym>)
    requires ValidPrefix(hrp) && |hrp| + 7 + |values| <= 90
    ensures Decoded(Encoded(hrp, values)) == Some((hrp, values))
  {
    hide Verified, Checksum, Clean, WellPlaced, AllSyms, ValidPrefix, LastOne, Rev;
    var all := values + Checksum(hrp, values);
    EncodedPlaces(hrp, all);
    EncodedClean(hrp, all);
    ChecksumIs(hrp, values, Checksum(hrp, values));
    assert all[..|all| - 6] == values;
  }

  lemma OneFacts()
    ensures Printable('1') && !IsUpper('1') && LowerCase('1') == '1'
  {
  }

  lemma SpeltFacts(all: seq<Sym>)
    ensures forall i :: 0 <= i < |all| ==>
              && Rev(Spelt(all[i])) != -1 && SymOf(Spelt(all[i])) == all[i]
              && !IsUpper(Spelt(all[i])) && Printable(Spelt(all[i])) && Spelt(all[i]) != '1'
  {
    hide Rev, Letter, Spelt, SymOf, IsUpper, Printable;
    forall i | 0 <= i < |all|
      ensures Rev(Spelt(all[i])) != -1 && SymOf(Spelt(all[i])) == all[i]
      ensures !IsUpper(Spelt(all[i])) && Printable(Spelt(all[i])) && Spelt(all[i]) != '1'
    {
      SymSpelt(all[i]);
    }
  }

  lemma LoweredSame(s: string)
    requires forall i :: 0 <= i < |s| ==> !IsUpper(s[i])
    ensures Lowered(s) == s
  {
  }

  lemma Halves<T>(s: seq<T>, k: nat)
    requires k <= |s|
    ensures s == s[..k] + s[k..]
  {
  }

  lemma SpellRead(tail: string)
    requires AllSyms(tail)
    ensures SpellAll(ReadAll(tail)) == Lowered(tail)
  {
    hide Rev, Spelt, SymOf, LowerCase;
    forall i | 0 <= i < |tail|
      ensures SpellAll(ReadAll(tail))[i] == LowerCase(tail[i])
    {
      SpeltSym(tail[i]);
    }
  }

  lemma LoweredJoin(s: string, pos: nat)
    requires pos < |s| && s[pos] == '1'
    ensures Lowered(s) == Lowered(s[..pos]) + ['1'] + Lowered(s[pos + 1..])
  {
    OneFacts();
    hide LowerCase;
  }

  lemma LoweredPrefix(s: string, pos: nat)
    requires Clean(s) && 1 <= pos <= |s|
    ensures ValidPrefix(Lowered(s[..pos]))
  {
    forall i | 0 <= i < pos
      ensures Printable(LowerCase(s[i])) && !IsUpper(LowerCase(s[i]))
    {
      assert Printable(s[i]);
    }
  }

  lemma DecodedParts(s: string)
    requires Decoded(s).Some?
    ensures var pos := LastOne(s);
            && 1 <= pos && pos + 7 <= |s| <= 90 && Clean(s) && AllSyms(s[pos + 1..])
            && var all, hrp := ReadAll(s[pos + 1..]), Lowered(s[..pos]);
               Verified(hrp, all) && Decoded(s).value == (hrp, all[..|all| - 6])
  {
    hide Verified, Clean, AllSyms, LastOne, Lowered, ReadAll, Rev;
  }

  /** Only encodings are accepted, in either case. */
  lemma EncodeDecoded(s: string)
    requires Decoded(s).Some?
    ensures var (hrp, values) := Decoded(s).value;
            ValidPrefix(hrp) && |hrp| + 7 + |values| <= 90 && Encoded(hrp, values) == Lowered(s)
  {
    hide Rev, Verified, Checksum, Clean, ValidPrefix, AllSyms, Decoded, LastOne, Lowered, ReadAll, SpellAll;
    DecodedParts(s);
    var pos := LastOne(s);
    var tail := s[pos + 1..];
    var all, hrp := ReadAll(tail), Lowered(s[..pos]);
    SameLength(s[..pos]);
    SameCount(tail);
    var k := |all| - 6;
    Halves(all, k);
    ChecksumIs(hrp, all[..k], all[k..]);
    SpellRead(tail);
    LoweredJoin(s, pos);
    LoweredPrefix(s, pos);
  }

  lemma SameCount(tail: string)
    requires AllSyms(tail)
    ensures |ReadAll(tail)| == |tail|
  {
    hide Rev, SymOf;
  }

  /** Letters of both cases. */
  predicate Mixed(s: string) {
    (exists i :: 0 <= i < |s| && IsLower(s[i])) && (exists i :: 0 <= i < |s| && IsUpper(s[i]))
  }

  lemma LowerFacts(c: char)
    ensures LowerCase(LowerCase(c)) == LowerCase(c) && !IsUpper(LowerCase(c)) && (LowerCase(c) == '1' <==> c == '1')
    ensures (Printable(LowerCase(c)) <==> Printable(c)) && Rev(LowerCase(c)) == Rev(c)
  {
    hide Rev;
    if IsUpper(c) {
      assert !IsUpper(LowerCase(c));
    }
    SameRev(c);
  }

  lemma SameRev(c: char)
    requires LowerCase(LowerCase(c)) == LowerCase(c)
    ensures Rev(LowerCase(c)) == Rev(c)
  {
  }

  lemma LowerAll(s: string)
    ensures Lowered(Lowered(s)) == Lowered(s) && LastOne(Lowered(s)) == LastOne(s)
    ensures forall i :: 0 <= i < |s| ==>
              !IsUpper(Lowered(s)[i]) && (Printable(Lowered(s)[i]) <==> Printable(s[i])) && Rev(Lowered(s)[i]) == Rev(s[i])
  {
    hide Rev, LowerCase, IsUpper, Printable, LastOne;
    var u := Lowered(s);
    forall i | 0 <= i < |s|
      ensures LowerCase(u[i]) == u[i] && !IsUpper(u[i]) && (u[i] == '1' <==> s[i] == '1')
      ensures (Printable(u[i]) <==> Printable(s[i])) && Rev(u[i]) == Rev(s[i])
    {
      LowerFacts(s[i]);
    }
    assert Lowered(u) == u;
    var pos := LastOne(s);
    if pos >= 0 {
      LastOneIs(u, pos);
    } else {
      NoOne(u);
    }
  }

  lemma NoOne(s: string)
    requires forall i :: 0 <= i < |s| ==> s[i] != '1'
    ensures LastOne(s) == -1
  {
  }

  /** Apart from the test for mixed case, only the lower-case form matters. */
  lemma DecodedLowered(s: string)
    ensures Decoded(s) == if Mixed(s) then None else Decoded(Lowered(s))
  {
    hide Rev, Verified, Clean, Lowered, Mixed, AllSyms, ReadAll, LastOne;
    var u, pos := Lowered(s), LastOne(s);
    LowerAll(s);
    CleanLowered(s);
    SameLength(s);
    if !Mixed(s) && pos >= 0 {
      TailLowered(s, pos);
    }
  }

  lemma SameLength(s: string)
    ensures |Lowered(s)| == |s|
  {
  }

  lemma CleanLowered(s: string)
    ensures Clean(s) <==> !Mixed(s) && Clean(Lowered(s))
  {
    hide LowerCase, IsUpper, IsLower, Printable, Rev, LastOne;
    LowerAll(s);
  }

  lemma TailLowered(s: string, pos: nat)
    requires pos < |s|
    ensures |Lowered(s)| == |s| && Lowered(s[..pos]) == Lowered(Lowered(s)[..pos])
    ensures AllSyms(s[pos + 1..]) <==> AllSyms(Lowered(s)[pos + 1..])
    ensures AllSyms(s[pos + 1..]) ==> ReadAll(s[pos + 1..]) == ReadAll(Lowered(s)[pos + 1..])
  {
    hide Rev, LowerCase, IsUpper, Printable, LastOne;
    var u := Lowered(s);
    LowerAll(s);
    LowerAll(s[..pos]);
    assert Lowered(s[..pos]) == u[..pos];
    var st, ut := s[pos + 1..], u[pos + 1..];
    assert forall i :: 0 <= i < |st| ==> Rev(st[i]) == Rev(ut[i]);
  }

  /** A string is accepted exactly when it is an encoding, in one case or the other but not in both. */
  lemma Accepts(s: string, hrp: string, values: seq<Sym>)
    ensures Decoded(s) == Some((hrp, values)) <==>
            ValidPrefix(hrp) && |hrp| + 7 + |values| <= 90 && Lowered(s) == Encoded(hrp, values) && !Mixed(s)
  {
    hide Decoded, Encoded, ValidPrefix, Mixed, Lowered;
    DecodedLowered(s);
    if Decoded(s).Some? {
      EncodeDecoded(s);
    }
    if ValidPrefix(hrp) && |hrp| + 7 + |values| <= 90 {
      DecodeEncoded(hrp, values);
    }
  }

  /** The shortest example of BIP 173, which fixes prefix expansion, generator and letters. */
  lemma PublishedExample()
    ensures Encoded("a", []) == "a12uel5l"
  {
    hide Checksum, SpellAll;
    PublishedChecksum();
    PublishedSpelling();
    assert [] + Checksum("a", []) == Checksum("a", []);
    assert "a" + ['1'] + "2uel5l" == "a12uel5l";
  }

  lemma PublishedSpelling()
    ensures SpellAll([10, 28, 25, 31, 20, 31]) == "2uel5l"
  {
    hide Spelt;
    PublishedLetters();
    var all: seq<Sym> := [10, 28, 25, 31, 20, 31];
    assert SpellAll(all) == [Spelt(all[0]), Spelt(all[1]), Spelt(all[2]), Spelt(all[3]), Spelt(all[4]), Spelt(all[5])];
  }

  lemma PublishedLetters()
    ensures Spelt(10) == '2' && Spelt(28) == 'u' && Spelt(25) == 'e' && Spelt(31) == 'l' && Spelt(20) == '5'
  {
  }

  lemma PublishedChecksum()
    ensures Checksum("a", []) == [10, 28, 25, 31, 20, 31]
  {
    hide PolyRun, Add, High, LowBits;
    var v: seq<Sym> := [3, 0, 1, 0, 0, 0, 0, 0, 0];
    PublishedRun(v);
    PublishedSums();
    LetterParts();
    assert Expanded("a") == [3, 0, 1];
    assert Expanded("a") + [] + Zeros(6) == v;
  }

  lemma LetterParts()
    ensures High('a') == 3 && LowBits('a') == 1
  {
  }

  lemma PublishedRun(v: seq<Sym>)
    requires v == [3, 0, 1, 0, 0, 0, 0, 0, 0]
    ensures PolyRun(ONE, v) == Register(10, 28, 25, 31, 20, 30)
  {
    PublishedSteps();
    hide Step, PolyRun;
    RunSnoc(ONE, v[..0], v[0]);
    assert v[..1] == v[..0] + [v[0]];
    RunSnoc(ONE, v[..1], v[1]);
    assert v[..2] == v[..1] + [v[1]];
    RunSnoc(ONE, v[..2], v[2]);
    assert v[..3] == v[..2] + [v[2]];
    RunSnoc(ONE, v[..3], v[3]);
    assert v[..4] == v[..3] + [v[3]];
    RunSnoc(ONE, v[..4], v[4]);
    assert v[..5] == v[..4] + [v[4]];
    RunSnoc(ONE, v[..5], v[5]);
    assert v[..6] == v[..5] + [v[5]];
    RunSnoc(ONE, v[..6], v[6]);
    assert v[..7] == v[..6] + [v[6]];
    RunSnoc(ONE, v[..7], v[7]);
    assert v[..8] == v[..7] + [v[7]];
    RunSnoc(ONE, v[..8], v[8]);
    assert v[..9] == v[..8] + [v[8]];
    RunStart(ONE);
    assert v[..0] == [] && v[..9] == v;
  }

  lemma RunStart(r: Register)
    ensures PolyRun(r, []) == r
  {
  }

  /** With nothing leaving at the top a symbol only enters. */
  lemma StepPlain(r: Register, v: Sym)
    requires r.a == 0
    ensures Step(r, v) == Shift(r, v)
  {
    hide Add, Reduce;
    ReduceNone();
    AddLaws(Shift(r, v), ZERO, ZERO);
  }

  lemma StepBack(r: Register, v: Sym, k: Register)
    requires Reduce(r.a) == k
    ensures Step(r, v) == Add(Shift(r, v), k)
  {
    hide Add, Reduce;
  }

  lemma ReduceSome()
    ensures Reduce(1) == K1 && Reduce(18) == Register(6, 4, 9, 27, 6, 30) && Reduce(30) == Register(23, 26, 15, 17, 23, 25)
  {
    SumsOfConstants();
    HasBits(1);
    HasBits(18);
    HasBits(30);
    hide Add, Has;
    AddLaws(ZERO, ZERO, ZERO);
    AddLaws(K1, ZERO, ZERO);
    AddLaws(K2, ZERO, ZERO);
  }

  lemma SumsOfConstants()
    ensures Add(K2, K16) == Register(6, 4, 9, 27, 6, 30) && Add(K2, K4) == Register(28, 15, 3, 5, 28, 23)
    ensures Add(Register(28, 15, 3, 5, 28, 23), K8) == Register(2, 27, 7, 9, 2, 10)
    ensures Add(Register(2, 27, 7, 9, 2, 10), K16) == Register(23, 26, 15, 17, 23, 25)
  {
  }

  lemma PublishedSteps()
    ensures Step(Register(0, 0, 0, 0, 0, 1), 3) == Register(0, 0, 0, 0, 1, 3)
    ensures Step(Register(0, 0, 0, 0, 1, 3), 0) == Register(0, 0, 0, 1, 3, 0)
    ensures Step(Register(0, 0, 0, 1, 3, 0), 1) == Register(0, 0, 1, 3, 0, 1)
    ensures Step(Register(0, 0, 1, 3, 0, 1), 0) == Register(0, 1, 3, 0, 1, 0)
    ensures Step(Register(0, 1, 3, 0, 1, 0), 0) == Register(1, 3, 0, 1, 0, 0)
    ensures Step(Register(1, 3, 0, 1, 0, 0), 0) == Register(30, 22, 21, 21, 29, 18)
    ensures Step(Register(30, 22, 21, 21, 29, 18), 0) == Register(1, 15, 26, 12, 5, 25)
    ensures Step(Register(1, 15, 26, 12, 5, 25), 0) == Register(18, 12, 24, 16, 4, 18)
    ensures Step(Register(18, 12, 24, 16, 4, 18), 0) == Register(10, 28, 25, 31, 20, 30)
  {
    hide Step, Add, Reduce;
    StepPlain(Register(0, 0, 0, 0, 0, 1), 3);
    StepPlain(Register(0, 0, 0, 0, 1, 3), 0);
    StepPlain(Register(0, 0, 0, 1, 3, 0), 1);
    StepPlain(Register(0, 0, 1, 3, 0, 1), 0);
    StepPlain(Register(0, 1, 3, 0, 1, 0), 0);
    ReduceSome();
    StepBack(Register(1, 3, 0, 1, 0, 0), 0, K1);
    StepBack(Register(30, 22, 21, 21, 29, 18), 0, Register(23, 26, 15, 17, 23, 25));
    StepBack(Register(1, 15, 26, 12, 5, 25), 0, K1);
    StepBack(Register(18, 12, 24, 16, 4, 18), 0, Register(6, 4, 9, 27, 6, 30));
    PublishedSums();
  }

  lemma PublishedSums()
    ensures Add(Register(3, 0, 1, 0, 0, 0), K1) == Register(30, 22, 21, 21, 29, 18)
    ensures Add(Register(22, 21, 21, 29, 18, 0), Register(23, 26, 15, 17, 23, 25)) == Register(1, 15, 26, 12, 5, 25)
    ensures Add(Register(15, 26, 12, 5, 25, 0), K1) == Register(18, 12, 24, 16, 4, 18)
    ensures Add(Register(12, 24, 16, 4, 18, 0), Register(6, 4, 9, 27, 6, 30)) == Register(10, 28, 25, 31, 20, 30)
    ensures Add(Register(10, 28, 25, 31, 20, 30), ONE) == Register(10, 28, 25, 31, 20, 31)
  {
  }

  // ----- the code -----

  method PolyMod(v: seq<Sym>) returns (c: Register)
    ensures c == PolyRun(ONE, v)
  {
    c := ONE;
    for i := 0 to |v|
      invariant c == PolyRun(ONE, v[..i])
    {
      assert v[..i + 1] == v[..i] + [v[i]];
      RunSnoc(ONE, v[..i], v[i]);
      var c0 := c.a;
      c := Shift(c, v[i]);
      c := StepFeed(c, c0);
    }
    assert v[..|v|] == v;
  }

  method ExpandHRP(hrp: string) returns (ret: seq<Sym>)
    ensures ret == Expanded(hrp) && |ret| == 2 * |hrp| + 1 && ret[|hrp|] == 0
    ensures forall i :: 0 <= i < |hrp| && hrp[i] as int < 256 ==>
              hrp[i] as int == 32 * (ret[i] as int) + ret[|hrp| + 1 + i] as int
  {
    hide High, LowBits;
    ExpandedCodes(hrp);
    var buf := new Sym[|hrp| * 2 + 1](_ => 0);
    for i := 0 to |hrp|
      invariant forall j :: 0 <= j < i ==> buf[j] == High(hrp[j]) && buf[j + |hrp| + 1] == LowBits(hrp[j])
    {
      buf[i] := High(hrp[i]);
      buf[i + |hrp| + 1] := LowBits(hrp[i]);
    }
    buf[|hrp|] := 0;
    ret := buf[..];
  }

  method VerifyChecksum(hrp: string, values: seq<Sym>) returns (ok: bool)
    ensures ok == Verified(hrp, values)
  {
    var prefix := ExpandHRP(hrp);
    var c := PolyMod(prefix + values);
    ok := c == ONE;
  }

  method CreateChecksum(hrp: string, values: seq<Sym>) returns (ret: seq<Sym>)
    ensures ret == Checksum(hrp, values)
  {
    var prefix := ExpandHRP(hrp);
    var c := PolyMod(prefix + values + Zeros(6));
    ret := Unpacked(Add(c, ONE));
  }

  method Encode(hrp: string, values: seq<Sym>) returns (ret: string)
    ensures ret == Encoded(hrp, values)
  {
    hide Spelt, Checksum;
    var checksum := CreateChecksum(hrp, values);
    var combined := values + checksum;
    ret := hrp + ['1'];
    for i := 0 to |combined|
      invariant ret == hrp + ['1'] + SpellAll(combined[..i])
    {
      assert SpellAll(combined[..i + 1]) == SpellAll(combined[..i]) + [Spelt(combined[i])];
      ret := ret + [Spelt(combined[i])];
    }
    assert combined[..|combined|] == combined;
  }

  method CheckCase(s: string) returns (ok: bool)
    ensures ok == Clean(s)
  {
    hide Printable, IsLower, IsUpper;
    var lower, upper := false, false;
    for i := 0 to |s|
      invariant forall j :: 0 <= j < i ==> Printable(s[j])
      invariant lower <==> exists j :: 0 <= j < i && IsLower(s[j])
      invariant upper <==> exists j :: 0 <= j < i && IsUpper(s[j])
    {
      if !Printable(s[i]) {
        return false;
      }
      if IsLower(s[i]) {
        lower := true;
      }
      if IsUpper(s[i]) {
        upper := true;
      }
    }
    ok := !(lower && upper);
  }

  method Decode(s: string) returns (r: Option<(string, seq<Sym>)>)
    ensures r == Decoded(s)
  {
    hide Verified, Clean, Rev, SymOf, LowerCase;
    var clean := CheckCase(s);
    if !clean {
      return None;
    }
    var pos := LastOne(s);
    if |s| > 90 || pos == -1 || pos == 0 || pos + 7 > |s| {
      return None;
    }
    var tail := s[pos + 1..];
    var values: seq<Sym> := [];
    for i := 0 to |tail|
      invariant AllSyms(tail[..i]) && values == ReadAll(tail[..i])
    {
      var rev := Rev(tail[i]);
      if rev == -1 {
        return None;
      }
      assert tail[..i + 1] == tail[..i] + [tail[i]];
      values := values + [SymOf(tail[i])];
    }
    assert tail[..|tail|] == tail;
    var hrp := "";
    for i := 0 to pos
      invariant hrp == Lowered(s[..i])
    {
      hrp := hrp + [LowerCase(s[i])];
    }
    var ok := VerifyChecksum(hrp, values);
    if !ok {
      return None;
    }
    r := Some((hrp, values[..|values| - 6]));
  }
}
