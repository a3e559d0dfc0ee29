/**
 The rolling Bloom filter (src/bloom.h, src/bloom.cpp): every position holds a two-bit
 generation number, spread over two words, and the oldest of three generations is wiped
 by bit masks before its number is used again.
 */
module RollingBloom {
  // ----- 64-bit words, as their bits -----

  type Word = w: seq<bool> | |w| == 64 witness seq(64, _ => false)

  function And(x: Word, y: Word): Word {
    seq(64, i requires 0 <= i < 64 => x[i] && y[i])
  }

  function Or(x: Word, y: Word): Word {
    seq(64, i requires 0 <= i < 64 => x[i] || y[i])
  }

  function Xor(x: Word, y: Word): Word {
    seq(64, i requires 0 <= i < 64 => x[i] != y[i])
  }

  function Not(x: Word): Word {
    seq(64, i requires 0 <= i < 64 => !x[i])
  }

  /** A single bit moved to place k. */
  function At(b: bool, k: nat): Word {
    seq(64, i => b && i == k)
  }

  /** The negative of a single bit: all places equal to it. */
  function Negative(b: bool): Word {
    seq(64, _ => b)
  }

  /** Overwrites bit k. */
  function PutBit(w: Word, k: nat, b: bool): Word {
    Or(And(w, Not(At(true, k))), At(b, k))
  }

  lemma PutBitAt(w: Word, k: nat, b: bool, j: nat)
    requires k < 64 && j < 64
    ensures PutBit(w, k, b)[j] == if j == k then b else w[j]
  {
  }

  /** What the wipe leaves of a word of a pair. */
  function Wiped(p: Word, p1: Word, p2: Word, g1: bool, g2: bool): Word {
    And(p, Or(Xor(p1, Negative(g1)), Xor(p2, Negative(g2))))
  }

  /** The wipe mask keeps a bit unless both words agree with the generation there. */
  lemma WipedBit(p: Word, p1: Word, p2: Word, g1: bool, g2: bool, k: nat)
    requires k < 64
    ensures Wiped(p, p1, p2, g1, g2)[k] <==> p[k] && !(p1[k] == g1 && p2[k] == g2)
  {
  }

  // ----- positions and generations -----

  /** A position: a pair of words and a bit of both. */
  datatype Slot = Slot(word: nat, bit: nat)

  ghost predicate Fits(s: Slot, size: nat) {
    2 * s.word + 1 < size && s.bit < 64
  }

  /** The position for a hash value: its low bit of the word index is dropped. */
  function SlotOf(h: nat, size: nat): (s: Slot)
    requires size > 0 && size % 2 == 0
    ensures Fits(s, size)
    ensures s.bit == h % 64 && 2 * s.word <= (h / 64) % size <= 2 * s.word + 1
  {
    var pos := (h / 64) % size;
    Slot(pos / 2, h % 64)
  }

  /** The generation number at a position; zero when unset. */
  function Mark(data: seq<Word>, s: Slot): (g: nat)
    requires Fits(s, |data|)
    ensures g <= 3
  {
    (if data[2 * s.word][s.bit] then 1 else 0) + (if data[2 * s.word + 1][s.bit] then 2 else 0)
  }

  function NextGeneration(g: nat): (r: nat)
    ensures 1 <= g <= 3 ==> 1 <= r <= 3
  {
    if g + 1 == 4 then 1 else g + 1
  }

  function LowBit(g: nat): bool {
    g % 2 == 1
  }

  function HighBit(g: nat): bool {
    g / 2 == 1
  }

  /** Stores a generation number at a position. */
  function PutMark(data: seq<Word>, s: Slot, g: nat): (r: seq<Word>)
    requires Fits(s, |data|)
    ensures |r| == |data|
  {
    var d := data[2 * s.word := PutBit(data[2 * s.word], s.bit, LowBit(g))];
    d[2 * s.word + 1 := PutBit(d[2 * s.word + 1], s.bit, HighBit(g))]
  }

  lemma PutMarkAt(data: seq<Word>, s: Slot, g: nat, t: Slot)
    requires Fits(s, |data|) && Fits(t, |data|) && g <= 3
    ensures Mark(PutMark(data, s, g), t) == if t == s then g else Mark(data, t)
  {
    hide PutBit;
    PutBitAt(data[2 * s.word], s.bit, LowBit(g), t.bit);
    PutBitAt(data[2 * s.word + 1], s.bit, HighBit(g), t.bit);
  }

  /** The positions of a key, one for each hash function. */
  function Slots<Key>(hash: (nat, nat, Key) -> nat, count: nat, tweak: nat, size: nat, key: Key): (s: seq<Slot>)
    requires size > 0 && size % 2 == 0
    ensures |s| == count && forall n :: 0 <= n < |s| ==> Fits(s[n], size)
  {
    var s := seq(count, n requires 0 <= n < count => SlotOf(hash(n, tweak, key), size));
    assert forall n :: 0 <= n < count ==> s[n] == SlotOf(hash(n, tweak, key), size);
    s
  }

  /** How the positions of keys are found. */
  datatype Placing<!Key> = Placing(hash: (nat, nat, Key) -> nat, count: nat, tweak: nat, size: nat)

  /** The position belongs to one of the keys. */
  ghost predicate Touched<Key>(pl: Placing<Key>, keys: seq<Key>, s: Slot)
    requires pl.size > 0 && pl.size % 2 == 0
  {
    exists i :: 0 <= i < |keys| && s in Slots(pl.hash, pl.count, pl.tweak, pl.size, keys[i])
  }

  /** The generation of the latest key a position belongs to, among three generations; zero without one. */
  ghost function Latest<Key>(pl: Placing<Key>, older: seq<Key>, previous: seq<Key>, current: seq<Key>, g: nat, s: Slot): nat
    requires pl.size > 0 && pl.size % 2 == 0
  {
    if Touched(pl, current, s) then g
    else if Touched(pl, previous, s) then NextGeneration(NextGeneration(g))
    else if Touched(pl, older, s) then NextGeneration(g)
    else 0
  }

  /** Every position shows the latest generation it belongs to, and nothing else is marked. */
  ghost predicate Exact<Key>(data: seq<Word>, pl: Placing<Key>, older: seq<Key>, previous: seq<Key>, current: seq<Key>, g: nat) {
    && pl.size == |data| > 0 && |data| % 2 == 0
    && forall s :: Fits(s, |data|) ==> Mark(data, s) == Latest(pl, older, previous, current, g, s)
  }

  lemma TouchedNone<Key>(pl: Placing<Key>, s: Slot)
    requires pl.size > 0 && pl.size % 2 == 0
    ensures !Touched(pl, [], s)
  {
  }

  lemma TouchedMore<Key>(pl: Placing<Key>, keys: seq<Key>, key: Key, s: Slot)
    requires pl.size > 0 && pl.size % 2 == 0
    ensures Touched(pl, keys + [key], s) <==> Touched(pl, keys, s) || s in Slots(pl.hash, pl.count, pl.tweak, pl.size, key)
  {
    hide Slots;
    var more := keys + [key];
    if Touched(pl, keys, s) {
      var i :| 0 <= i < |keys| && s in Slots(pl.hash, pl.count, pl.tweak, pl.size, keys[i]);
      assert more[i] == keys[i];
    }
    assert more[|keys|] == key;
  }

  lemma TouchedJoin<Key>(pl: Placing<Key>, a: seq<Key>, b: seq<Key>, s: Slot)
    requires pl.size > 0 && pl.size % 2 == 0
    ensures Touched(pl, a + b, s) <==> Touched(pl, a, s) || Touched(pl, b, s)
  {
    hide Slots;
    if Touched(pl, a, s) {
      var i :| 0 <= i < |a| && s in Slots(pl.hash, pl.count, pl.tweak, pl.size, a[i]);
      assert (a + b)[i] == a[i];
    }
    if Touched(pl, b, s) {
      var i :| 0 <= i < |b| && s in Slots(pl.hash, pl.count, pl.tweak, pl.size, b[i]);
      assert (a + b)[|a| + i] == b[i];
    }
  }

  /** An empty filter shows nothing. */
  lemma ExactNone<Key>(data: seq<Word>, pl: Placing<Key>)
    requires pl.size == |data| > 0 && |data| % 2 == 0 && forall i :: 0 <= i < |data| ==> data[i] == Negative(false)
    ensures Exact(data, pl, [], [], [], 1)
  {
    hide Slots;
    forall s | Fits(s, |data|)
      ensures Mark(data, s) == Latest(pl, [], [], [], 1, s)
    {
      TouchedNone(pl, s);
    }
  }

  /** Wiping the marks of the next generation leaves what the last two generations show. */
  lemma ExactWiped<Key>(was: seq<Word>, data: seq<Word>, pl: Placing<Key>, older: seq<Key>, previous: seq<Key>, current: seq<Key>, g: nat)
    requires Exact(was, pl, older, previous, current, g) && 1 <= g <= 3 && |data| == |was|
    requires forall s :: Fits(s, |was|) ==> Mark(data, s) == if Mark(was, s) == NextGeneration(g) then 0 else Mark(was, s)
    ensures Exact(data, pl, previous, current, [], NextGeneration(g))
  {
    hide Mark, Touched;
    forall s | Fits(s, |data|)
      ensures Mark(data, s) == Latest(pl, previous, current, [], NextGeneration(g), s)
    {
      TouchedNone(pl, s);
    }
  }

  /** Marking the positions of a key with the current generation enters it there. */
  lemma ExactMarked<Key>(was: seq<Word>, data: seq<Word>, pl: Placing<Key>, older: seq<Key>, previous: seq<Key>, current: seq<Key>, g: nat, key: Key)
    requires Exact(was, pl, older, previous, current, g) && |data| == |was|
    requires forall s :: Fits(s, |was|) ==>
               Mark(data, s) == if s in Slots(pl.hash, pl.count, pl.tweak, pl.size, key) then g else Mark(was, s)
    ensures Exact(data, pl, older, previous, current + [key], g)
  {
    hide Mark, Touched, Slots;
    forall s | Fits(s, |data|)
      ensures Mark(data, s) == Latest(pl, older, previous, current + [key], g, s)
    {
      TouchedMore(pl, current, key, s);
    }
  }

  /** Marks the positions of one key and leaves the others. */
  method MarkAll(data: seq<Word>, slots: seq<Slot>, g: nat) returns (r: seq<Word>)
    requires g <= 3 && forall n :: 0 <= n < |slots| ==> Fits(slots[n], |data|)
    ensures |r| == |data|
    ensures forall s :: Fits(s, |data|) ==> Mark(r, s) == if s in slots then g else Mark(data, s)
  {
    hide Mark, PutMark;
    r := data;
    for n := 0 to |slots|
      invariant |r| == |data|
      invariant forall s :: Fits(s, |data|) ==> Mark(r, s) == if s in slots[..n] then g else Mark(data, s)
    {
      ghost var before := r;
      r := PutMark(r, slots[n], g);
      forall s | Fits(s, |data|)
        ensures Mark(r, s) == if s == slots[n] then g else Mark(before, s)
      {
        PutMarkAt(before, slots[n], g, s);
      }
      assert slots[..n + 1] == slots[..n] + [slots[n]];
    }
    assert slots[..|slots|] == slots;
  }

  class RollingBloomFilter<Key(==)> {
    const hash: (nat, nat, Key) -> nat
    const nHashFuncs: nat
    const nEntriesPerGeneration: nat
    var nTweak: nat
    var nEntriesThisGeneration: nat
    var nGeneration: nat
    var data: seq<Word>

    /** Keys inserted since the reset: those of the two previous generations and of this one. */
    ghost var forgotten: seq<Key>
    ghost var older: seq<Key>
    ghost var previous: seq<Key>
    ghost var current: seq<Key>

    ghost function History(): seq<Key>
      reads this
    {
      forgotten + older + previous + current
    }

    ghost function Place(): Placing<Key>
      reads this
    {
      Placing(hash, nHashFuncs, nTweak, |data|)
    }

    /** Counters, sizes of the generations, and the mark that each position shows. */
    ghost predicate Valid()
      reads this
    {
      && nEntriesPerGeneration > 0 && |data| > 0 && |data| % 2 == 0
      && 1 <= nGeneration <= 3 && |current| == nEntriesThisGeneration <= nEntriesPerGeneration
      && (previous == [] || |previous| == nEntriesPerGeneration)
      && (older == [] || |older| == |previous| == nEntriesPerGeneration)
      && (forgotten != [] ==> older != [])
      && Exact(data, Place(), older, previous, current, nGeneration)
    }

    /**
     Sizes that the source derives from a false-positive rate are given.  A filter made for no
     elements has no positions and cannot be used.
     */
    constructor (hash: (nat, nat, Key) -> nat, nElements: nat, nHashFuncs: nat, nFilterBits: nat, tweak: nat)
      ensures nEntriesPerGeneration == (nElements + 1) / 2 && History() == []
      ensures |data| == (nFilterBits + 63) / 64 * 2 && nEntriesThisGeneration == 0 && nGeneration == 1
      ensures nElements > 0 && nFilterBits > 0 <==> Valid()
    {
      this.hash, this.nHashFuncs, nEntriesPerGeneration := hash, nHashFuncs, (nElements + 1) / 2;
      data := seq((nFilterBits + 63) / 64 * 2, _ => Negative(false));
      nTweak, nEntriesThisGeneration, nGeneration := tweak, 0, 1;
      forgotten, older, previous, current := [], [], [], [];
      new;
      if |data| > 0 {
        ExactNone(data, Place());
      }
    }

    method Reset(tweak: nat)
      requires Valid()
      modifies this
      ensures Valid() && History() == [] && |data| == old(|data|)
      ensures nTweak == tweak && nEntriesThisGeneration == 0 && nGeneration == 1
    {
      nTweak, nEntriesThisGeneration, nGeneration := tweak, 0, 1;
      data := seq(|data|, _ => Negative(false));
      forgotten, older, previous, current := [], [], [], [];
      ExactNone(data, Place());
    }

    /** The keys of this and the two previous generations. */
    ghost function Recent(): seq<Key>
      reads this
    {
      older + previous + current
    }

    /** A key is reported when each of its positions belongs to some recent key. */
    ghost predicate Reported(key: Key)
      requires Valid()
      reads this
    {
      var slots := Slots(hash, nHashFuncs, nTweak, |data|, key);
      forall n :: 0 <= n < |slots| ==> Touched(Place(), Recent(), slots[n])
    }

    /** A position is marked exactly when it belongs to a recent key. */
    lemma MarkedIsTouched(s: Slot)
      requires Valid() && Fits(s, |data|)
      ensures Mark(data, s) != 0 <==> Touched(Place(), Recent(), s)
    {
      hide Mark, Touched, Slots;
      TouchedJoin(Place(), older + previous, current, s);
      TouchedJoin(Place(), older, previous, s);
    }

    /** All recent keys are found, and no key with a position that belongs to none of them. */
    method Contains(key: Key) returns (found: bool)
      requires Valid()
      ensures found <==> Reported(key)
      ensures key in Recent() ==> found
      ensures Recent() == [] && nHashFuncs > 0 ==> !found
    {
      hide Slots, Touched, Exact;
      RecentReported(key);
      if Recent() == [] {
        NothingReported(key);
      }
      var slots := Slots(hash, nHashFuncs, nTweak, |data|, key);
      for n := 0 to nHashFuncs
        invariant forall j :: 0 <= j < n ==> Touched(Place(), Recent(), slots[j])
      {
        var s := slots[n];
        MarkedIsTouched(s);
        if !Or(data[2 * s.word], data[2 * s.word + 1])[s.bit] {
          assert Mark(data, s) == 0;
          return false;
        }
      }
      found := true;
    }

    lemma RecentReported(key: Key)
      requires Valid()
      ensures key in Recent() ==> Reported(key)
    {
      hide Mark, Slots, Exact;
      if key in Recent() {
        var i :| 0 <= i < |Recent()| && Recent()[i] == key;
      }
    }

    /** Without recent keys nothing is reported, provided there is a hash function. */
    lemma NothingReported(key: Key)
      requires Valid() && Recent() == []
      ensures nHashFuncs > 0 ==> !Reported(key)
    {
      hide Mark, Slots, Exact;
      var slots := Slots(hash, nHashFuncs, nTweak, |data|, key);
      if nHashFuncs > 0 {
        TouchedNone(Place(), slots[0]);
      }
    }

    /** Starts the next generation: its number is advanced and the entries that used it wiped. */
    method Advance()
      requires Valid() && nEntriesThisGeneration == nEntriesPerGeneration
      modifies this
      ensures Valid() && History() == old(History()) && nEntriesThisGeneration == 0 && Place() == old(Place())
      ensures current == [] && previous == old(current) && older == old(previous)
    {
      hide Mark, Slots, Exact;
      ghost var was, g := data, nGeneration;
      nEntriesThisGeneration := 0;
      nGeneration := NextGeneration(nGeneration);
      ExactShape(was, Place(), older, previous, current, g);
      var wiped := WipeAll(data, nGeneration);
      data := wiped;
      ExactWiped(was, data, Place(), older, previous, current, g);
      forgotten := forgotten + older;
      older, previous, current := previous, current, [];
    }

    /** Inserts a key: the keys of two whole generations before it are still marked. */
    method Insert(key: Key)
      requires Valid()
      modifies this
      ensures Valid() && History() == old(History()) + [key] && Place() == old(Place())
      ensures if old(nEntriesThisGeneration) == nEntriesPerGeneration
              then older == old(previous) && previous == old(current) && current == [key]
              else older == old(older) && previous == old(previous) && current == old(current) + [key]
    {
      hide Mark, Slots, Exact;
      if nEntriesThisGeneration == nEntriesPerGeneration {
        Advance();
      }
      nEntriesThisGeneration := nEntriesThisGeneration + 1;
      ghost var was := data;
      var slots := Slots(hash, nHashFuncs, nTweak, |data|, key);
      var marked := MarkAll(data, slots, nGeneration);
      data := marked;
      ExactMarked(was, data, Place(), older, previous, current, nGeneration, key);
      assert History() + [key] == forgotten + older + previous + (current + [key]);
      current := current + [key];
    }

    /** The recall promise: the last keys of any run of inserts are reported. */
    lemma Recall(i: nat)
      requires Valid() && i < |History()|
      requires i + 2 * nEntriesPerGeneration + nEntriesThisGeneration >= |History()|
      ensures Reported(History()[i])
    {
      hide Mark, Slots, Exact;
      var key := History()[i];
      assert i >= |forgotten|;
      assert key == Recent()[i - |forgotten|];
      RecentReported(key);
    }
  }

  lemma ExactShape<Key>(data: seq<Word>, pl: Placing<Key>, older: seq<Key>, previous: seq<Key>, current: seq<Key>, g: nat)
    requires Exact(data, pl, older, previous, current, g)
    ensures pl.size == |data| > 0 && |data| % 2 == 0
  {
  }

  /** Clears every position that shows a generation number. */
  method WipeAll(data: seq<Word>, g: nat) returns (r: seq<Word>)
    requires |data| % 2 == 0 && 1 <= g <= 3
    ensures |r| == |data|
    ensures forall s :: Fits(s, |data|) ==> Mark(r, s) == if Mark(data, s) == g then 0 else Mark(data, s)
  {
    r := data;
    var p := 0;
    while p < |data|
      invariant 0 <= p <= |data| && p % 2 == 0 && |r| == |data|
      invariant forall i :: p <= i < |data| ==> r[i] == data[i]
      invariant forall s :: Fits(s, |data|) && 2 * s.word < p ==> Mark(r, s) == if Mark(data, s) == g then 0 else Mark(data, s)
    {
      ghost var before := r;
      var p1, p2 := r[p], r[p + 1];
      r := r[p := Wiped(p1, p1, p2, LowBit(g), HighBit(g))][p + 1 := Wiped(p2, p1, p2, LowBit(g), HighBit(g))];
      forall s | Fits(s, |data|) && 2 * s.word < p + 2
        ensures Mark(r, s) == if Mark(data, s) == g then 0 else Mark(data, s)
      {
        if 2 * s.word == p {
          WipedBit(p1, p1, p2, LowBit(g), HighBit(g), s.bit);
          WipedBit(p2, p1, p2, LowBit(g), HighBit(g), s.bit);
        } else {
          assert Mark(r, s) == Mark(before, s);
        }
      }
      p := p + 2;
    }
  }
}
