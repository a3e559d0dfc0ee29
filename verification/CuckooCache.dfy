/**
 The cuckoo cache (src/cuckoocache.h): a hash set with eight places per element, lazy
 deletion and ageing in epochs.  One boolean per slot stands for each packed flag.
 */
module CuckooCache {
  import opened Nat
  import opened Prelude

  const WORD := 0x1_0000_0000

  // ----- counting flags -----

  /** Slots of the current epoch that have not been marked for collection. */
  function Live(epoch: seq<bool>, collected: seq<bool>): (n: nat)
    requires |epoch| == |collected|
    ensures n <= |epoch|
  {
    if epoch == [] then 0
    else
      var k := |epoch| - 1;
      Live(epoch[..k], collected[..k]) + if epoch[k] && !collected[k] then 1 else 0
  }

  function One(b: bool): nat {
    if b then 1 else 0
  }

  /** Rewriting one slot changes the count by that slot alone. */
  lemma {:induction false} LiveUpdate(epoch: seq<bool>, collected: seq<bool>, i: nat, e: bool, c: bool)
    requires |epoch| == |collected| && i < |epoch|
    ensures Live(epoch[i := e], collected[i := c]) + One(epoch[i] && !collected[i]) == Live(epoch, collected) + One(e && !c)
  {
    var k := |epoch| - 1;
    if i == k {
      assert epoch[i := e][..k] == epoch[..k] && collected[i := c][..k] == collected[..k];
    } else {
      LiveUpdate(epoch[..k], collected[..k], i, e, c);
      assert epoch[i := e][..k] == epoch[..k][i := e] && collected[i := c][..k] == collected[..k][i := c];
    }
  }

  lemma {:induction false} LiveNone(epoch: seq<bool>, collected: seq<bool>)
    requires |epoch| == |collected| && forall i :: 0 <= i < |epoch| ==> !epoch[i] || collected[i]
    ensures Live(epoch, collected) == 0
  {
    if epoch != [] {
      LiveNone(epoch[..|epoch| - 1], collected[..|epoch| - 1]);
    }
  }

  // ----- places -----

  /** The k-th place of an element: its 32-bit hash scaled to the table. */
  function Place<E>(hash: (nat, E) -> nat, size: nat, e: E, k: nat): (loc: nat)
    requires size > 0
    ensures loc < size
    ensures loc * WORD <= (hash(k, e) % WORD) * size < loc * WORD + WORD
  {
    ScaledBelow(hash(k, e) % WORD, WORD, size);
    (hash(k, e) % WORD) * size / WORD
  }

  lemma ScaledBelow(x: nat, w: nat, size: nat)
    requires x < w && size > 0
    ensures 0 <= x * size / w < size
  {
    MulMonotone(x + 1, w, size);
    Distribute(size, x, 1);
    QuotientSmall(x * size, w, size);
  }

  function ComputeHashes<E>(hash: (nat, E) -> nat, size: nat, e: E): (locs: seq<nat>)
    requires size > 0
    ensures |locs| == 8 && forall k :: 0 <= k < 8 ==> locs[k] == Place(hash, size, e, k) < size
  {
    seq(8, k requires 0 <= k => Place(hash, size, e, k))
  }

  /** The index of the first occurrence, or the length when there is none. */
  function FindLoc(locs: seq<nat>, loc: int): (k: nat)
    ensures k <= |locs| && (k < |locs| ==> locs[k] == loc) && forall j :: 0 <= j < k ==> locs[j] != loc
  {
    if locs == [] then 0 else if locs[0] == loc then 0 else 1 + FindLoc(locs[1..], loc)
  }

  // ----- displacement chains -----

  /** Some place of the element is marked for collection. */
  ghost predicate SomeMarked(locs: seq<nat>, marks: seq<bool>) {
    exists j :: 0 <= j < |locs| && locs[j] < |marks| && marks[locs[j]]
  }

  /** The first of the places that is marked. */
  ghost predicate FirstMarked(locs: seq<nat>, marks: seq<bool>, loc: nat) {
    exists j :: 0 <= j < |locs| && locs[j] == loc < |marks| && marks[loc]
                && forall i :: 0 <= i < j && locs[i] < |marks| ==> !marks[locs[i]]
  }

  /**
   Where an element goes that has just been displaced from `last`: its next place after that one,
   in a circle.  The new element, displaced from nowhere, goes to its second place.
   */
  function NextPlace(locs: seq<nat>, last: int): (r: nat)
    requires |locs| == 8
    ensures (forall j :: 0 <= j < 8 ==> locs[j] != last) ==> r == locs[1]
    ensures forall j :: 0 <= j < 8 && locs[j] == last && (forall i :: 0 <= i < j ==> locs[i] != last) ==>
              r == locs[if j == 7 then 0 else j + 1]
  {
    locs[(1 + FindLoc(locs, last)) % 8]
  }

  /** The table after the first `k` items have taken their slots. */
  ghost function Kicked<T>(table: seq<T>, items: seq<T>, path: seq<nat>, k: nat): (r: seq<T>)
    requires k <= |path| && k <= |items|
    ensures |r| == |table|
  {
    if k == 0 then table
    else
      var t := Kicked(table, items, path, k - 1);
      if path[k - 1] < |t| then t[path[k - 1] := items[k - 1]] else t
  }

  /** Each next item is the one that stood where its predecessor went. */
  ghost predicate Chained<T>(table: seq<T>, items: seq<T>, path: seq<nat>) {
    && |items| == |path| + 1
    && forall k :: 0 <= k < |path| ==> path[k] < |table| && items[k + 1] == Kicked(table, items, path, k)[path[k]]
  }

  lemma {:induction false} KickedSame<T>(table: seq<T>, items: seq<T>, path: seq<nat>, x: T, p: nat, k: nat)
    requires k <= |path| && k <= |items|
    ensures Kicked(table, items + [x], path + [p], k) == Kicked(table, items, path, k)
  {
    if k > 0 {
      KickedSame(table, items, path, x, p, k - 1);
    }
  }

  /** One more displacement. */
  lemma ChainGrows<T>(table: seq<T>, items: seq<T>, path: seq<nat>, p: nat)
    requires Chained(table, items, path) && p < |table|
    ensures var t := Kicked(table, items, path, |path|);
            && Chained(table, items + [t[p]], path + [p])
            && Kicked(table, items + [t[p]], path + [p], |path| + 1) == t[p := items[|path|]]
  {
    hide Kicked;
    var n, x := |path|, Kicked(table, items, path, |path|)[p];
    var items', path' := items + [x], path + [p];
    forall k | 0 <= k < |path'|
      ensures path'[k] < |table| && items'[k + 1] == Kicked(table, items', path', k)[path'[k]]
    {
      KickedSame(table, items, path, x, p, k);
      if k < n {
        assert path'[k] == path[k] && items'[k + 1] == items[k + 1];
      }
    }
    KickedSame(table, items, path, x, p, n);
    KickedNext(table, items', path', n);
  }

  lemma KickedNext<T>(table: seq<T>, items: seq<T>, path: seq<nat>, k: nat)
    requires k < |path| && k < |items| && path[k] < |table|
    ensures Kicked(table, items, path, k + 1) == Kicked(table, items, path, k)[path[k] := items[k]]
  {
  }

  lemma ChainedSize<T>(table: seq<T>, items: seq<T>, path: seq<nat>)
    requires Chained(table, items, path)
    ensures |items| == |path| + 1
  {
  }

  lemma NoKicks<T>(table: seq<T>, x: T)
    ensures Chained(table, [x], []) && Kicked(table, [x], [], 0) == table
  {
  }

  /** The elements displaced one after the other, their epochs, and where each of them went. */
  datatype Trace<E> = Trace(chain: seq<E>, epochs: seq<bool>, path: seq<nat>)

  class Cache<E(==)> {
    const hash: (nat, E) -> nat
    const size: nat
    const epochSize: nat
    const depthLimit: nat

    var table: seq<E>
    var collected: seq<bool>
    var epochFlags: seq<bool>
    var counter: nat

    /** Slots that have been filled by some insert. */
    ghost var written: set<nat>

    /** Filled slots hold elements at one of their places; unfilled ones may be reused. */
    ghost predicate Valid()
      reads this
    {
      && size >= 2 && depthLimit >= 1 && epochSize >= 1
      && |table| == |collected| == |epochFlags| == size
      && (forall i :: 0 <= i < size ==> collected[i] || i in written)
      && (forall i :: i in written ==> i < size && i in ComputeHashes(hash, size, table[i]))
    }

    /** How many entries of the current epoch there can ever be. */
    function Limit(): nat {
      epochSize + Max(1, epochSize / 16)
    }

    /** Enough scans are due before the current epoch can outgrow its limit. */
    ghost predicate Bounded()
      reads this
    {
      |epochFlags| == |collected| && Live(epochFlags, collected) + counter <= Limit()
    }

    /** setup, with the base-two logarithm of the size given by the caller. */
    constructor (hash: (nat, E) -> nat, newSize: nat, depth: nat, blank: E)
      requires depth >= 1 && newSize < WORD
      ensures Valid() && Bounded() && written == {} && counter == epochSize && depthLimit == depth
      ensures forall i :: 0 <= i < size ==> table[i] == blank && collected[i] && !epochFlags[i]
      ensures size == Max(2, newSize) && epochSize == Max(1, (45 * size) % WORD / 100)
    {
      var n := Max(2, newSize);
      this.hash, size, depthLimit := hash, n, depth;
      table, collected, epochFlags := seq(n, _ => blank), seq(n, _ => true), seq(n, _ => false);
      epochSize := Max(1, (45 * n) % WORD / 100);
      counter := Max(1, (45 * n) % WORD / 100);
      written := {};
      new;
      LiveNone(epochFlags, collected);
    }

    /** What the epoch check does to the two flags and the counter. */
    ghost predicate Ticked(epoch: seq<bool>, marks: seq<bool>, count: nat, epoch': seq<bool>, marks': seq<bool>, count': nat)
      requires |epoch| == |marks|
    {
      if count != 0 then epoch' == epoch && marks' == marks && count' == count - 1
      else if Live(epoch, marks) >= epochSize then AgedTo(epoch, marks, epoch', marks') && count' == epochSize
      else epoch' == epoch && marks' == marks && count' == Max(1, Max(epochSize / 16, epochSize - Live(epoch, marks)))
    }

    /** Ages the epoch when enough inserts have passed and enough entries are still in use. */
    method EpochCheck()
      requires Valid() && Bounded()
      modifies this`counter, this`epochFlags, this`collected
      ensures Valid() && Live(epochFlags, collected) + 1 + counter <= Limit()
      ensures Ticked(old(epochFlags), old(collected), old(counter), epochFlags, collected, counter)
    {
      hide ComputeHashes, Live;
      if counter != 0 {
        counter := counter - 1;
        return;
      }
      var unused := CountLive();
      if unused >= epochSize {
        Age();
        counter := epochSize;
      } else {
        counter := Max(1, Max(epochSize / 16, epochSize - unused));
      }
    }

    method CountLive() returns (unused: nat)
      requires Valid()
      ensures unused == Live(epochFlags, collected)
    {
      unused := 0;
      for i := 0 to size
        invariant unused == Live(epochFlags[..i], collected[..i])
      {
        assert epochFlags[..i + 1][..i] == epochFlags[..i] && collected[..i + 1][..i] == collected[..i];
        if epochFlags[i] && !collected[i] {
          unused := unused + 1;
        }
      }
      assert epochFlags[..size] == epochFlags && collected[..size] == collected;
    }

    /** No entry is in the current epoch, and those that were not before may be collected. */
    ghost predicate AgedTo(epoch: seq<bool>, marks: seq<bool>, epoch': seq<bool>, marks': seq<bool>) {
      && |epoch'| == |marks'| == |epoch| == |marks|
      && forall i :: 0 <= i < |epoch| ==> !epoch'[i] && marks'[i] == (marks[i] || !epoch[i])
    }

    /** Entries of the old epoch may go; those of the current epoch become the old one. */
    method Age()
      requires Valid()
      modifies this`epochFlags, this`collected
      ensures Valid() && Live(epochFlags, collected) == 0 && AgedTo(old(epochFlags), old(collected), epochFlags, collected)
    {
      for i := 0 to size
        invariant |epochFlags| == |collected| == size
        invariant forall k :: 0 <= k < i ==> !epochFlags[k] && collected[k] == (old(collected)[k] || !old(epochFlags)[k])
        invariant forall k :: i <= k < size ==> epochFlags[k] == old(epochFlags)[k] && collected[k] == old(collected)[k]
      {
        if epochFlags[i] {
          epochFlags := epochFlags[i := false];
        } else {
          collected := collected[i := true];
        }
      }
      LiveNone(epochFlags, collected);
    }

    /** Some place of the element holds it. */
    ghost predicate Contained(e: E)
      requires Valid()
      reads this
    {
      exists k :: 0 <= k < 8 && table[ComputeHashes(hash, size, e)[k]] == e
    }

    /** Finds every element of a filled slot; with `erase`, marks the slot for collection. */
    method Contains(e: E, erase: bool) returns (found: bool)
      requires Valid() && Bounded()
      modifies this`collected
      ensures Valid() && Bounded() && (found <==> Contained(e))
      ensures forall i :: i in written && table[i] == e ==> found
      ensures !(found && erase) ==> collected == old(collected)
      ensures found && erase ==>
                exists i :: 0 <= i < size && table[i] == e && collected == old(collected)[i := true]
    {
      var locs := ComputeHashes(hash, size, e);
      for k := 0 to 8
        invariant collected == old(collected) && forall j :: 0 <= j < k ==> table[locs[j]] != e
      {
        if table[locs[k]] == e {
          if erase {
            LiveUpdate(epochFlags, collected, locs[k], epochFlags[locs[k]], true);
            assert epochFlags[locs[k] := epochFlags[locs[k]]] == epochFlags;
            collected := collected[locs[k] := true];
          }
          return true;
        }
      }
      assert forall l :: l in locs ==> table[l] != e;
      forall i | i in written
        ensures table[i] != e
      {
        assert table[i] == e ==> i in locs;
      }
      found := false;
    }

    /** One slot of the table is rewritten by an element that may stand there. */
    lemma Rewrite(i: nat, e: E)
      requires Valid() && i < size && i in ComputeHashes(hash, size, e)
      ensures multiset(table[i := e]) + multiset{table[i]} == multiset(table) + multiset{e}
      ensures forall j :: j in written + {i} ==> j < size && j in ComputeHashes(hash, size, table[i := e][j])
    {
      hide ComputeHashes;
    }

    /** Some filled slot, not marked for collection, holds the element. */
    ghost predicate Stored(e: E)
      reads this
    {
      exists i :: i in written && i < |table| && table[i] == e && i < |collected| && !collected[i]
    }

    /** An element of a filled slot is found. */
    lemma FilledContained(i: nat)
      requires Valid() && i in written
      ensures Contained(table[i])
    {
      hide ComputeHashes;
      var locs := ComputeHashes(hash, size, table[i]);
      var k :| 0 <= k < |locs| && locs[k] == i;
    }

    /** An element already stored is kept from deletion and moved to the current epoch. */
    method Refresh(e: E) returns (found: bool)
      requires Valid()
      modifies this`collected, this`epochFlags, this`written
      ensures Valid() && old(written) <= written && Live(epochFlags, collected) <= old(Live(epochFlags, collected)) + 1
      ensures found <==> Contained(e)
      ensures found ==> Stored(e)
      ensures found ==> exists loc ::
                && 0 <= loc < size && table[loc] == e
                && collected == old(collected)[loc := false] && epochFlags == old(epochFlags)[loc := true]
      ensures !found ==> collected == old(collected) && epochFlags == old(epochFlags) && written == old(written)
    {
      hide ComputeHashes, Live;
      var locs := ComputeHashes(hash, size, e);
      for k := 0 to 8
        invariant Valid() && collected == old(collected) && epochFlags == old(epochFlags) && written == old(written)
        invariant forall j :: 0 <= j < k ==> table[locs[j]] != e
      {
        var loc := locs[k];
        if table[loc] == e {
          LiveUpdate(epochFlags, collected, loc, true, false);
          collected := collected[loc := false];
          epochFlags := epochFlags[loc := true];
          written := written + {loc};
          return true;
        }
      }
      found := false;
    }

    /** The first place of the element that is free for use. */
    method FindFree(e: E) returns (free: bool, loc: nat)
      requires Valid()
      ensures free <==> SomeMarked(ComputeHashes(hash, size, e), collected)
      ensures free ==> loc in ComputeHashes(hash, size, e) && loc < size && collected[loc]
      ensures free ==> FirstMarked(ComputeHashes(hash, size, e), collected, loc)
      ensures !free ==> forall l :: l in ComputeHashes(hash, size, e) ==> l < size && !collected[l]
    {
      hide ComputeHashes;
      var locs := ComputeHashes(hash, size, e);
      for k := 0 to 8
        invariant forall j :: 0 <= j < k ==> !collected[locs[j]]
      {
        if collected[locs[k]] {
          return true, locs[k];
        }
      }
      free, loc := false, 0;
    }

    /** The element takes over a slot marked for collection; what was there is gone. */
    method Settle(e: E, epoch: bool, loc: nat)
      requires Valid() && loc in ComputeHashes(hash, size, e) && loc < size
      modifies this`table, this`collected, this`epochFlags, this`written
      ensures Valid() && written == old(written) + {loc} && table == old(table)[loc := e]
      ensures collected == old(collected)[loc := false] && epochFlags == old(epochFlags)[loc := epoch]
      ensures multiset(table) + multiset{old(table)[loc]} == multiset(old(table)) + multiset{e}
      ensures Live(epochFlags, collected) <= old(Live(epochFlags, collected)) + One(epoch)
    {
      hide ComputeHashes, Live;
      Rewrite(loc, e);
      LiveUpdate(epochFlags, collected, loc, epoch, false);
      table := table[loc := e];
      collected := collected[loc := false];
      epochFlags := epochFlags[loc := epoch];
      written := written + {loc};
    }

    /** The element changes places, together with its epoch, with the one in an occupied slot. */
    method Kick(e: E, epoch: bool, loc: nat) returns (out: E, outEpoch: bool)
      requires Valid() && loc in ComputeHashes(hash, size, e) && loc < size && !collected[loc]
      modifies this`table, this`epochFlags
      ensures Valid() && out == old(table)[loc] && table == old(table)[loc := e]
      ensures outEpoch == old(epochFlags)[loc] && epochFlags == old(epochFlags)[loc := epoch]
      ensures multiset(table) + multiset{out} == multiset(old(table)) + multiset{e}
      ensures Live(epochFlags, collected) + One(outEpoch) == old(Live(epochFlags, collected)) + One(epoch)
    {
      hide ComputeHashes, Live;
      Rewrite(loc, e);
      LiveUpdate(epochFlags, collected, loc, epoch, false);
      assert collected[loc := false] == collected && written + {loc} == written;
      out, outEpoch := table[loc], epochFlags[loc];
      table := table[loc := e];
      epochFlags := epochFlags[loc := epoch];
    }

    /** Every displaced element had no marked place and went to the place after the one it lost. */
    ghost predicate Routed(chain: seq<E>, path: seq<nat>, marks: seq<bool>)
      requires size > 0 && |chain| == |path| + 1
    {
      forall k :: 0 <= k < |path| ==> Passed(chain, path, marks, k)
    }

    ghost predicate Passed(chain: seq<E>, path: seq<nat>, marks: seq<bool>, k: nat)
      requires size > 0 && k < |path| <= |chain|
    {
      var locs := ComputeHashes(hash, size, chain[k]);
      !SomeMarked(locs, marks) && path[k] == NextPlace(locs, if k == 0 then -1 else path[k - 1])
    }

    lemma RoutedMore(chain: seq<E>, path: seq<nat>, marks: seq<bool>, x: E, p: nat)
      requires size > 0 && |chain| == |path| + 1 && Routed(chain, path, marks)
      requires var locs := ComputeHashes(hash, size, chain[|path|]);
               !SomeMarked(locs, marks) && p == NextPlace(locs, if path == [] then -1 else path[|path| - 1])
      ensures Routed(chain + [x], path + [p], marks)
    {
      hide SomeMarked, NextPlace, ComputeHashes;
      var chain', path' := chain + [x], path + [p];
      forall k | 0 <= k < |path'|
        ensures Passed(chain', path', marks, k)
      {
        assert chain'[k] == chain[k] && (k > 0 ==> path'[k - 1] == path[k - 1]);
        if k < |path| {
          assert Passed(chain, path, marks, k) && path'[k] == path[k];
        }
      }
    }

    lemma RoutedAt(chain: seq<E>, path: seq<nat>, marks: seq<bool>, k: nat)
      requires size > 0 && |chain| == |path| + 1 && Routed(chain, path, marks) && k < |path|
      ensures !SomeMarked(ComputeHashes(hash, size, chain[k]), marks)
    {
      hide SomeMarked, NextPlace, ComputeHashes;
      assert Passed(chain, path, marks, k);
    }

    /** What a displacement chain is, from the tables before it. */
    ghost predicate Traced(r: Trace<E>, first: E, table0: seq<E>, epoch0: seq<bool>, marks0: seq<bool>)
      requires size > 0
    {
      && Chained(table0, r.chain, r.path) && r.chain[0] == first
      && Chained(epoch0, r.epochs, r.path) && r.epochs[0]
      && Routed(r.chain, r.path, marks0)
    }

    /** The tables once the chain has run its course. */
    ghost function TableAfter(r: Trace<E>, table0: seq<E>): seq<E>
      requires |r.path| <= |r.chain|
    {
      Kicked(table0, r.chain, r.path, |r.path|)
    }

    ghost function EpochAfter(r: Trace<E>, epoch0: seq<bool>): seq<bool>
      requires |r.path| <= |r.epochs|
    {
      Kicked(epoch0, r.epochs, r.path, |r.path|)
    }

    /**
     How a chain ends: the last element takes the first of its marked places, whose holder goes,
     or after `depthLimit` displacements that element goes itself.
     */
    ghost predicate Ended(r: Trace<E>, table0: seq<E>, epoch0: seq<bool>, marks0: seq<bool>, dropped: E)
      requires size > 0 && |r.chain| == |r.epochs| == |r.path| + 1
      reads this
    {
      var n := |r.path|;
      var t, f := TableAfter(r, table0), EpochAfter(r, epoch0);
      if n >= depthLimit
      then n == depthLimit && table == t && epochFlags == f && collected == marks0 && dropped == r.chain[n]
      else exists loc: nat ::
          && loc < |table0| && loc < |epoch0| && loc < |marks0| && FirstMarked(ComputeHashes(hash, size, r.chain[n]), marks0, loc)
          && table == t[loc := r.chain[n]] && epochFlags == f[loc := r.epochs[n]] && collected == marks0[loc := false]
          && dropped == table0[loc]
    }

    /** The new element is in or in hand; marked slots are as they were. */
    ghost predicate Carried(first: E, table0: seq<E>, epoch0: seq<bool>, marks0: seq<bool>, e: E, epoch: bool)
      requires |epoch0| == |marks0| && |epochFlags| == |collected|
      reads this
    {
      && collected == marks0 && |table| == |table0| == |marks0|
      && multiset(table) + multiset{e} == multiset(table0) + multiset{first}
      && Live(epochFlags, collected) + One(epoch) == Live(epoch0, marks0) + 1
      && (forall i :: 0 <= i < |table| && collected[i] ==> table[i] == table0[i])
      && (e == first || Stored(first))
    }

    /** What displacement comes to. */
    ghost predicate Displaced(r: Trace<E>, first: E, table0: seq<E>, epoch0: seq<bool>, marks0: seq<bool>, dropped: E)
      requires size > 0 && |epoch0| == |marks0| && |epochFlags| == |collected|
      reads this
    {
      && multiset(table) + multiset{dropped} == multiset(table0) + multiset{first}
      && Live(epochFlags, collected) <= Live(epoch0, marks0) + 1
      && Traced(r, first, table0, epoch0, marks0) && Ended(r, table0, epoch0, marks0, dropped)
      && (Stored(first) || (|r.path| == depthLimit && dropped == first))
    }

    /**
     The displacement chain: the new element goes in and exactly one element goes out,
     either one marked for collection or, when the depth limit is reached, the one last
     displaced.  The chain moves epochs along with elements.
     */
    method Displace(first: E) returns (ghost dropped: E, ghost r: Trace<E>)
      requires Valid()
      modifies this`table, this`collected, this`epochFlags, this`written
      ensures Valid() && old(written) <= written
      ensures Displaced(r, first, old(table), old(epochFlags), old(collected), dropped)
    {
      hide ComputeHashes, Live, Carried, Displaced, Underway;
      ghost var table0, epoch0, marks0 := table, epochFlags, collected;
      var e, lastEpoch := first, true;
      var lastLoc: int := -1;
      r := Trace([first], [true], []);
      TraceStart(first);
      CarriedStart(first);
      for depth := 0 to depthLimit
        invariant Valid() && written == old(written) && Carried(first, table0, epoch0, marks0, e, lastEpoch)
        invariant Underway(r, first, table0, epoch0, marks0, depth, e, lastEpoch, lastLoc)
      {
        var free, loc := FindFree(e);
        if free {
          dropped := table[loc];
          SettleLast(first, r, table0, epoch0, marks0, depth, e, lastEpoch, lastLoc, loc);
          return;
        }
        e, lastEpoch, lastLoc, r := KickNext(first, r, table0, epoch0, marks0, depth, e, lastEpoch, lastLoc);
      }
      dropped := e;
      DroppedLast(first, r, table0, epoch0, marks0, e, lastEpoch, lastLoc);
    }

    lemma CarriedStart(first: E)
      requires |table| == |epochFlags| == |collected|
      ensures Carried(first, table, epochFlags, collected, first, true)
    {
    }

    /** The element in hand takes a place marked for collection. */
    method SettleLast(ghost first: E, ghost r: Trace<E>, ghost table0: seq<E>, ghost epoch0: seq<bool>, ghost marks0: seq<bool>,
                      ghost depth: nat, e: E, epoch: bool, ghost last: int, loc: nat)
      requires Valid() && |epoch0| == |marks0| && Carried(first, table0, epoch0, marks0, e, epoch) && depth < depthLimit
      requires Underway(r, first, table0, epoch0, marks0, depth, e, epoch, last)
      requires loc < size && loc in ComputeHashes(hash, size, e) && FirstMarked(ComputeHashes(hash, size, e), collected, loc)
      modifies this`table, this`collected, this`epochFlags, this`written
      ensures Valid() && old(written) <= written
      ensures Displaced(r, first, table0, epoch0, marks0, old(table)[loc])
    {
      hide ComputeHashes, Live, Chained, Kicked, Routed, FirstMarked, Underway;
      UnderwayIs(r, first, table0, epoch0, marks0, depth, e, epoch, last);
      StoredAfter(first, e, loc);
      MarkedKept(first, table0, epoch0, marks0, e, epoch, loc);
      Settle(e, epoch, loc);
      assert Ended(r, table0, epoch0, marks0, old(table)[loc]);
    }

    lemma MarkedKept(first: E, table0: seq<E>, epoch0: seq<bool>, marks0: seq<bool>, e: E, epoch: bool, loc: nat)
      requires |epoch0| == |marks0| && |epochFlags| == |collected| && Carried(first, table0, epoch0, marks0, e, epoch)
      requires size > 0 && FirstMarked(ComputeHashes(hash, size, e), collected, loc)
      ensures loc < |marks0| == |table0| && marks0[loc] && table[loc] == table0[loc]
    {
      hide ComputeHashes, Live;
    }

    /** The element in hand changes places with the one at its next place. */
    method KickNext(ghost first: E, ghost r: Trace<E>, ghost table0: seq<E>, ghost epoch0: seq<bool>, ghost marks0: seq<bool>,
                    ghost depth: nat, e: E, epoch: bool, last: int)
      returns (out: E, outEpoch: bool, loc: int, ghost r': Trace<E>)
      requires Valid() && |epoch0| == |marks0| && Carried(first, table0, epoch0, marks0, e, epoch)
      requires Underway(r, first, table0, epoch0, marks0, depth, e, epoch, last)
      requires !SomeMarked(ComputeHashes(hash, size, e), collected)
      requires forall l :: l in ComputeHashes(hash, size, e) ==> l < size && !collected[l]
      modifies this`table, this`epochFlags
      ensures Valid() && Carried(first, table0, epoch0, marks0, out, outEpoch)
      ensures Underway(r', first, table0, epoch0, marks0, depth + 1, out, outEpoch, loc)
    {
      hide ComputeHashes, Live, SomeMarked, Traced, TableAfter, EpochAfter, FindLoc;
      var locs := ComputeHashes(hash, size, e);
      loc := locs[(1 + FindLoc(locs, last)) % 8];
      assert loc in locs;
      StoredAfter(first, e, loc);
      assert written + {loc} == written && collected[loc := false] == collected;
      UnderwayNext(r, first, table0, epoch0, marks0, depth, e, epoch, last, loc);
      UnderwayIs(r, first, table0, epoch0, marks0, depth, e, epoch, last);
      out, outEpoch := Kick(e, epoch, loc);
      r' := Trace(r.chain + [out], r.epochs + [outEpoch], r.path + [loc]);
    }

    lemma DroppedLast(first: E, r: Trace<E>, table0: seq<E>, epoch0: seq<bool>, marks0: seq<bool>, e: E, epoch: bool, last: int)
      requires Valid() && |epoch0| == |marks0| && Carried(first, table0, epoch0, marks0, e, epoch)
      requires Underway(r, first, table0, epoch0, marks0, depthLimit, e, epoch, last)
      ensures Displaced(r, first, table0, epoch0, marks0, e)
    {
      hide ComputeHashes, Live, Traced, TableAfter, EpochAfter;
      UnderwayIs(r, first, table0, epoch0, marks0, depthLimit, e, epoch, last);
    }

    /** A chain after `depth` displacements, with `e` in hand. */
    ghost predicate Underway(r: Trace<E>, first: E, table0: seq<E>, epoch0: seq<bool>, marks0: seq<bool>,
                             depth: nat, e: E, epoch: bool, last: int)
      requires size > 0
      reads this
    {
      && Traced(r, first, table0, epoch0, marks0) && |r.path| == depth
      && table == TableAfter(r, table0) && epochFlags == EpochAfter(r, epoch0)
      && e == r.chain[depth] && epoch == r.epochs[depth] && last == if depth == 0 then -1 else r.path[depth - 1]
    }

    lemma UnderwayIs(r: Trace<E>, first: E, table0: seq<E>, epoch0: seq<bool>, marks0: seq<bool>,
                     depth: nat, e: E, epoch: bool, last: int)
      requires size > 0 && Underway(r, first, table0, epoch0, marks0, depth, e, epoch, last)
      ensures |r.chain| == |r.epochs| == |r.path| + 1 && |r.path| == depth
      ensures table == TableAfter(r, table0) && epochFlags == EpochAfter(r, epoch0)
      ensures e == r.chain[depth] && epoch == r.epochs[depth] && Traced(r, first, table0, epoch0, marks0)
    {
      hide Kicked, Routed;
    }

    lemma TraceStart(first: E)
      requires size > 0
      ensures Underway(Trace([first], [true], []), first, table, epochFlags, collected, 0, first, true, -1)
    {
      hide ComputeHashes;
      NoKicks(table, first);
      NoKicks(epochFlags, true);
    }

    /** One displacement to the place after `last`. */
    lemma UnderwayNext(r: Trace<E>, first: E, table0: seq<E>, epoch0: seq<bool>, marks0: seq<bool>,
                       depth: nat, e: E, epoch: bool, last: int, loc: nat)
      requires size > 0 && |table| == |epochFlags| == size && loc < size
      requires Underway(r, first, table0, epoch0, marks0, depth, e, epoch, last)
      requires !SomeMarked(ComputeHashes(hash, size, e), marks0) && loc == NextPlace(ComputeHashes(hash, size, e), last)
      ensures var r' := Trace(r.chain + [table[loc]], r.epochs + [epochFlags[loc]], r.path + [loc]);
              && Traced(r', first, table0, epoch0, marks0)
              && table[loc := e] == TableAfter(r', table0) && epochFlags[loc := epoch] == EpochAfter(r', epoch0)
    {
      hide Kicked, Routed, SomeMarked, NextPlace, ComputeHashes, Chained;
      ChainedSize(table0, r.chain, r.path);
      ChainedSize(epoch0, r.epochs, r.path);
      ChainGrows(table0, r.chain, r.path, loc);
      ChainGrows(epoch0, r.epochs, r.path, loc);
      RoutedMore(r.chain, r.path, marks0, table[loc], loc);
    }

    /** Rewriting a slot keeps an element stored unless it was that slot's. */
    lemma StoredAfter(first: E, e: E, loc: nat)
      requires Valid() && loc < size && (e == first || Stored(first))
      ensures (!collected[loc] && table[loc] == first)
           || exists i :: i in written + {loc} && i < size && table[loc := e][i] == first && !collected[loc := false][i]
    {
      hide ComputeHashes;
      if e == first {
        assert loc in written + {loc} && table[loc := e][loc] == first;
      } else {
        var i :| i in written && i < |table| && table[i] == first && i < |collected| && !collected[i];
        assert i in written + {loc} && (i != loc ==> table[loc := e][i] == first);
      }
    }

    /**
     Insert: nothing changes in the table when the element is already there; otherwise it
     is swapped in for exactly one other, along a displacement chain from the tables as the
     epoch check leaves them.  An element with a marked place takes such a place.  The epoch
     limit holds throughout.
     */
    method Insert(e: E) returns (ghost present: bool, ghost dropped: E, ghost r: Trace<E>, ghost epoch0: seq<bool>, ghost marks0: seq<bool>)
      requires Valid() && Bounded()
      modifies this
      ensures Valid() && Bounded() && old(written) <= written && Live(epochFlags, collected) <= Limit()
      ensures Ticked(old(epochFlags), old(collected), old(counter), epoch0, marks0, counter)
      ensures |marks0| == |epoch0| == size && forall i :: 0 <= i < size && old(collected)[i] ==> marks0[i]
      ensures present <==> old(Contained(e))
      ensures present ==> table == old(table) && exists loc ::
                && 0 <= loc < size && table[loc] == e && collected == marks0[loc := false] && epochFlags == epoch0[loc := true]
      ensures !present ==> multiset(table) + multiset{dropped} == multiset(old(table)) + multiset{e}
      ensures !present ==> Traced(r, e, old(table), epoch0, marks0) && Ended(r, old(table), epoch0, marks0, dropped)
      ensures (Stored(e) && Contained(e)) || (!present && |r.path| == depthLimit && dropped == e)
      ensures !present && SomeMarked(ComputeHashes(hash, size, e), old(collected)) ==>
                && Stored(e) && Contained(e) && r.path == []
                && exists loc :: 0 <= loc < size && marks0[loc] && loc in ComputeHashes(hash, size, e)
                                 && table == old(table)[loc := e] && dropped == old(table)[loc] && epochFlags[loc]
    {
      hide ComputeHashes, Live, SomeMarked, FirstMarked, Routed, Chained, Kicked;
      EpochCheck();
      epoch0, marks0 := epochFlags, collected;
      r := Trace([e], [true], []);
      var found := Refresh(e);
      present, dropped := found, e;
      if !found {
        dropped, r := Displace(e);
        if Stored(e) {
          ghost var i :| i in written && i < |table| && table[i] == e && i < |collected| && !collected[i];
          FilledContained(i);
        }
        if SomeMarked(ComputeHashes(hash, size, e), old(collected)) {
          MarkedMore(ComputeHashes(hash, size, e), old(collected), marks0);
          NoDetour(r, e, old(table), epoch0, marks0, dropped);
        }
      }
    }

    lemma MarkedMore(locs: seq<nat>, marks: seq<bool>, marks': seq<bool>)
      requires SomeMarked(locs, marks) && |marks'| == |marks| && forall i :: 0 <= i < |marks| && marks[i] ==> marks'[i]
      ensures SomeMarked(locs, marks')
    {
      var j :| 0 <= j < |locs| && locs[j] < |marks| && marks[locs[j]];
      assert marks'[locs[j]];
    }

    /** An element with a marked place displaces none but the holder of such a place. */
    lemma NoDetour(r: Trace<E>, e: E, table0: seq<E>, epoch0: seq<bool>, marks0: seq<bool>, dropped: E)
      requires size > 0 && depthLimit >= 1 && Traced(r, e, table0, epoch0, marks0) && |table0| == |epoch0| == |marks0| == size
      requires Ended(r, table0, epoch0, marks0, dropped) && SomeMarked(ComputeHashes(hash, size, e), marks0)
      ensures r.path == []
      ensures exists loc :: 0 <= loc < size && marks0[loc] && loc in ComputeHashes(hash, size, e)
                            && table == table0[loc := e] && dropped == table0[loc] && epochFlags[loc]
    {
      hide ComputeHashes, SomeMarked, Routed;
      if r.path != [] {
        RoutedAt(r.chain, r.path, marks0, 0);
      }
      var loc: nat :| loc < |table0| && loc < |epoch0| && loc < |marks0| && FirstMarked(ComputeHashes(hash, size, r.chain[0]), marks0, loc)
          && table == TableAfter(r, table0)[loc := r.chain[0]] && epochFlags == EpochAfter(r, epoch0)[loc := r.epochs[0]]
          && dropped == table0[loc];
      assert loc in ComputeHashes(hash, size, e);
    }
  }
}
