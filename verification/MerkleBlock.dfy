/**
 Partial Merkle trees (src/merkleblock.h, src/merkleblock.cpp): a depth-first list of
 flag bits and hashes from which a client recovers the matched transaction ids and
 the Merkle root.  The pair hash `h` is a parameter; only soundness needs it to be
 injective.
 */
module MerkleBlock {
  import opened Nat
  import opened Prelude

  const MAX_BLOCK_WEIGHT := 4000000
  const MIN_TRANSACTION_WEIGHT := 240

  // ----- shape of the tree -----

  /** Number of nodes at a height. */
  function Width(n: nat, height: nat): nat {
    (n + Pow2(height) - 1) / Pow2(height)
  }

  lemma CeilingDivision(n: nat, p: nat, pos: nat)
    requires p >= 1
    ensures pos < (n + p - 1) / p <==> pos * p < n
  {
    var w := (n + p - 1) / p;
    assert w * p <= n + p - 1 < w * p + p;
    if pos < w {
      assert (pos + 1) * p <= w * p;
    } else {
      assert pos * p >= w * p;
    }
  }

  /** A node exists exactly when its first leaf does. */
  lemma NodeExists(n: nat, height: nat, pos: nat)
    ensures pos < Width(n, height) <==> pos * Pow2(height) < n
  {
    CeilingDivision(n, Pow2(height), pos);
  }

  function First(height: nat, pos: nat): nat {
    pos * Pow2(height)
  }

  lemma ChildRanges(height: nat, pos: nat)
    requires height > 0
    ensures First(height - 1, 2 * pos) == First(height, pos)
    ensures First(height - 1, 2 * pos + 1) == First(height - 1, 2 * pos) + Pow2(height - 1)
    ensures First(height - 1, 2 * pos + 2) == First(height, pos + 1)
    ensures First(height, pos) < First(height - 1, 2 * pos + 1) < First(height, pos + 1)
  {
    assert Pow2(height) == 2 * Pow2(height - 1);
    Doubling(pos, Pow2(height - 1));
    Doubling(pos + 1, Pow2(height - 1));
  }

  lemma Doubling(pos: nat, p: nat)
    ensures (2 * pos) * p == pos * (2 * p) && (2 * pos + 1) * p == (2 * pos) * p + p
  {
  }

  /** Whether the right child of an inner node exists. */
  predicate HasRight(n: nat, height: nat, pos: nat)
    requires height > 0
  {
    2 * pos + 1 < Width(n, height - 1)
  }

  lemma Children(n: nat, height: nat, pos: nat)
    requires height > 0 && pos < Width(n, height)
    ensures 2 * pos < Width(n, height - 1) && First(height, pos) < n
    ensures HasRight(n, height, pos) <==> First(height - 1, 2 * pos + 1) < n
  {
    NodeExists(n, height, pos);
    NodeExists(n, height - 1, 2 * pos);
    NodeExists(n, height - 1, 2 * pos + 1);
    ChildRanges(height, pos);
  }

  lemma RightExists(n: nat, height: nat, pos: nat)
    requires height > 0
    ensures HasRight(n, height, pos) <==> 2 * pos + 1 < Width(n, height - 1)
  {
  }

  lemma NodeRange(n: nat, height: nat, pos: nat)
    requires pos < Width(n, height)
    ensures First(height, pos) < n && First(height, pos) < First(height, pos + 1)
  {
    NodeExists(n, height, pos);
    hide Pow2, Width;
    assert (pos + 1) * Pow2(height) == pos * Pow2(height) + Pow2(height);
  }

  /** The least height at or above `k` with at most one node. */
  function HeightFrom(n: nat, k: nat): (height: nat)
    ensures k <= height && Width(n, height) <= 1
    decreases Width(n, k)
  {
    if Width(n, k) <= 1 then k
    else
      WidthShrinks(n, k);
      HeightFrom(n, k + 1)
  }

  /** The loop that finds the height of the tree. */
  method TreeHeight(n: nat) returns (height: nat)
    ensures height == HeightFrom(n, 0)
  {
    height := 0;
    while Width(n, height) > 1
      invariant HeightFrom(n, height) == HeightFrom(n, 0)
      decreases Width(n, height)
    {
      WidthShrinks(n, height);
      height := height + 1;
    }
  }

  lemma WidthShrinks(n: nat, height: nat)
    requires Width(n, height) > 1
    ensures Width(n, height + 1) < Width(n, height)
  {
    var w := Width(n, height);
    assert Pow2(height + 1) == 2 * Pow2(height);
    hide Width, Pow2;
    NodeExists(n, height, w);
    NodeExists(n, height + 1, w - 1);
    HalvingSaves(w, Pow2(height));
  }

  lemma HalvingSaves(w: nat, p: nat)
    requires w >= 2
    ensures (w - 1) * (2 * p) >= w * p
  {
    assert (w - 1) * (2 * p) == w * p + (w - 2) * p;
  }

  // ----- the full tree -----

  function CalcHash<H>(h: (H, H) -> H, txids: seq<H>, height: nat, pos: nat): H
    requires pos < Width(|txids|, height)
    decreases height
  {
    NodeExists(|txids|, height, pos);
    if height == 0 then txids[pos]
    else
      Children(|txids|, height, pos);
      var left := CalcHash(h, txids, height - 1, 2 * pos);
      var right := if HasRight(|txids|, height, pos) then CalcHash(h, txids, height - 1, 2 * pos + 1) else left;
      h(left, right)
  }

  // ----- matches -----

  /** Some transaction from `lo` up to `hi` is matched. */
  predicate AnyMatch(matched: seq<bool>, lo: nat, hi: nat) {
    exists p :: lo <= p < hi && p < |matched| && matched[p]
  }

  /** The matched transactions from `lo` up to `hi`, with their indexes, in order. */
  function MatchedIn<H>(txids: seq<H>, matched: seq<bool>, lo: nat, hi: nat): seq<(H, nat)>
    requires |txids| == |matched|
    decreases hi - lo
  {
    if hi <= lo then []
    else
      MatchedIn(txids, matched, lo, hi - 1)
      + if hi - 1 < |matched| && matched[hi - 1] then [(txids[hi - 1], hi - 1)] else []
  }

  lemma {:induction false} MatchedSplit<H>(txids: seq<H>, matched: seq<bool>, lo: nat, mid: nat, hi: nat)
    requires |txids| == |matched| && lo <= mid <= hi
    ensures MatchedIn(txids, matched, lo, hi) == MatchedIn(txids, matched, lo, mid) + MatchedIn(txids, matched, mid, hi)
    decreases hi - mid
  {
    if mid < hi {
      MatchedSplit(txids, matched, lo, mid, hi - 1);
    }
  }

  lemma {:induction false} MatchedNone<H>(txids: seq<H>, matched: seq<bool>, lo: nat, hi: nat)
    requires |txids| == |matched|
    ensures MatchedIn(txids, matched, lo, hi) == [] <==> !AnyMatch(matched, lo, hi)
    decreases hi - lo
  {
    if lo < hi {
      MatchedNone(txids, matched, lo, hi - 1);
      if hi - 1 < |matched| && matched[hi - 1] {
        assert AnyMatch(matched, lo, hi);
      } else {
        assert AnyMatch(matched, lo, hi) <==> AnyMatch(matched, lo, hi - 1);
      }
    }
  }

  lemma {:induction false} MatchedBeyond<H>(txids: seq<H>, matched: seq<bool>, lo: nat, hi: nat)
    requires |txids| == |matched| <= lo
    ensures MatchedIn(txids, matched, lo, hi) == []
    decreases hi - lo
  {
    if lo < hi {
      MatchedBeyond(txids, matched, lo, hi - 1);
    }
  }

  // ----- the partial tree of a node -----

  /** Whether the node covers a matched transaction. */
  predicate Parent(matched: seq<bool>, height: nat, pos: nat) {
    AnyMatch(matched, First(height, pos), First(height, pos + 1))
  }

  function BuildBits(matched: seq<bool>, height: nat, pos: nat): seq<bool>
    decreases height
  {
    if height == 0 || !Parent(matched, height, pos) then [Parent(matched, height, pos)]
    else
      [true] + BuildBits(matched, height - 1, 2 * pos)
      + if HasRight(|matched|, height, pos) then BuildBits(matched, height - 1, 2 * pos + 1) else []
  }

  function BuildHashes<H>(h: (H, H) -> H, txids: seq<H>, matched: seq<bool>, height: nat, pos: nat): seq<H>
    requires |matched| == |txids| && pos < Width(|txids|, height)
    decreases height
  {
    if height == 0 || !Parent(matched, height, pos) then [CalcHash(h, txids, height, pos)]
    else
      Children(|txids|, height, pos);
      BuildHashes(h, txids, matched, height - 1, 2 * pos)
      + if HasRight(|txids|, height, pos) then BuildHashes(h, txids, matched, height - 1, 2 * pos + 1) else []
  }

  /** Some explored node has two children with the same hash. */
  predicate HasTwins<H(==)>(h: (H, H) -> H, txids: seq<H>, matched: seq<bool>, height: nat, pos: nat)
    requires |matched| == |txids| && pos < Width(|txids|, height)
    decreases height
  {
    if height == 0 || !Parent(matched, height, pos) then false
    else
      Children(|txids|, height, pos);
      || HasTwins(h, txids, matched, height - 1, 2 * pos)
      || (HasRight(|txids|, height, pos) &&
          (|| HasTwins(h, txids, matched, height - 1, 2 * pos + 1)
           || CalcHash(h, txids, height - 1, 2 * pos) == CalcHash(h, txids, height - 1, 2 * pos + 1)))
  }

  // ----- reading a partial tree -----

  /** Hash of a node, bits and hashes used so far, matches found, and whether something was wrong. */
  datatype Read<H> = Read(hash: H, bits: nat, hashes: nat, matches: seq<(H, nat)>, bad: bool)

  function Extract<H(==)>(h: (H, H) -> H, zero: H, n: nat, vBits: seq<bool>, vHash: seq<H>,
                          height: nat, pos: nat, bits: nat, hashes: nat): Read<H>
    decreases height
  {
    if bits >= |vBits| then Read(zero, bits, hashes, [], true)
    else if height == 0 || !vBits[bits] then
      if hashes >= |vHash| then Read(zero, bits + 1, hashes, [], true)
      else Read(vHash[hashes], bits + 1, hashes + 1,
                if height == 0 && vBits[bits] then [(vHash[hashes], pos)] else [], false)
    else
      var l := Extract(h, zero, n, vBits, vHash, height - 1, 2 * pos, bits + 1, hashes);
      if HasRight(n, height, pos) then
        var r := Extract(h, zero, n, vBits, vHash, height - 1, 2 * pos + 1, l.bits, l.hashes);
        Read(h(l.hash, r.hash), r.bits, r.hashes, l.matches + r.matches, l.bad || r.bad || r.hash == l.hash)
      else Read(h(l.hash, l.hash), l.bits, l.hashes, l.matches, l.bad)
  }

  lemma Regroup<T>(a: seq<T>, b: seq<T>, l: seq<T>, r: seq<T>, z: seq<T>)
    ensures a + (b + l + r) + z == (a + b) + l + (r + z)
    ensures a + (b + l + r) + z == (a + b + l) + r + z
  {
  }

  /** What reading a built node must give. */
  ghost function Expected<H>(h: (H, H) -> H, txids: seq<H>, matched: seq<bool>, height: nat, pos: nat, bits: nat, hashes: nat): Read<H>
    requires |matched| == |txids| && pos < Width(|txids|, height)
  {
    Read(CalcHash(h, txids, height, pos), bits + |BuildBits(matched, height, pos)|,
         hashes + |BuildHashes(h, txids, matched, height, pos)|,
         MatchedIn(txids, matched, First(height, pos), First(height, pos + 1)), HasTwins(h, txids, matched, height, pos))
  }

  lemma ExpectedInner<H>(h: (H, H) -> H, txids: seq<H>, matched: seq<bool>, height: nat, pos: nat, bits: nat, hashes: nat)
    requires |matched| == |txids| && pos < Width(|txids|, height) && height > 0 && Parent(matched, height, pos)
    ensures 2 * pos < Width(|txids|, height - 1)
    ensures HasRight(|txids|, height, pos) ==> 2 * pos + 1 < Width(|txids|, height - 1)
    ensures var l := Expected(h, txids, matched, height - 1, 2 * pos, bits + 1, hashes);
            Expected(h, txids, matched, height, pos, bits, hashes)
            == if HasRight(|txids|, height, pos) then
                 var r := Expected(h, txids, matched, height - 1, 2 * pos + 1, l.bits, l.hashes);
                 Read(h(l.hash, r.hash), r.bits, r.hashes, l.matches + r.matches, l.bad || r.bad || r.hash == l.hash)
               else Read(h(l.hash, l.hash), l.bits, l.hashes, l.matches, l.bad)
  {
    hide Width, Pow2, First, MatchedIn, Parent, BuildBits, BuildHashes, HasRight;
    RightExists(|txids|, height, pos);
    MatchedInner(txids, matched, height, pos);
    BuildSplit(h, txids, matched, height, pos);
  }

  lemma MatchedInner<H>(txids: seq<H>, matched: seq<bool>, height: nat, pos: nat)
    requires |matched| == |txids| && pos < Width(|txids|, height) && height > 0
    ensures MatchedIn(txids, matched, First(height, pos), First(height, pos + 1))
            == MatchedIn(txids, matched, First(height - 1, 2 * pos), First(height - 1, 2 * pos + 1))
               + if HasRight(|txids|, height, pos)
                 then MatchedIn(txids, matched, First(height - 1, 2 * pos + 1), First(height - 1, 2 * pos + 2)) else []
  {
    hide Width, Pow2, First, MatchedIn;
    Children(|txids|, height, pos);
    ChildRanges(height, pos);
    var lo, mid, hi := First(height, pos), First(height - 1, 2 * pos + 1), First(height, pos + 1);
    MatchedSplit(txids, matched, lo, mid, hi);
    if !HasRight(|txids|, height, pos) {
      MatchedBeyond(txids, matched, mid, hi);
    }
  }

  /** The bits and hashes of an inner node, taken apart. */
  lemma BuildSplit<H>(h: (H, H) -> H, txids: seq<H>, matched: seq<bool>, height: nat, pos: nat)
    requires |matched| == |txids| && pos < Width(|txids|, height) && height > 0 && Parent(matched, height, pos)
    ensures 2 * pos < Width(|txids|, height - 1)
    ensures var r := HasRight(|txids|, height, pos);
            && BuildBits(matched, height, pos)
               == [true] + BuildBits(matched, height - 1, 2 * pos) + (if r then BuildBits(matched, height - 1, 2 * pos + 1) else [])
            && BuildHashes(h, txids, matched, height, pos)
               == [] + BuildHashes(h, txids, matched, height - 1, 2 * pos)
                  + (if r then BuildHashes(h, txids, matched, height - 1, 2 * pos + 1) else [])
  {
    hide Width, Pow2, First, Parent, CalcHash;
    Children(|txids|, height, pos);
    var left := BuildHashes(h, txids, matched, height - 1, 2 * pos);
    assert [] + left == left;
  }

  /** Reading back a node that was built, wherever its bits and hashes stand. */
  lemma {:induction false} ExtractBuilt<H>(h: (H, H) -> H, zero: H, txids: seq<H>, matched: seq<bool>, height: nat, pos: nat,
                                           bitsBefore: seq<bool>, bitsAfter: seq<bool>, before: seq<H>, after: seq<H>)
    requires |matched| == |txids| && pos < Width(|txids|, height)
    ensures Extract(h, zero, |txids|, bitsBefore + BuildBits(matched, height, pos) + bitsAfter,
                    before + BuildHashes(h, txids, matched, height, pos) + after, height, pos, |bitsBefore|, |before|)
            == Expected(h, txids, matched, height, pos, |bitsBefore|, |before|)
    decreases height
  {
    hide Width, Parent, CalcHash, Expected, Extract, BuildBits, BuildHashes, HasRight;
    if height == 0 || !Parent(matched, height, pos) {
      BuildLeaf(h, txids, matched, height, pos);
      ExtractBuiltLeaf(h, zero, txids, matched, height, pos, bitsBefore, bitsAfter, before, after);
    } else {
      RightExists(|txids|, height, pos);
      BuildSplit(h, txids, matched, height, pos);
      var lb, lh := BuildBits(matched, height - 1, 2 * pos), BuildHashes(h, txids, matched, height - 1, 2 * pos);
      var rb, rh := [], [];
      if HasRight(|txids|, height, pos) {
        rb, rh := BuildBits(matched, height - 1, 2 * pos + 1), BuildHashes(h, txids, matched, height - 1, 2 * pos + 1);
        ExtractBuilt(h, zero, txids, matched, height - 1, 2 * pos + 1, bitsBefore + [true] + lb, bitsAfter, before + [] + lh, after);
      }
      ExtractBuilt(h, zero, txids, matched, height - 1, 2 * pos, bitsBefore + [true], rb + bitsAfter, before + [], rh + after);
      BuiltBoth(h, zero, txids, matched, height, pos, bitsBefore, bitsAfter, before, after, lb, rb, lh, rh);
    }
  }

  lemma BuiltBoth<H>(h: (H, H) -> H, zero: H, txids: seq<H>, matched: seq<bool>, height: nat, pos: nat,
                     bitsBefore: seq<bool>, bitsAfter: seq<bool>, before: seq<H>, after: seq<H>,
                     lb: seq<bool>, rb: seq<bool>, lh: seq<H>, rh: seq<H>)
    requires |matched| == |txids| && pos < Width(|txids|, height) && height > 0 && Parent(matched, height, pos)
    requires 2 * pos < Width(|txids|, height - 1)
    requires lb == BuildBits(matched, height - 1, 2 * pos) && lh == BuildHashes(h, txids, matched, height - 1, 2 * pos)
    requires Extract(h, zero, |txids|, (bitsBefore + [true]) + lb + (rb + bitsAfter), (before + []) + lh + (rh + after),
                     height - 1, 2 * pos, |bitsBefore + [true]|, |before + []|)
             == Expected(h, txids, matched, height - 1, 2 * pos, |bitsBefore + [true]|, |before + []|)
    requires HasRight(|txids|, height, pos) ==>
               Extract(h, zero, |txids|, (bitsBefore + [true] + lb) + rb + bitsAfter, (before + [] + lh) + rh + after,
                       height - 1, 2 * pos + 1, |bitsBefore + [true] + lb|, |before + [] + lh|)
               == Expected(h, txids, matched, height - 1, 2 * pos + 1, |bitsBefore + [true] + lb|, |before + [] + lh|)
    ensures Extract(h, zero, |txids|, bitsBefore + ([true] + lb + rb) + bitsAfter, before + ([] + lh + rh) + after,
                    height, pos, |bitsBefore|, |before|)
            == Expected(h, txids, matched, height, pos, |bitsBefore|, |before|)
  {
    hide Width, Parent, CalcHash, Expected, Extract, BuildBits, BuildHashes;
    Regroup(bitsBefore, [true], lb, rb, bitsAfter);
    Regroup(before, [], lh, rh, after);
    ExpectedSizes(h, txids, matched, height - 1, 2 * pos, |bitsBefore| + 1, |before|);
    BuiltInner(h, zero, txids, matched, height, pos, bitsBefore + ([true] + lb + rb) + bitsAfter,
               before + ([] + lh + rh) + after, |bitsBefore|, |before|);
  }

  lemma BuiltInner<H>(h: (H, H) -> H, zero: H, txids: seq<H>, matched: seq<bool>, height: nat, pos: nat,
                      vBits: seq<bool>, vHash: seq<H>, bits: nat, hashes: nat)
    requires |matched| == |txids| && pos < Width(|txids|, height) && height > 0 && Parent(matched, height, pos)
    requires 2 * pos < Width(|txids|, height - 1) && bits < |vBits| && vBits[bits]
    requires Extract(h, zero, |txids|, vBits, vHash, height - 1, 2 * pos, bits + 1, hashes)
             == Expected(h, txids, matched, height - 1, 2 * pos, bits + 1, hashes)
    requires HasRight(|txids|, height, pos) ==>
               var l := Expected(h, txids, matched, height - 1, 2 * pos, bits + 1, hashes);
               Extract(h, zero, |txids|, vBits, vHash, height - 1, 2 * pos + 1, l.bits, l.hashes)
               == Expected(h, txids, matched, height - 1, 2 * pos + 1, l.bits, l.hashes)
    ensures Extract(h, zero, |txids|, vBits, vHash, height, pos, bits, hashes)
            == Expected(h, txids, matched, height, pos, bits, hashes)
  {
    hide Width, Parent, CalcHash, Expected, Extract;
    ExpectedInner(h, txids, matched, height, pos, bits, hashes);
    ExtractInner(h, zero, |txids|, vBits, vHash, height, pos, bits, hashes);
  }

  lemma ExtractInner<H>(h: (H, H) -> H, zero: H, n: nat, vBits: seq<bool>, vHash: seq<H>, height: nat, pos: nat, bits: nat, hashes: nat)
    requires height > 0 && bits < |vBits| && vBits[bits]
    ensures var l := Extract(h, zero, n, vBits, vHash, height - 1, 2 * pos, bits + 1, hashes);
            Extract(h, zero, n, vBits, vHash, height, pos, bits, hashes)
            == if HasRight(n, height, pos) then
                 var r := Extract(h, zero, n, vBits, vHash, height - 1, 2 * pos + 1, l.bits, l.hashes);
                 Read(h(l.hash, r.hash), r.bits, r.hashes, l.matches + r.matches, l.bad || r.bad || r.hash == l.hash)
               else Read(h(l.hash, l.hash), l.bits, l.hashes, l.matches, l.bad)
  {
  }

  lemma ExpectedSizes<H>(h: (H, H) -> H, txids: seq<H>, matched: seq<bool>, height: nat, pos: nat, bits: nat, hashes: nat)
    requires |matched| == |txids| && pos < Width(|txids|, height)
    ensures Expected(h, txids, matched, height, pos, bits, hashes).bits == bits + |BuildBits(matched, height, pos)|
    ensures Expected(h, txids, matched, height, pos, bits, hashes).hashes == hashes + |BuildHashes(h, txids, matched, height, pos)|
  {
  }

  lemma ExtractBuiltLeaf<H>(h: (H, H) -> H, zero: H, txids: seq<H>, matched: seq<bool>, height: nat, pos: nat,
                            bitsBefore: seq<bool>, bitsAfter: seq<bool>, before: seq<H>, after: seq<H>)
    requires |matched| == |txids| && pos < Width(|txids|, height)
    requires height == 0 || !Parent(matched, height, pos)
    ensures Extract(h, zero, |txids|, bitsBefore + [Parent(matched, height, pos)] + bitsAfter,
                    before + [CalcHash(h, txids, height, pos)] + after, height, pos, |bitsBefore|, |before|)
            == Expected(h, txids, matched, height, pos, |bitsBefore|, |before|)
  {
    NodeExists(|txids|, height, pos);
    MatchedNone(txids, matched, First(height, pos), First(height, pos + 1));
    if height == 0 {
      assert First(0, pos) == pos && First(0, pos + 1) == pos + 1;
      assert Parent(matched, 0, pos) <==> matched[pos];
      assert MatchedIn(txids, matched, pos, pos) == [];
    }
  }

  // ----- sizes -----

  /** Explored inner nodes without a right child. */
  function Singles(matched: seq<bool>, height: nat, pos: nat): nat
    decreases height
  {
    if height == 0 || !Parent(matched, height, pos) then 0
    else if HasRight(|matched|, height, pos) then
      Singles(matched, height - 1, 2 * pos) + Singles(matched, height - 1, 2 * pos + 1)
    else 1 + Singles(matched, height - 1, 2 * pos)
  }

  /** Every explored node gives one bit and every unexpanded one a hash. */
  lemma {:induction false} BitsOfHashes<H>(h: (H, H) -> H, txids: seq<H>, matched: seq<bool>, height: nat, pos: nat)
    requires |matched| == |txids| && pos < Width(|txids|, height)
    ensures |BuildBits(matched, height, pos)| + 1 == 2 * |BuildHashes(h, txids, matched, height, pos)| + Singles(matched, height, pos)
    ensures |BuildHashes(h, txids, matched, height, pos)| >= 1
    decreases height
  {
    hide Width, Parent, BuildBits, BuildHashes;
    if height > 0 && Parent(matched, height, pos) {
      BuildSplit(h, txids, matched, height, pos);
      BitsOfHashes(h, txids, matched, height - 1, 2 * pos);
      if HasRight(|txids|, height, pos) {
        BitsOfHashes(h, txids, matched, height - 1, 2 * pos + 1);
      }
    } else {
      BuildLeaf(h, txids, matched, height, pos);
    }
  }

  lemma BuildLeaf<H>(h: (H, H) -> H, txids: seq<H>, matched: seq<bool>, height: nat, pos: nat)
    requires |matched| == |txids| && pos < Width(|txids|, height) && (height == 0 || !Parent(matched, height, pos))
    ensures BuildBits(matched, height, pos) == [Parent(matched, height, pos)]
    ensures BuildHashes(h, txids, matched, height, pos) == [CalcHash(h, txids, height, pos)]
  {
  }

  /** Never more hashes than leaves under the node. */
  lemma {:induction false} HashesByLeaves<H>(h: (H, H) -> H, txids: seq<H>, matched: seq<bool>, height: nat, pos: nat)
    requires |matched| == |txids| && pos < Width(|txids|, height)
    ensures |BuildHashes(h, txids, matched, height, pos)| <= Min(|txids|, First(height, pos + 1)) - First(height, pos)
    decreases height
  {
    hide Width, Pow2, First, Parent, CalcHash, BuildHashes;
    if height > 0 && Parent(matched, height, pos) {
      ChildRanges(height, pos);
      Children(|txids|, height, pos);
      BuildSplit(h, txids, matched, height, pos);
      HashesByLeaves(h, txids, matched, height - 1, 2 * pos);
      if HasRight(|txids|, height, pos) {
        HashesByLeaves(h, txids, matched, height - 1, 2 * pos + 1);
      }
    } else {
      NodeRange(|txids|, height, pos);
      BuildLeaf(h, txids, matched, height, pos);
    }
  }

  /** At most one hash, plus one per level for each matched transaction. */
  lemma {:induction false} HashesByMatches<H>(h: (H, H) -> H, txids: seq<H>, matched: seq<bool>, height: nat, pos: nat)
    requires |matched| == |txids| && pos < Width(|txids|, height)
    ensures |BuildHashes(h, txids, matched, height, pos)|
            <= 1 + |MatchedIn(txids, matched, First(height, pos), First(height, pos + 1))| * height
    decreases height
  {
    hide Width, Pow2, First, BuildHashes, CalcHash, MatchedIn, BuildBits, AnyMatch;
    var lo, hi := First(height, pos), First(height, pos + 1);
    if height == 0 || !Parent(matched, height, pos) {
      BuildLeaf(h, txids, matched, height, pos);
    } else {
      ChildRanges(height, pos);
      Children(|txids|, height, pos);
      BuildSplit(h, txids, matched, height, pos);
      var mid := First(height - 1, 2 * pos + 1);
      MatchedSplit(txids, matched, lo, mid, hi);
      MatchedNone(txids, matched, lo, hi);
      var l, r := |MatchedIn(txids, matched, lo, mid)|, |MatchedIn(txids, matched, mid, hi)|;
      HashesByMatches(h, txids, matched, height - 1, 2 * pos);
      if HasRight(|txids|, height, pos) {
        HashesByMatches(h, txids, matched, height - 1, 2 * pos + 1);
      }
      LevelBound(l, r, height);
    }
  }

  lemma LevelBound(l: nat, r: nat, height: nat)
    requires height >= 1 && l + r >= 1
    ensures 1 + l * (height - 1) + 1 + r * (height - 1) <= 1 + (l + r) * height
    ensures 1 + l * (height - 1) <= 1 + (l + r) * height
  {
    assert (l + r) * height == l * (height - 1) + r * (height - 1) + (l + r);
  }

  // ----- soundness -----

  ghost predicate Injective<H(!new)>(h: (H, H) -> H) {
    forall a, b, c, d :: h(a, b) == h(c, d) ==> a == c && b == d
  }

  ghost predicate Genuine<H>(txids: seq<H>, matches: seq<(H, nat)>, lo: nat, hi: nat) {
    && (forall k :: 0 <= k < |matches| ==>
          lo <= matches[k].1 < hi && matches[k].1 < |txids| && txids[matches[k].1] == matches[k].0)
    && (forall j, k :: 0 <= j < k < |matches| ==> matches[j].1 < matches[k].1)
  }

  lemma GenuineJoin<H>(txids: seq<H>, a: seq<(H, nat)>, b: seq<(H, nat)>, lo: nat, mid: nat, hi: nat)
    requires Genuine(txids, a, lo, mid) && Genuine(txids, b, mid, hi) && lo <= mid <= hi
    ensures Genuine(txids, a + b, lo, hi)
  {
  }

  /** A reading that arrives at the true hash of a node found only true transactions under it. */
  lemma {:induction false} ExtractSound<H(!new)>(h: (H, H) -> H, zero: H, txids: seq<H>, vBits: seq<bool>, vHash: seq<H>,
                                                 height: nat, pos: nat, bits: nat, hashes: nat)
    requires Injective(h) && pos < Width(|txids|, height)
    requires var r := Extract(h, zero, |txids|, vBits, vHash, height, pos, bits, hashes);
             !r.bad && r.hash == CalcHash(h, txids, height, pos)
    ensures Genuine(txids, Extract(h, zero, |txids|, vBits, vHash, height, pos, bits, hashes).matches,
                    First(height, pos), First(height, pos + 1))
    decreases height
  {
    hide Width, Pow2, First, CalcHash, Genuine, Injective;
    if height == 0 || !vBits[bits] {
      LeafSound(h, zero, txids, vBits, vHash, height, pos, bits, hashes);
    } else {
      Children(|txids|, height, pos);
      ChildRanges(height, pos);
      var l := Extract(h, zero, |txids|, vBits, vHash, height - 1, 2 * pos, bits + 1, hashes);
      SameChildren(h, zero, txids, vBits, vHash, height, pos, bits, hashes);
      ExtractSound(h, zero, txids, vBits, vHash, height - 1, 2 * pos, bits + 1, hashes);
      if HasRight(|txids|, height, pos) {
        ExtractSound(h, zero, txids, vBits, vHash, height - 1, 2 * pos + 1, l.bits, l.hashes);
        var r := Extract(h, zero, |txids|, vBits, vHash, height - 1, 2 * pos + 1, l.bits, l.hashes);
        GenuineJoin(txids, l.matches, r.matches, First(height, pos), First(height - 1, 2 * pos + 1), First(height, pos + 1));
      } else {
        GenuineNone(txids, First(height - 1, 2 * pos + 1), First(height, pos + 1));
        GenuineJoin(txids, l.matches, [], First(height, pos), First(height - 1, 2 * pos + 1), First(height, pos + 1));
        assert l.matches + [] == l.matches;
      }
    }
  }

  lemma LeafSound<H>(h: (H, H) -> H, zero: H, txids: seq<H>, vBits: seq<bool>, vHash: seq<H>,
                     height: nat, pos: nat, bits: nat, hashes: nat)
    requires pos < Width(|txids|, height) && bits < |vBits| && (height == 0 || !vBits[bits])
    requires var r := Extract(h, zero, |txids|, vBits, vHash, height, pos, bits, hashes);
             !r.bad && r.hash == CalcHash(h, txids, height, pos)
    ensures Genuine(txids, Extract(h, zero, |txids|, vBits, vHash, height, pos, bits, hashes).matches,
                    First(height, pos), First(height, pos + 1))
  {
    NodeExists(|txids|, height, pos);
    if height == 0 {
      assert First(0, pos) == pos && First(0, pos + 1) == pos + 1;
    }
  }

  lemma GenuineNone<H>(txids: seq<H>, lo: nat, hi: nat)
    ensures Genuine(txids, [], lo, hi)
  {
  }

  lemma SameChildren<H(!new)>(h: (H, H) -> H, zero: H, txids: seq<H>, vBits: seq<bool>, vHash: seq<H>,
                              height: nat, pos: nat, bits: nat, hashes: nat)
    requires Injective(h) && pos < Width(|txids|, height) && height > 0 && bits < |vBits| && vBits[bits]
    requires var r := Extract(h, zero, |txids|, vBits, vHash, height, pos, bits, hashes);
             !r.bad && r.hash == CalcHash(h, txids, height, pos)
    ensures 2 * pos < Width(|txids|, height - 1)
    ensures var l := Extract(h, zero, |txids|, vBits, vHash, height - 1, 2 * pos, bits + 1, hashes);
            && !l.bad && l.hash == CalcHash(h, txids, height - 1, 2 * pos)
            && (HasRight(|txids|, height, pos) ==>
                  var r := Extract(h, zero, |txids|, vBits, vHash, height - 1, 2 * pos + 1, l.bits, l.hashes);
                  !r.bad && r.hash == CalcHash(h, txids, height - 1, 2 * pos + 1))
  {
    Children(|txids|, height, pos);
  }

  // ----- no twins among distinct transactions -----

  lemma {:induction false} SameHashSameLeaf<H(!new)>(h: (H, H) -> H, txids: seq<H>, height: nat, p: nat, q: nat)
    requires Injective(h) && p < Width(|txids|, height) && q < Width(|txids|, height)
    requires CalcHash(h, txids, height, p) == CalcHash(h, txids, height, q)
    ensures First(height, p) < |txids| && First(height, q) < |txids|
    ensures txids[First(height, p)] == txids[First(height, q)]
    decreases height
  {
    NodeExists(|txids|, height, p);
    NodeExists(|txids|, height, q);
    if height > 0 {
      Children(|txids|, height, p);
      Children(|txids|, height, q);
      ChildRanges(height, p);
      ChildRanges(height, q);
      SameHashSameLeaf(h, txids, height - 1, 2 * p, 2 * q);
    }
  }

  ghost predicate AllDistinct<H>(s: seq<H>) {
    forall i, j :: 0 <= i < j < |s| ==> s[i] != s[j]
  }

  lemma {:induction false} DistinctHaveNoTwins<H(!new)>(h: (H, H) -> H, txids: seq<H>, matched: seq<bool>, height: nat, pos: nat)
    requires Injective(h) && AllDistinct(txids) && |matched| == |txids| && pos < Width(|txids|, height)
    ensures !HasTwins(h, txids, matched, height, pos)
    decreases height
  {
    if height > 0 && Parent(matched, height, pos) {
      Children(|txids|, height, pos);
      DistinctHaveNoTwins(h, txids, matched, height - 1, 2 * pos);
      if HasRight(|txids|, height, pos) {
        DistinctHaveNoTwins(h, txids, matched, height - 1, 2 * pos + 1);
        ChildRanges(height, pos);
        if CalcHash(h, txids, height - 1, 2 * pos) == CalcHash(h, txids, height - 1, 2 * pos + 1) {
          SameHashSameLeaf(h, txids, height - 1, 2 * pos, 2 * pos + 1);
          assert false;
        }
      }
    }
  }

  // ----- how many bits -----

  /** The node without a sibling at some level, if there is one, covers a matched transaction. */
  predicate LonelyMatch(matched: seq<bool>, height: nat) {
    exists k: nat :: k < height && Lonely(matched, k)
  }

  /** An odd number of nodes at height `k`, the last of them above a matched transaction. */
  predicate Lonely(matched: seq<bool>, k: nat) {
    Width(|matched|, k) % 2 == 1 && AnyMatch(matched, First(k, Width(|matched|, k) - 1), |matched|)
  }

  lemma {:induction false} InnerNodesPaired(matched: seq<bool>, height: nat, pos: nat)
    requires pos + 1 < Width(|matched|, height)
    ensures Singles(matched, height, pos) == 0
    decreases height
  {
    if height > 0 {
      NodeExists(|matched|, height, pos + 1);
      ChildRanges(height, pos);
      NodeExists(|matched|, height - 1, 2 * pos + 1);
      NodeExists(|matched|, height - 1, 2 * pos + 2);
      hide Width, Pow2, First, Parent;
      InnerNodesPaired(matched, height - 1, 2 * pos);
      InnerNodesPaired(matched, height - 1, 2 * pos + 1);
    }
  }

  lemma LastChild(n: nat, height: nat, pos: nat)
    requires height > 0 && pos + 1 == Width(n, height)
    ensures Width(n, height - 1) == if HasRight(n, height, pos) then 2 * pos + 2 else 2 * pos + 1
    ensures First(height, pos) < n <= First(height, pos + 1)
  {
    NodeExists(n, height, pos);
    NodeExists(n, height, pos + 1);
    ChildRanges(height, pos);
    NodeExists(n, height - 1, 2 * pos);
    NodeExists(n, height - 1, 2 * pos + 2);
    hide Width, Pow2;
  }

  /** The levels below `height` at which a matched transaction lies under a node without a sibling. */
  function LonelyCount(matched: seq<bool>, height: nat): (c: nat)
    ensures c <= height
  {
    if height == 0 then 0 else LonelyCount(matched, height - 1) + if Lonely(matched, height - 1) then 1 else 0
  }

  lemma {:induction false} SomeLonely(matched: seq<bool>, height: nat)
    ensures LonelyCount(matched, height) > 0 <==> LonelyMatch(matched, height)
  {
    if height > 0 {
      hide Lonely;
      SomeLonely(matched, height - 1);
    }
  }

  /** The inner nodes with one child are one for each such level. */
  lemma {:induction false} SinglesAreLonely(matched: seq<bool>, height: nat, pos: nat)
    requires pos + 1 == Width(|matched|, height)
    ensures Singles(matched, height, pos) == LonelyCount(matched, height)
    decreases height
  {
    var n := |matched|;
    if height > 0 {
      LastChild(n, height, pos);
      SomeLonely(matched, height);
      hide Width, Pow2, First, LonelyMatch, Lonely, Parent;
      LonelyLastChild(matched, height, pos);
      if LonelyMatch(matched, height) {
        LonelyIsUnder(matched, height, pos);
      }
      if HasRight(n, height, pos) {
        InnerNodesPaired(matched, height - 1, 2 * pos);
        SinglesAreLonely(matched, height - 1, 2 * pos + 1);
      } else {
        SinglesAreLonely(matched, height - 1, 2 * pos);
      }
    }
  }

  /** Whatever the last nodes of lower levels cover, the last node of this level covers too. */
  lemma {:induction false} LastNodesNest(n: nat, height: nat, k: nat)
    requires k <= height && Width(n, height) >= 1 && Width(n, k) >= 1
    ensures First(height, Width(n, height) - 1) <= First(k, Width(n, k) - 1)
    decreases height
  {
    if k < height {
      LastChild(n, height, Width(n, height) - 1);
      ChildRanges(height, Width(n, height) - 1);
      hide Pow2;
      LastNodesNest(n, height - 1, k);
    }
  }

  lemma LonelyIsUnder(matched: seq<bool>, height: nat, pos: nat)
    requires height > 0 && pos + 1 == Width(|matched|, height) && LonelyMatch(matched, height)
    ensures Parent(matched, height, pos)
  {
    LastChild(|matched|, height, pos);
    var k: nat :| k < height && Lonely(matched, k);
    hide Pow2, Width, First;
    LastNodesNest(|matched|, height, k);
  }

  /** The last child is lonely exactly when it has no sibling and something under it matches. */
  lemma LonelyLastChild(matched: seq<bool>, height: nat, pos: nat)
    requires height > 0 && pos + 1 == Width(|matched|, height)
    ensures Lonely(matched, height - 1) <==> !HasRight(|matched|, height, pos) && Parent(matched, height, pos)
  {
    var n := |matched|;
    LastChild(n, height, pos);
    ChildRanges(height, pos);
    hide Pow2, Width, First;
    assert (2 * pos + 2) % 2 == 0 && (2 * pos + 1) % 2 == 1;
    if !HasRight(n, height, pos) {
      assert AnyMatch(matched, First(height, pos), n) <==> AnyMatch(matched, First(height, pos), First(height, pos + 1));
    }
  }

  /**
   The bound of two bits per hash less one, which the format's description gives, holds
   exactly when no matched transaction lies under a node without a sibling.
   */
  lemma BitBound<H>(h: (H, H) -> H, txids: seq<H>, matched: seq<bool>, height: nat)
    requires |matched| == |txids| && Width(|txids|, height) == 1
    ensures |BuildBits(matched, height, 0)| <= 2 * |BuildHashes(h, txids, matched, height, 0)| - 1
            <==> !LonelyMatch(matched, height)
  {
    hide Width, BuildBits, BuildHashes;
    BitsOfHashes(h, txids, matched, height, 0);
    SinglesAreLonely(matched, height, 0);
    SomeLonely(matched, height);
  }

  /** With five transactions, matching only the last breaks that bound. */
  lemma BitBoundFails<H>(h: (H, H) -> H, txids: seq<H>)
    requires |txids| == 5
    ensures Width(5, 3) == 1
    ensures var matched := [false, false, false, false, true];
            && |BuildBits(matched, 3, 0)| == 5 && |BuildHashes(h, txids, matched, 3, 0)| == 2
            && LonelyMatch(matched, 3)
  {
    var matched := [false, false, false, false, true];
    assert Pow2(1) == 2 && Pow2(2) == 4 && Pow2(3) == 8;
    assert Lonely(matched, 0) by {
      assert First(0, 4) == 4 && matched[4];
    }
    hide Lonely;
    assert LonelyMatch(matched, 3);
    FiveNodes(matched);
    BitsOfHashes(h, txids, matched, 3, 0);
  }

  lemma FiveNodes(matched: seq<bool>)
    requires matched == [false, false, false, false, true]
    ensures |BuildBits(matched, 3, 0)| == 5 && Singles(matched, 3, 0) == 2
  {
    assert Pow2(1) == 2 && Pow2(2) == 4 && Pow2(3) == 8;
    assert matched[4];
    assert Parent(matched, 3, 0) && !Parent(matched, 2, 0) && Parent(matched, 2, 1) && Parent(matched, 1, 2) && Parent(matched, 0, 4);
    assert HasRight(5, 3, 0) && !HasRight(5, 2, 1) && !HasRight(5, 1, 2);
    hide Parent, HasRight;
    assert |BuildBits(matched, 1, 2)| == 2;
    assert |BuildBits(matched, 2, 1)| == 3;
  }

  // ----- packing the bits -----

  predicate TestBit(b: bv8, k: nat)
    requires k < 8
  {
    (b & ((1 as bv8) << k)) != 0
  }

  lemma OrBit(b: bv8, k: nat, j: nat)
    requires k < 8 && j < 8
    ensures TestBit(b | ((1 as bv8) << k), j) <==> TestBit(b, j) || j == k
    ensures !TestBit(0, j)
  {
  }

  /** Bit p of the byte sequence, least significant bit first. */
  predicate BitAt(bytes: seq<bv8>, p: nat)
    requires p < 8 * |bytes|
  {
    TestBit(bytes[p / 8], p % 8)
  }

  method PackBits(vBits: seq<bool>) returns (vBytes: seq<bv8>)
    ensures |vBytes| == (|vBits| + 7) / 8
    ensures forall p :: 0 <= p < 8 * |vBytes| ==> (BitAt(vBytes, p) <==> p < |vBits| && vBits[p])
  {
    vBytes := seq((|vBits| + 7) / 8, _ => 0);
    forall p | 0 <= p < 8 * |vBytes|
      ensures !BitAt(vBytes, p)
    {
      OrBit(0, 0, p % 8);
    }
    for p := 0 to |vBits|
      invariant |vBytes| == (|vBits| + 7) / 8
      invariant forall q :: 0 <= q < 8 * |vBytes| ==> (BitAt(vBytes, q) <==> q < p && vBits[q])
    {
      ghost var before := vBytes;
      if vBits[p] {
        SetBit(vBytes, p);
        vBytes := vBytes[p / 8 := vBytes[p / 8] | ((1 as bv8) << (p % 8))];
      }
      hide BitAt;
      assert forall q :: 0 <= q < 8 * |vBytes| ==> (BitAt(vBytes, q) <==> BitAt(before, q) || (q == p && vBits[p]));
    }
  }

  lemma SetBit(bytes: seq<bv8>, p: nat)
    requires p < 8 * |bytes|
    ensures forall q :: 0 <= q < 8 * |bytes| ==>
              (BitAt(bytes[p / 8 := bytes[p / 8] | ((1 as bv8) << (p % 8))], q) <==> BitAt(bytes, q) || q == p)
  {
    forall q | 0 <= q < 8 * |bytes|
      ensures BitAt(bytes[p / 8 := bytes[p / 8] | ((1 as bv8) << (p % 8))], q) <==> BitAt(bytes, q) || q == p
    {
      if q / 8 == p / 8 {
        OrBit(bytes[p / 8], p % 8, q % 8);
        hide TestBit;
      }
    }
  }

  method UnpackBits(vBytes: seq<bv8>) returns (vBits: seq<bool>)
    ensures |vBits| == 8 * |vBytes|
    ensures forall p :: 0 <= p < |vBits| ==> vBits[p] == BitAt(vBytes, p)
  {
    vBits := [];
    for p := 0 to 8 * |vBytes|
      invariant |vBits| == p && forall q :: 0 <= q < p ==> vBits[q] == BitAt(vBytes, q)
    {
      vBits := vBits + [(vBytes[p / 8] & ((1 as bv8) << (p % 8))) != 0];
    }
  }

  /** What travels over the wire: the bits padded to whole bytes. */
  function Padded(bits: seq<bool>): seq<bool> {
    bits + seq((8 - |bits| % 8) % 8, _ => false)
  }

  lemma PaddedSize(bits: seq<bool>)
    ensures |Padded(bits)| == 8 * ((|bits| + 7) / 8) && (|Padded(bits)| + 7) / 8 == (|bits| + 7) / 8
    ensures |Padded(bits)| >= |bits|
  {
    var q, r := |bits| / 8, |bits| % 8;
    assert |bits| == 8 * q + r;
    assert (|bits| + 7) / 8 == if r == 0 then q else q + 1;
  }

  // ----- the whole exchange -----

  /** The root a client obtains, or `zero` on any failure. */
  function ExtractRoot<H(==)>(h: (H, H) -> H, zero: H, n: nat, vBits: seq<bool>, vHash: seq<H>): H {
    if n == 0 || n > MAX_BLOCK_WEIGHT / MIN_TRANSACTION_WEIGHT || |vHash| > n || |vBits| < |vHash| then zero
    else
      var r := Extract(h, zero, n, vBits, vHash, HeightFrom(n, 0), 0, 0, 0);
      if r.bad || (r.bits + 7) / 8 != (|vBits| + 7) / 8 || r.hashes != |vHash| then zero else r.hash
  }

  function ExtractFound<H(==)>(h: (H, H) -> H, zero: H, n: nat, vBits: seq<bool>, vHash: seq<H>): seq<(H, nat)> {
    Extract(h, zero, n, vBits, vHash, HeightFrom(n, 0), 0, 0, 0).matches
  }

  lemma RootExists(n: nat)
    requires n > 0
    ensures Width(n, HeightFrom(n, 0)) == 1 && First(HeightFrom(n, 0), 0) == 0 && First(HeightFrom(n, 0), 1) >= n
  {
    NodeExists(n, HeightFrom(n, 0), 0);
    NodeExists(n, HeightFrom(n, 0), 1);
  }

  lemma {:induction false} MatchedAll<H>(txids: seq<H>, matched: seq<bool>, lo: nat, hi: nat)
    requires |txids| == |matched| && lo <= |matched| <= hi
    ensures MatchedIn(txids, matched, lo, hi) == MatchedIn(txids, matched, lo, |matched|)
  {
    MatchedSplit(txids, matched, lo, |matched|, hi);
    MatchedBeyond(txids, matched, |matched|, hi);
  }

  /**
   Building, padding to bytes and extracting gives the Merkle root and exactly the
   matched transactions with their indexes; it fails exactly when an explored node has
   two equal children.
   */
  lemma RoundTrip<H>(h: (H, H) -> H, zero: H, txids: seq<H>, matched: seq<bool>)
    requires 0 < |txids| <= MAX_BLOCK_WEIGHT / MIN_TRANSACTION_WEIGHT && |matched| == |txids|
    ensures Width(|txids|, HeightFrom(|txids|, 0)) == 1
    ensures var n := |txids|;
            var height := HeightFrom(n, 0);
            var bits, hashes := BuildBits(matched, height, 0), BuildHashes(h, txids, matched, height, 0);
            && ExtractRoot(h, zero, n, Padded(bits), hashes)
               == (if HasTwins(h, txids, matched, height, 0) then zero else CalcHash(h, txids, height, 0))
            && ExtractFound(h, zero, n, Padded(bits), hashes) == MatchedIn(txids, matched, 0, n)
  {
    hide Width, First, BuildBits, BuildHashes, Extract, HeightFrom, HasTwins, MatchedIn, Padded, CalcHash;
    var n := |txids|;
    RootExists(n);
    var height := HeightFrom(n, 0);
    ReadBack(h, zero, txids, matched, height);
    PaddedSize(BuildBits(matched, height, 0));
    MatchedAll(txids, matched, 0, First(height, 1));
    HashesByLeaves(h, txids, matched, height, 0);
    BitsOfHashes(h, txids, matched, height, 0);
  }

  lemma ReadBack<H>(h: (H, H) -> H, zero: H, txids: seq<H>, matched: seq<bool>, height: nat)
    requires |matched| == |txids| && Width(|txids|, height) == 1
    ensures Extract(h, zero, |txids|, Padded(BuildBits(matched, height, 0)), BuildHashes(h, txids, matched, height, 0), height, 0, 0, 0)
            == Expected(h, txids, matched, height, 0, 0, 0)
  {
    hide Width, BuildBits, BuildHashes, Extract, Expected;
    var bits, hashes := BuildBits(matched, height, 0), BuildHashes(h, txids, matched, height, 0);
    var pad := seq((8 - |bits| % 8) % 8, _ => false);
    ExtractBuilt(h, zero, txids, matched, height, 0, [], pad, [], []);
    assert [] + bits + pad == Padded(bits);
    assert [] + hashes + [] == hashes;
  }

  /** Distinct transaction ids and a collision-free hash rule that failure out. */
  lemma RoundTripSucceeds<H(!new)>(h: (H, H) -> H, zero: H, txids: seq<H>, matched: seq<bool>)
    requires 0 < |txids| <= MAX_BLOCK_WEIGHT / MIN_TRANSACTION_WEIGHT && |matched| == |txids|
    requires Injective(h) && AllDistinct(txids)
    ensures Width(|txids|, HeightFrom(|txids|, 0)) == 1
    ensures var n := |txids|;
            var height := HeightFrom(n, 0);
            var bits, hashes := BuildBits(matched, height, 0), BuildHashes(h, txids, matched, height, 0);
            && ExtractRoot(h, zero, n, Padded(bits), hashes) == CalcHash(h, txids, height, 0)
            && ExtractFound(h, zero, n, Padded(bits), hashes) == MatchedIn(txids, matched, 0, n)
            && |hashes| <= Min(n, 1 + |MatchedIn(txids, matched, 0, n)| * height)
  {
    hide Width, BuildBits, BuildHashes, HeightFrom, HasTwins, MatchedIn, ExtractRoot, ExtractFound, First, Injective, CalcHash, AllDistinct, Padded;
    var n := |txids|;
    var height := HeightFrom(n, 0);
    RootExists(n);
    RoundTrip(h, zero, txids, matched);
    DistinctHaveNoTwins(h, txids, matched, height, 0);
    HashesByLeaves(h, txids, matched, height, 0);
    HashesByMatches(h, txids, matched, height, 0);
    MatchedAll(txids, matched, 0, First(height, 1));
  }

  /**
   Whatever bits and hashes a peer sends: when they give the true root of the block, every
   transaction reported is in the block at the reported index, in increasing order.
   */
  lemma TrueRootIsSound<H(!new)>(h: (H, H) -> H, zero: H, txids: seq<H>, vBits: seq<bool>, vHash: seq<H>)
    requires |txids| > 0 && Injective(h)
    requires Width(|txids|, HeightFrom(|txids|, 0)) == 1
    requires ExtractRoot(h, zero, |txids|, vBits, vHash) == CalcHash(h, txids, HeightFrom(|txids|, 0), 0) != zero
    ensures Genuine(txids, ExtractFound(h, zero, |txids|, vBits, vHash), 0, |txids|)
  {
    var n := |txids|;
    var height := HeightFrom(n, 0);
    hide Width, Extract, HeightFrom, First, Injective, CalcHash;
    RootExists(n);
    ExtractSound(h, zero, txids, vBits, vHash, height, 0, 0, 0);
  }

  // ----- the object -----

  function Ids<H>(matches: seq<(H, nat)>): seq<H> {
    seq(|matches|, i requires 0 <= i < |matches| => matches[i].0)
  }

  function Indexes<H>(matches: seq<(H, nat)>): seq<nat> {
    seq(|matches|, i requires 0 <= i < |matches| => matches[i].1)
  }

  lemma IdsJoin<H>(a: seq<(H, nat)>, b: seq<(H, nat)>)
    ensures Ids(a + b) == Ids(a) + Ids(b) && Indexes(a + b) == Indexes(a) + Indexes(b)
  {
  }

  lemma ExtractLeaf<H>(h: (H, H) -> H, zero: H, n: nat, vBits: seq<bool>, vHash: seq<H>, height: nat, pos: nat, bits: nat, hashes: nat)
    requires bits >= |vBits| || height == 0 || !vBits[bits]
    ensures Extract(h, zero, n, vBits, vHash, height, pos, bits, hashes)
            == if bits >= |vBits| then Read(zero, bits, hashes, [], true)
               else if hashes >= |vHash| then Read(zero, bits + 1, hashes, [], true)
               else Read(vHash[hashes], bits + 1, hashes + 1,
                         if height == 0 && vBits[bits] then [(vHash[hashes], pos)] else [], false)
    ensures var none: seq<(H, nat)> := []; Ids(none) == [] && Indexes(none) == []
    ensures forall x: H {:trigger Ids([(x, pos)])} :: Ids([(x, pos)]) == [x] && Indexes([(x, pos)]) == [pos]
  {
  }

  class PartialMerkleTree<H(==)> {
    const h: (H, H) -> H
    const zero: H
    var nTransactions: nat
    var vBits: seq<bool>
    var vHash: seq<H>
    var fBad: bool

    constructor (h: (H, H) -> H, zero: H, txids: seq<H>, matched: seq<bool>)
      requires |matched| == |txids| > 0
      ensures this.h == h && this.zero == zero && nTransactions == |txids| && !fBad
      ensures Width(|txids|, HeightFrom(|txids|, 0)) == 1
      ensures vBits == BuildBits(matched, HeightFrom(|txids|, 0), 0)
      ensures vHash == BuildHashes(h, txids, matched, HeightFrom(|txids|, 0), 0)
    {
      this.h, this.zero, nTransactions, fBad := h, zero, |txids|, false;
      vBits, vHash := [], [];
      new;
      RootExists(|txids|);
      hide BuildBits, BuildHashes, Width;
      var nHeight := TreeHeight(|txids|);
      TraverseAndBuild(nHeight, 0, txids, matched);
    }

    /** Appends the bits and hashes of a node, depth first. */
    method TraverseAndBuild(height: nat, pos: nat, txids: seq<H>, matched: seq<bool>)
      requires |matched| == |txids| == nTransactions && pos < Width(nTransactions, height)
      modifies this`vBits, this`vHash
      ensures vBits == old(vBits) + BuildBits(matched, height, pos)
      ensures vHash == old(vHash) + BuildHashes(h, txids, matched, height, pos)
      decreases height
    {
      hide Width, BuildBits, BuildHashes, CalcHash, HasRight;
      var fParentOfMatch := CoversMatch(height, pos, matched);
      vBits := vBits + [fParentOfMatch];
      if height == 0 || !fParentOfMatch {
        BuildLeaf(h, txids, matched, height, pos);
        vHash := vHash + [CalcHash(h, txids, height, pos)];
      } else {
        BuildSplit(h, txids, matched, height, pos);
        RightExists(nTransactions, height, pos);
        TraverseAndBuild(height - 1, 2 * pos, txids, matched);
        if HasRight(nTransactions, height, pos) {
          TraverseAndBuild(height - 1, 2 * pos + 1, txids, matched);
        }
      }
    }

    /** The loop over the leaves under a node. */
    method CoversMatch(height: nat, pos: nat, matched: seq<bool>) returns (found: bool)
      requires |matched| == nTransactions
      ensures found <==> Parent(matched, height, pos)
    {
      found := false;
      var p, end := pos * Pow2(height), (pos + 1) * Pow2(height);
      assert p <= end;
      while p < end && p < nTransactions
        invariant First(height, pos) <= p <= end
        invariant found <==> AnyMatch(matched, First(height, pos), p)
      {
        AnyMatchNext(matched, First(height, pos), p);
        found := found || matched[p];
        p := p + 1;
      }
      assert AnyMatch(matched, First(height, pos), p) <==> Parent(matched, height, pos);
    }

    lemma AnyMatchNext(matched: seq<bool>, lo: nat, p: nat)
      requires lo <= p < |matched|
      ensures AnyMatch(matched, lo, p + 1) <==> AnyMatch(matched, lo, p) || matched[p]
    {
    }

    /** Consumes the bits and hashes of a node; `fBad` records anything wrong and stays set. */
    method TraverseAndExtract(height: nat, pos: nat, bitsIn: nat, hashesIn: nat, vMatchIn: seq<H>, vnIndexIn: seq<nat>)
        returns (hash: H, nBitsUsed: nat, nHashUsed: nat, vMatch: seq<H>, vnIndex: seq<nat>)
      modifies this`fBad
      ensures var r := Extract(h, zero, nTransactions, vBits, vHash, height, pos, bitsIn, hashesIn);
              && hash == r.hash && nBitsUsed == r.bits && nHashUsed == r.hashes && fBad == (old(fBad) || r.bad)
              && vMatch == vMatchIn + Ids(r.matches) && vnIndex == vnIndexIn + Indexes(r.matches)
      decreases height
    {
      hide Extract, HasRight, Ids, Indexes;
      nBitsUsed, nHashUsed, vMatch, vnIndex := bitsIn, hashesIn, vMatchIn, vnIndexIn;
      if nBitsUsed >= |vBits| || height == 0 || !vBits[nBitsUsed] {
        ExtractLeaf(h, zero, nTransactions, vBits, vHash, height, pos, bitsIn, hashesIn);
      }
      if nBitsUsed >= |vBits| {
        fBad := true;
        return zero, nBitsUsed, nHashUsed, vMatch, vnIndex;
      }
      var fParentOfMatch := vBits[nBitsUsed];
      nBitsUsed := nBitsUsed + 1;
      if height == 0 || !fParentOfMatch {
        if nHashUsed >= |vHash| {
          fBad := true;
          return zero, nBitsUsed, nHashUsed, vMatch, vnIndex;
        }
        hash := vHash[nHashUsed];
        nHashUsed := nHashUsed + 1;
        if height == 0 && fParentOfMatch {
          vMatch := vMatch + [hash];
          vnIndex := vnIndex + [pos];
        }
      } else {
        ExtractInner(h, zero, nTransactions, vBits, vHash, height, pos, bitsIn, hashesIn);
        var left;
        left, nBitsUsed, nHashUsed, vMatch, vnIndex :=
          TraverseAndExtract(height - 1, 2 * pos, nBitsUsed, nHashUsed, vMatch, vnIndex);
        var right := left;
        if HasRight(nTransactions, height, pos) {
          ghost var l := Extract(h, zero, nTransactions, vBits, vHash, height - 1, 2 * pos, bitsIn + 1, hashesIn);
          ghost var r := Extract(h, zero, nTransactions, vBits, vHash, height - 1, 2 * pos + 1, l.bits, l.hashes);
          IdsJoin(l.matches, r.matches);
          right, nBitsUsed, nHashUsed, vMatch, vnIndex :=
            TraverseAndExtract(height - 1, 2 * pos + 1, nBitsUsed, nHashUsed, vMatch, vnIndex);
          if right == left {
            fBad := true;
          }
        }
        hash := h(left, right);
      }
    }

    /** Only `vMatch` starts empty; indexes are appended to what the caller passes in. */
    method ExtractMatches(vnIndexIn: seq<nat>) returns (root: H, vMatch: seq<H>, vnIndex: seq<nat>)
      requires !fBad
      modifies this`fBad
      ensures root == ExtractRoot(h, zero, nTransactions, vBits, vHash)
      ensures root != zero ==> vMatch == Ids(ExtractFound(h, zero, nTransactions, vBits, vHash))
                               && vnIndex == vnIndexIn + Indexes(ExtractFound(h, zero, nTransactions, vBits, vHash))
    {
      hide Extract, HeightFrom, Ids, Indexes;
      root, vMatch, vnIndex := zero, [], vnIndexIn;
      if nTransactions == 0 || nTransactions > MAX_BLOCK_WEIGHT / MIN_TRANSACTION_WEIGHT
         || |vHash| > nTransactions || |vBits| < |vHash| {
        return;
      }
      var nHeight := TreeHeight(nTransactions);
      var hash, nBitsUsed, nHashUsed;
      hash, nBitsUsed, nHashUsed, vMatch, vnIndex := TraverseAndExtract(nHeight, 0, 0, 0, vMatch, vnIndex);
      if fBad || (nBitsUsed + 7) / 8 != (|vBits| + 7) / 8 || nHashUsed != |vHash| {
        return;
      }
      root := hash;
    }

    /** Reads what another tree wrote: the bits come back padded to whole bytes. */
    method ReadFrom(other: PartialMerkleTree<H>)
      requires other != this
      modifies this
      ensures nTransactions == other.nTransactions && vHash == other.vHash && !fBad && vBits == Padded(other.vBits)
    {
      nTransactions, vHash := other.nTransactions, other.vHash;
      var vBytes := PackBits(other.vBits);
      vBits := UnpackBits(vBytes);
      fBad := false;
      PaddedSize(other.vBits);
      forall p | 0 <= p < |vBits|
        ensures vBits[p] == Padded(other.vBits)[p]
      {
        assert BitAt(vBytes, p) <==> p < |other.vBits| && other.vBits[p];
      }
    }
  }
}
