/**
 The Merkle root row by row (src/consensus/merkle.cpp describes the tree): hashes are joined
 in pairs, the last of an odd row with itself, until one is left.  The root of a partial
 tree (src/merkleblock.cpp) is this one.
 */
module MerkleRoot {
  import opened Nat
  import opened Prelude
  import opened MerkleBlock

  /** The row above: pairs of neighbours, the last one of an odd row twice. */
  function NextRow<H>(h: (H, H) -> H, row: seq<H>): (r: seq<H>)
    ensures |r| == (|row| + 1) / 2
  {
    seq((|row| + 1) / 2, i requires 0 <= i < (|row| + 1) / 2 =>
      h(row[2 * i], if 2 * i + 1 < |row| then row[2 * i + 1] else row[2 * i]))
  }

  function Root<H>(h: (H, H) -> H, row: seq<H>): H
    requires row != []
    decreases |row|
  {
    if |row| == 1 then row[0] else Root(h, NextRow(h, row))
  }

  function Row<H>(h: (H, H) -> H, txids: seq<H>, k: nat): seq<H> {
    if k == 0 then txids else NextRow(h, Row(h, txids, k - 1))
  }

  /** Each level has half as many nodes as the one below, rounded up. */
  lemma WidthHalves(n: nat, k: nat)
    ensures Width(n, k + 1) == (Width(n, k) + 1) / 2
  {
    var w, v := Width(n, k), Width(n, k + 1);
    if v > 0 {
      WidthAt(n, k, v);
    }
    WidthAbove(n, k, v);
    if v == 0 {
      NodeExists(n, k + 1, 0);
      NodeExists(n, k, 0);
      FirstZero(k);
      FirstZero(k + 1);
    }
  }

  lemma FirstZero(k: nat)
    ensures First(k, 0) == 0
  {
  }

  lemma WidthAt(n: nat, k: nat, v: nat)
    requires v > 0 && v == Width(n, k + 1)
    ensures 2 * (v - 1) < Width(n, k)
  {
    hide Width, Pow2;
    NodeExists(n, k + 1, v - 1);
    ChildRanges(k + 1, v - 1);
    NodeExists(n, k, 2 * (v - 1));
  }

  lemma WidthAbove(n: nat, k: nat, v: nat)
    requires v == Width(n, k + 1)
    ensures Width(n, k) <= 2 * v
  {
    hide Width, Pow2;
    NodeExists(n, k + 1, v);
    ChildRanges(k + 1, v);
    NodeExists(n, k, 2 * v);
  }

  /** A row holds the hashes of the nodes at its height. */
  ghost predicate RowHolds<H>(h: (H, H) -> H, txids: seq<H>, k: nat, row: seq<H>) {
    |row| == Width(|txids|, k) && forall pos :: 0 <= pos < |row| ==> row[pos] == CalcHash(h, txids, k, pos)
  }

  lemma {:induction false} RowIs<H>(h: (H, H) -> H, txids: seq<H>, k: nat)
    ensures RowHolds(h, txids, k, Row(h, txids, k))
  {
    if k == 0 {
      BottomRow(h, txids);
    } else {
      RowIs(h, txids, k - 1);
      RowUp(h, txids, k, Row(h, txids, k - 1));
    }
  }

  lemma BottomRow<H>(h: (H, H) -> H, txids: seq<H>)
    ensures RowHolds(h, txids, 0, txids)
  {
  }

  lemma RowUp<H>(h: (H, H) -> H, txids: seq<H>, k: nat, row: seq<H>)
    requires k > 0 && RowHolds(h, txids, k - 1, row)
    ensures RowHolds(h, txids, k, NextRow(h, row))
  {
    hide Width, CalcHash;
    WidthHalves(|txids|, k - 1);
    var up := NextRow(h, row);
    forall pos | 0 <= pos < |up|
      ensures up[pos] == CalcHash(h, txids, k, pos)
    {
      Children(|txids|, k, pos);
      NodeSplit(h, txids, k, pos);
    }
  }

  lemma NodeSplit<H>(h: (H, H) -> H, txids: seq<H>, k: nat, pos: nat)
    requires k > 0 && pos < Width(|txids|, k) && 2 * pos < Width(|txids|, k - 1)
    ensures var right := 2 * pos + 1 < Width(|txids|, k - 1);
            CalcHash(h, txids, k, pos)
            == h(CalcHash(h, txids, k - 1, 2 * pos), CalcHash(h, txids, k - 1, if right then 2 * pos + 1 else 2 * pos))
  {
    hide Width;
    RightExists(|txids|, k, pos);
  }

  lemma {:induction false} RootFrom<H>(h: (H, H) -> H, txids: seq<H>, k: nat, height: nat)
    requires k <= height && Width(|txids|, height) == 1 && txids != []
    requires forall j :: k <= j < height ==> Width(|txids|, j) > 1
    ensures Row(h, txids, k) != [] && Root(h, Row(h, txids, k)) == CalcHash(h, txids, height, 0)
    decreases height - k
  {
    hide Width, CalcHash;
    RowIs(h, txids, k);
    if k < height {
      RootFrom(h, txids, k + 1, height);
    }
  }

  lemma {:induction false} LeastSoFar(n: nat, k: nat, j: nat)
    requires k <= j < HeightFrom(n, k)
    ensures Width(n, j) > 1
    decreases j - k
  {
    hide Width;
    if k < j {
      LeastSoFar(n, k + 1, j);
    }
  }

  /** The hash at the top of the tree is the root obtained row by row. */
  lemma RootIs<H>(h: (H, H) -> H, txids: seq<H>)
    requires txids != []
    ensures Width(|txids|, HeightFrom(|txids|, 0)) == 1
    ensures CalcHash(h, txids, HeightFrom(|txids|, 0), 0) == Root(h, txids)
  {
    hide Width, CalcHash, HeightFrom, First;
    var n := |txids|;
    RootExists(n);
    forall j | 0 <= j < HeightFrom(n, 0)
      ensures Width(n, j) > 1
    {
      LeastSoFar(n, 0, j);
    }
    RootFrom(h, txids, 0, HeightFrom(n, 0));
  }

  /** A root is only given for a plausible message whose hashes and bits are all consumed. */
  lemma NothingLeftOver<H>(h: (H, H) -> H, zero: H, n: nat, vBits: seq<bool>, vHash: seq<H>)
    requires ExtractRoot(h, zero, n, vBits, vHash) != zero
    ensures 0 < n <= 4000000 / 240 && |vHash| <= n && |vHash| <= |vBits|
    ensures var r := Extract(h, zero, n, vBits, vHash, HeightFrom(n, 0), 0, 0, 0);
            !r.bad && r.hashes == |vHash| && 8 * ((r.bits + 7) / 8) >= |vBits| > 8 * ((r.bits + 7) / 8) - 8
  {
    hide Extract, HeightFrom;
  }

  /**
   The whole exchange against this root: it is what a client obtains, with exactly the matched
   transactions, when all ids differ and the hash has no collisions.
   */
  lemma RoundTripRoot<H(!new)>(h: (H, H) -> H, zero: H, txids: seq<H>, matched: seq<bool>)
    requires 0 < |txids| <= MAX_BLOCK_WEIGHT / MIN_TRANSACTION_WEIGHT && |matched| == |txids|
    requires Injective(h) && AllDistinct(txids)
    ensures Width(|txids|, HeightFrom(|txids|, 0)) == 1
    ensures var height := HeightFrom(|txids|, 0);
            var bits, hashes := BuildBits(matched, height, 0), BuildHashes(h, txids, matched, height, 0);
            && ExtractRoot(h, zero, |txids|, Padded(bits), hashes) == Root(h, txids)
            && ExtractFound(h, zero, |txids|, Padded(bits), hashes) == MatchedIn(txids, matched, 0, |txids|)
  {
    hide Width, BuildBits, BuildHashes, HeightFrom, MatchedIn, ExtractRoot, ExtractFound, Injective, CalcHash, AllDistinct, Padded, Root;
    RootIs(h, txids);
    RoundTripSucceeds(h, zero, txids, matched);
  }
}
