/**
 The size of a partial Merkle tree on the wire (src/merkleblock.h): its description gives a
 bound of 10 + ceil(32.25 * N) bytes for N hashes, and this says exactly when it holds.
 */
module MerkleSize {
  import opened Nat
  import opened Prelude
  import opened MerkleBlock

  /** The bytes of a length prefix. */
  function CompactSize(n: nat): nat {
    if n < 253 then 1 else if n <= 0xFFFF then 3 else if n <= 0xFFFF_FFFF then 5 else 9
  }

  /** The number of transactions, the hashes of 32 bytes, and the bits packed into bytes. */
  function WireSize(hashes: nat, bits: nat): nat {
    4 + CompactSize(hashes) + 32 * hashes + CompactSize((bits + 7) / 8) + (bits + 7) / 8
  }

  /** The promised bound, with ceil(32.25 * N) as the quotient of 129 * N by 4, rounded up. */
  function PromisedSize(hashes: nat): nat {
    10 + (129 * hashes + 3) / 4
  }

  /** The number of hashes, from the match bits alone. */
  function HashCount(matched: seq<bool>, height: nat, pos: nat): nat
    decreases height
  {
    if height == 0 || !Parent(matched, height, pos) then 1
    else
      HashCount(matched, height - 1, 2 * pos)
      + if HasRight(|matched|, height, pos) then HashCount(matched, height - 1, 2 * pos + 1) else 0
  }

  lemma {:induction false} HashCountIs<H>(h: (H, H) -> H, txids: seq<H>, matched: seq<bool>, height: nat, pos: nat)
    requires |matched| == |txids| && pos < Width(|txids|, height)
    ensures |BuildHashes(h, txids, matched, height, pos)| == HashCount(matched, height, pos)
    decreases height
  {
    hide Width, Parent, BuildHashes;
    if height > 0 && Parent(matched, height, pos) {
      BuildSplit(h, txids, matched, height, pos);
      HashCountIs(h, txids, matched, height - 1, 2 * pos);
      if HasRight(|txids|, height, pos) {
        HashCountIs(h, txids, matched, height - 1, 2 * pos + 1);
      }
    } else {
      BuildLeaf(h, txids, matched, height, pos);
    }
  }

  /** The bytes that hold the bits. */
  function FlagBytes(matched: seq<bool>, height: nat): nat {
    (2 * HashCount(matched, height, 0) + 6 + LonelyCount(matched, height)) / 8
  }

  lemma {:induction false} LeastHeight(n: nat, k: nat, height: nat)
    requires k <= height && Width(n, height) <= 1
    ensures HeightFrom(n, k) <= height
    decreases height - k
  {
    hide Width;
    if Width(n, k) > 1 {
      LeastHeight(n, k + 1, height);
    }
  }

  /** A block's tree has at most 15 levels above the transactions. */
  lemma LowTree(n: nat)
    requires n <= MAX_BLOCK_WEIGHT / MIN_TRANSACTION_WEIGHT
    ensures HeightFrom(n, 0) <= 15
  {
    Pow15();
    NodeExists(n, 15, 1);
    hide Width;
    LeastHeight(n, 0, 15);
  }

  lemma Pow15()
    ensures Pow2(15) == 32768 && Pow2(10) == 1024 && Pow2(11) == 2048
  {
    assert Pow2(5) == 32;
    assert Pow2(10) == 32 * Pow2(5);
    assert Pow2(15) == 32 * Pow2(10);
  }

  /** The arithmetic of the bound: the promise leaves six bytes for the two prefixes and none for more bits. */
  lemma SizeArith(n: nat, lonely: nat, bits: nat)
    requires 1 <= n <= 16666 && lonely <= 15 && bits + 1 == 2 * n + lonely
    ensures (bits + 7) / 8 == (2 * n + 6 + lonely) / 8
    ensures WireSize(n, bits) <= PromisedSize(n) <==> (2 * n + 6 + lonely) / 8 < 253 || (2 * n + 6) % 8 + lonely < 8
  {
    var b, c := (2 * n + 6 + lonely) / 8, (2 * n + 6) / 8;
    assert c <= b <= c + 2;
    assert b == c <==> (2 * n + 6) % 8 + lonely < 8;
    assert (129 * n + 3) / 4 == 32 * n + c;
    assert n < 253 ==> b < 253;
  }

  /**
   For every block the tree keeps to the promised size exactly when its bits take fewer than
   253 bytes, or the levels with a match under a node without a sibling fit into the last of them.
   */
  lemma SizeBound<H>(h: (H, H) -> H, txids: seq<H>, matched: seq<bool>)
    requires 0 < |txids| <= MAX_BLOCK_WEIGHT / MIN_TRANSACTION_WEIGHT && |matched| == |txids|
    ensures var height := HeightFrom(|txids|, 0);
            && Width(|txids|, height) == 1
            && var hashes, bits := |BuildHashes(h, txids, matched, height, 0)|, |BuildBits(matched, height, 0)|;
               WireSize(hashes, bits) <= PromisedSize(hashes) <==>
               FlagBytes(matched, height) < 253
               || (2 * HashCount(matched, height, 0) + 6) % 8 + LonelyCount(matched, height) < 8
  {
    hide Width, First, BuildBits, BuildHashes, HashCount, LonelyCount, HeightFrom, WireSize, PromisedSize;
    var n := |txids|;
    RootExists(n);
    var height := HeightFrom(n, 0);
    LowTree(n);
    HashCountIs(h, txids, matched, height, 0);
    BitsOfHashes(h, txids, matched, height, 0);
    SinglesAreLonely(matched, height, 0);
    AtMostAll(h, txids, matched, height);
    SizeArith(HashCount(matched, height, 0), LonelyCount(matched, height), |BuildBits(matched, height, 0)|);
  }

  lemma AtMostAll<H>(h: (H, H) -> H, txids: seq<H>, matched: seq<bool>, height: nat)
    requires |matched| == |txids| && Width(|txids|, height) == 1
    ensures |BuildHashes(h, txids, matched, height, 0)| <= |txids|
  {
    hide Width, BuildHashes;
    HashesByLeaves(h, txids, matched, height, 0);
  }

  // ----- a block that breaks the promise -----

  /** With everything matched each transaction has its own hash. */
  lemma {:induction false} AllMatched(matched: seq<bool>, height: nat, pos: nat)
    requires pos < Width(|matched|, height) && forall i :: 0 <= i < |matched| ==> matched[i]
    ensures HashCount(matched, height, pos) == Min(|matched|, First(height, pos + 1)) - First(height, pos)
    decreases height
  {
    hide Width, Pow2, First;
    NodeRange(|matched|, height, pos);
    assert matched[First(height, pos)];
    if height > 0 {
      ChildRanges(height, pos);
      Children(|matched|, height, pos);
      hide Parent, AnyMatch;
      AllMatched(matched, height - 1, 2 * pos);
      if HasRight(|matched|, height, pos) {
        AllMatched(matched, height - 1, 2 * pos + 1);
      }
    } else {
      FirstIs(pos);
    }
  }

  lemma FirstIs(pos: nat)
    ensures First(0, pos) == pos && First(0, pos + 1) == pos + 1
  {
  }

  /** With everything matched a level counts whenever its number of nodes is odd. */
  lemma LonelyOdd(matched: seq<bool>, k: nat)
    requires matched != [] && forall i :: 0 <= i < |matched| ==> matched[i]
    ensures Lonely(matched, k) <==> Width(|matched|, k) % 2 == 1
  {
    var w := Width(|matched|, k);
    if w % 2 == 1 {
      NodeExists(|matched|, k, w - 1);
      hide Width, Pow2;
      assert matched[First(k, w - 1)];
    }
  }

  /** 1025 transactions, all matched: 1025 hashes and 2059 bits make 33068 bytes, one more than promised. */
  lemma SizeFails<H>(h: (H, H) -> H, txids: seq<H>, matched: seq<bool>)
    requires |txids| == |matched| == 1025 && forall i :: 0 <= i < 1025 ==> matched[i]
    ensures var height := HeightFrom(1025, 0);
            && Width(1025, height) == 1 && height == 11
            && |BuildHashes(h, txids, matched, height, 0)| == 1025 && |BuildBits(matched, height, 0)| == 2059
            && WireSize(1025, 2059) == 33068 && PromisedSize(1025) == 33067
  {
    hide Width, First, Pow2, BuildBits, BuildHashes, HashCount, LonelyCount, HeightFrom;
    RootExists(1025);
    OddLevels(matched);
    HashCountIs(h, txids, matched, 11, 0);
    AllMatched(matched, 11, 0);
    BitsOfHashes(h, txids, matched, 11, 0);
    SinglesAreLonely(matched, 11, 0);
  }

  /** The widths of the levels of a tree over 1025 transactions, from the bottom. */
  lemma Widths()
    ensures forall k :: 0 <= k <= 9 ==> Width(1025, k) == 1024 / Pow2(k) + 1 && Width(1025, k) % 2 == 1 && Width(1025, k) > 1
    ensures Width(1025, 10) == 2 && Width(1025, 11) == 1 && First(11, 0) == 0 && First(11, 1) == 2048
  {
    Pow15();
    forall k | 0 <= k <= 9
      ensures Width(1025, k) == 1024 / Pow2(k) + 1 && Width(1025, k) % 2 == 1 && Width(1025, k) > 1
    {
      OneWidth(k);
    }
  }

  lemma OneWidth(k: nat)
    requires k <= 9
    ensures Width(1025, k) == 1024 / Pow2(k) + 1 && Width(1025, k) % 2 == 1 && Width(1025, k) > 1
  {
    SmallPowers();
    hide Pow2;
    var p := Pow2(k);
    assert p in [1, 2, 4, 8, 16, 32, 64, 128, 256, 512] by {
      assert k in [0, 1, 2, 3, 4, 5, 6, 7, 8, 9];
    }
  }

  lemma SmallPowers()
    ensures Pow2(0) == 1 && Pow2(1) == 2 && Pow2(2) == 4 && Pow2(3) == 8 && Pow2(4) == 16
    ensures Pow2(5) == 32 && Pow2(6) == 64 && Pow2(7) == 128 && Pow2(8) == 256 && Pow2(9) == 512
  {
    assert Pow2(4) == 16 && Pow2(7) == 128;
  }

  lemma OddLevels(matched: seq<bool>)
    requires |matched| == 1025 && forall i :: 0 <= i < 1025 ==> matched[i]
    ensures HeightFrom(1025, 0) == 11 && LonelyCount(matched, 11) == 10 && First(11, 0) == 0 && First(11, 1) == 2048
  {
    Widths();
    hide Width, Pow2, Lonely;
    forall k | 0 <= k <= 10
      ensures Lonely(matched, k) <==> k <= 9
    {
      LonelyOdd(matched, k);
    }
    CountTo(matched, 10);
    HeightIs(1025, 0, 11);
  }

  lemma {:induction false} CountTo(matched: seq<bool>, n: nat)
    requires forall k :: 0 <= k < n ==> Lonely(matched, k)
    ensures LonelyCount(matched, n) == n
  {
    hide Lonely;
    if n > 0 {
      CountTo(matched, n - 1);
    }
  }

  lemma {:induction false} HeightIs(n: nat, k: nat, height: nat)
    requires k <= height && Width(n, height) <= 1 && forall j :: k <= j < height ==> Width(n, j) > 1
    ensures HeightFrom(n, k) == height
    decreases height - k
  {
    hide Width;
    if k < height {
      HeightIs(n, k + 1, height);
    }
  }
}
