/**
 The block index with its skip links, and the active chain (src/chain.h, src/chain.cpp).
 Parent links and heights are fixed when a block enters the index; skip links are set later.
 */
module Chain {
  import opened Prelude
  import opened Nat

  // ----- skip heights -----

  /** Bitwise and of two non-negative numbers. */
  function And(x: nat, y: nat): (r: nat)
    ensures r <= x && r <= y
  {
    if x == 0 || y == 0 then 0
    else (if x % 2 == 1 && y % 2 == 1 then 1 else 0) + 2 * And(x / 2, y / 2)
  }

  function InvertLowestOne(n: nat): (r: nat)
    ensures r < n || r == n == 0
  {
    if n == 0 then 0 else And(n, n - 1)
  }

  /** A skip link never leads to the block itself. */
  function GetSkipHeight(height: nat): (r: nat)
    ensures height > 0 ==> r < height
    ensures height == 0 ==> r == 0
  {
    if height < 2 then 0
    else if height % 2 == 1 then InvertLowestOne(InvertLowestOne(height - 1)) + 1
    else InvertLowestOne(height)
  }

  // ----- how many steps skip links take -----

  /** The number of binary digits. */
  function Digits(n: nat): nat {
    if n == 0 then 0 else 1 + Digits(n / 2)
  }

  /** The number of ones among them. */
  function Ones(n: nat): nat {
    if n == 0 then 0 else n % 2 + Ones(n / 2)
  }

  /** How many low digits must go before two numbers agree. */
  function Apart(w: nat, t: nat): nat
    decreases w + t
  {
    if w == t then 0 else 1 + Apart(w / 2, t / 2)
  }

  lemma {:induction false} OnesFit(n: nat)
    ensures Ones(n) <= Digits(n) && (n > 0 ==> Ones(n) >= 1)
  {
    if n > 0 {
      OnesFit(n / 2);
    }
  }

  lemma {:induction false} DigitsGrow(m: nat, n: nat)
    requires m <= n
    ensures Digits(m) <= Digits(n)
  {
    if m > 0 {
      DigitsGrow(m / 2, n / 2);
    }
  }

  lemma {:induction false} ApartFits(w: nat, t: nat)
    requires t <= w
    ensures Apart(w, t) <= Digits(w)
  {
    if w != t {
      ApartFits(w / 2, t / 2);
    }
  }

  /** Coming closer from above never makes more digits differ. */
  lemma {:induction false} ApartBetween(w: nat, v: nat, t: nat)
    requires t <= v <= w
    ensures Apart(v, t) <= Apart(w, t)
  {
    if v != t {
      ApartBetween(w / 2, v / 2, t / 2);
    }
  }

  lemma {:induction false} AndSelf(n: nat)
    ensures And(n, n) == n
  {
    if n > 0 {
      AndSelf(n / 2);
    }
  }

  /** Clearing the lowest one, digit by digit. */
  lemma InvertIs(n: nat)
    requires n > 0
    ensures InvertLowestOne(n) == if n % 2 == 1 then n - 1 else 2 * InvertLowestOne(n / 2)
  {
    AndSelf(n / 2);
    if n % 2 == 1 {
      assert (n - 1) / 2 == n / 2;
    } else {
      assert (n - 1) / 2 == n / 2 - 1;
    }
  }

  lemma {:induction false} InvertOnes(n: nat)
    requires n > 0
    ensures Ones(InvertLowestOne(n)) == Ones(n) - 1
    ensures n % 2 == 0 ==> InvertLowestOne(n) % 2 == 0
  {
    hide InvertLowestOne;
    InvertIs(n);
    if n % 2 == 0 {
      InvertOnes(n / 2);
      DoubleOnes(InvertLowestOne(n / 2));
    } else {
      DoubleOnes(n / 2);
    }
  }

  lemma DoubleOnes(n: nat)
    ensures Ones(2 * n) == Ones(n) && Ones(2 * n + 1) == Ones(n) + 1
  {
  }

  /** A skip link drops at least one of the ones. */
  lemma SkipOnes(w: nat)
    requires w > 0
    ensures Ones(GetSkipHeight(w)) < Ones(w)
  {
    hide InvertLowestOne;
    OnesFit(w);
    if w >= 2 && w % 2 == 0 {
      InvertOnes(w);
    } else if w >= 2 {
      DoubleOnes(w / 2);
      TwiceOnes(w - 1);
    }
  }

  /** Clearing two ones of an even number and adding one. */
  lemma TwiceOnes(m: nat)
    requires m > 0 && m % 2 == 0
    ensures var r := InvertLowestOne(InvertLowestOne(m));
            Ones(r + 1) == (if Ones(m) >= 2 then Ones(m) - 1 else 1) && Ones(m) >= 1
  {
    hide InvertLowestOne;
    OnesFit(m);
    InvertOnes(m);
    var c := InvertLowestOne(m);
    OnesFit(c);
    if c > 0 {
      InvertOnes(c);
      DoubleOnes(InvertLowestOne(c) / 2);
    } else {
      assert InvertLowestOne(0) == 0 by { InvertZero(); }
      DoubleOnes(0);
    }
  }

  lemma InvertZero()
    ensures InvertLowestOne(0) == 0
  {
  }

  /** When clearing the lowest one goes too far, one step down fixes a digit for good. */
  lemma {:induction false} StepDownAgrees(w: nat, t: nat)
    requires w > 0 && InvertLowestOne(w) <= t < w
    ensures Apart(w - 1, t) < Apart(w, t)
  {
    hide InvertLowestOne;
    InvertIs(w);
    if w % 2 == 0 {
      assert (w - 1) / 2 == w / 2 - 1;
      StepDownAgrees(w / 2, t / 2);
    }
  }

  /** The skip link of the block below is better only where it saves ones as well. */
  lemma DetourOnes(w: nat)
    requires w >= 2 && w % 2 == 0 && InvertLowestOne(w) > 0
    requires GetSkipHeight(w - 1) < InvertLowestOne(w) - 2
    ensures Ones(GetSkipHeight(w - 1)) < Ones(w)
  {
    hide InvertLowestOne, Ones, GetSkipHeight;
    var x := w / 2;
    if x % 4 == 0 {
      assert w == 8 * (x / 4);
      FarApart(x / 4);
    } else {
      DetourSaves(x);
    }
  }

  /** One less has no more ones, unless two zeros end the number. */
  lemma OnesBelow(x: nat)
    requires x % 4 != 0
    ensures Ones(x - 1) <= Ones(x)
  {
    hide Ones;
    var a := x / 2;
    DoubleOnes(a);
    if x % 2 == 0 {
      var b := a / 2;
      assert x == 2 * (2 * b + 1) && x - 1 == 2 * (2 * b) + 1;
      DoubleOnes(2 * b);
      DoubleOnes(b);
    } else {
      assert x == 2 * a + 1;
    }
  }

  lemma DetourSaves(x: nat)
    requires x >= 2 && x % 4 != 0 && InvertLowestOne(2 * x) > 0
    ensures Ones(GetSkipHeight(2 * x - 1)) < Ones(2 * x)
  {
    hide InvertLowestOne, Ones, GetSkipHeight;
    InvertOnes(2 * x);
    OnesFit(InvertLowestOne(2 * x));
    OnesBelow(x);
    DoubleOnes(x);
    DoubleOnes(x - 1);
    TwiceOnes(2 * (x - 1));
    OddSkip(x - 1);
  }

  lemma OddSkip(x: nat)
    requires x > 0
    ensures GetSkipHeight(2 * x + 1) == InvertLowestOne(InvertLowestOne(2 * x)) + 1
  {
    hide InvertLowestOne;
  }

  /** Below a multiple of eight the detour falls short. */
  lemma FarApart(y: nat)
    requires y > 0
    ensures GetSkipHeight(8 * y - 1) > InvertLowestOne(8 * y)
  {
    hide InvertLowestOne;
    var w := 8 * y;
    InvertHalves(4 * y);
    InvertHalves(2 * y);
    InvertHalves(y);
    assert w - 2 == 2 * (2 * (2 * y - 1) + 1);
    InvertHalves(2 * (2 * y - 1) + 1);
    InvertHalves(2 * y - 1);
    assert InvertLowestOne(w - 2) == 2 * (2 * (2 * y - 1));
    InvertHalves(2 * (2 * y - 1));
    InvertHalves(y - 1);
    assert 2 * y - 1 == 2 * (y - 1) + 1;
    assert InvertLowestOne(w) == 8 * InvertLowestOne(y);
  }

  lemma InvertHalves(n: nat)
    ensures InvertLowestOne(2 * n) == 2 * InvertLowestOne(n) && InvertLowestOne(2 * n + 1) == 2 * n
    ensures InvertLowestOne(n) < n || n == 0
  {
    hide InvertLowestOne;
    InvertIs(2 * n + 1);
    if n > 0 {
      InvertIs(2 * n);
    } else {
      InvertZero();
    }
  }

  /** The height the walk from `w` down to `t` goes to next, when all skip links are set. */
  function NextHeight(w: nat, t: nat): (r: nat)
    requires t < w
    ensures t <= r < w
  {
    var skip, skipPrev := GetSkipHeight(w), GetSkipHeight(w - 1);
    if skip == t || (skip > t && !(skipPrev < skip - 2 && skipPrev >= t)) then skip else w - 1
  }

  function StepsDown(w: nat, t: nat): nat
    requires t <= w
    decreases w
  {
    if w == t then 0 else 1 + StepsDown(NextHeight(w, t), t)
  }

  lemma ProductGrows(k: nat, a: nat, b: nat)
    requires a <= b
    ensures k * a <= k * b
    ensures a < b ==> k * a + k <= k * b
  {
    ProductApart(k, a, b - a);
  }

  lemma ProductApart(k: nat, a: nat, d: nat)
    ensures k * (a + d) == k * a + k * d && k * d >= 0 && (d >= 1 ==> k * d >= k)
  {
    if d >= 1 {
      assert k * d == k + k * (d - 1);
    }
  }

  /** What one turn of the walk, or two, does to the ones and to the digits that differ. */
  lemma WalkTurn(w: nat, t: nat)
    requires t < w
    ensures var n := NextHeight(w, t);
            || (Ones(n) < Ones(w) && Apart(n, t) <= Apart(w, t))
            || (n == w - 1 && Apart(n, t) < Apart(w, t))
            || (t < n && var m := NextHeight(n, t); Ones(m) < Ones(w) && Apart(m, t) <= Apart(w, t))
  {
    hide InvertLowestOne, Ones, Apart;
    var n := NextHeight(w, t);
    ApartBetween(w, n, t);
    SkipOnes(w);
    if n == w - 1 && n != GetSkipHeight(w) {
      if w % 2 == 1 {
        OddStep(w);
      } else if GetSkipHeight(w) < t {
        StepDownAgrees(w, t);
      } else {
        OddSkips(w, t);
        DetourOnes(w);
        ApartBetween(w, NextHeight(n, t), t);
      }
    }
  }

  lemma OddStep(w: nat)
    requires w % 2 == 1
    ensures Ones(w - 1) < Ones(w)
  {
    DoubleOnes(w / 2);
  }

  /** An odd height below takes its skip link whenever it does not go too far. */
  lemma OddSkips(w: nat, t: nat)
    requires w % 2 == 0 && w >= 2 && GetSkipHeight(w) > t
    requires GetSkipHeight(w - 1) < GetSkipHeight(w) - 2 && GetSkipHeight(w - 1) >= t
    ensures t < w - 1 && NextHeight(w - 1, t) == GetSkipHeight(w - 1)
  {
    hide InvertLowestOne;
    var s := GetSkipHeight(w - 1);
    if w - 1 >= 2 {
      assert GetSkipHeight(w - 2) == InvertLowestOne(w - 2);
    }
  }

  lemma {:induction false} StepsBound(w: nat, t: nat, k: nat)
    requires t <= w && Digits(w) <= k
    ensures StepsDown(w, t) <= (2 * k + 2) * Apart(w, t) + 2 * Ones(w)
    decreases w
  {
    hide Ones, Digits, Apart, NextHeight;
    if t < w {
      var n := NextHeight(w, t);
      WalkTurn(w, t);
      DigitsGrow(n, w);
      OnesFit(n);
      StepsBound(n, t, k);
      ProductGrows(2 * k + 2, if Apart(n, t) <= Apart(w, t) then Apart(n, t) else 0, Apart(w, t));
      if t < n {
        var m := NextHeight(n, t);
        DigitsGrow(m, w);
        StepsBound(m, t, k);
        ProductGrows(2 * k + 2, if Apart(m, t) <= Apart(w, t) then Apart(m, t) else 0, Apart(w, t));
      }
    }
  }

  /** The walk along skip links takes a number of steps quadratic in the number of digits of the height. */
  lemma FewSteps(w: nat, t: nat)
    requires t <= w
    ensures StepsDown(w, t) <= 2 * Digits(w) * (Digits(w) + 2)
  {
    hide StepsDown, Digits, Ones, Apart;
    var k := Digits(w);
    StepsBound(w, t, k);
    ApartFits(w, t);
    OnesFit(w);
    ProductGrows(2 * k + 2, Apart(w, t), k);
    assert (2 * k + 2) * k + 2 * k == 2 * k * (k + 2);
  }

  // ----- block index -----

  class BlockIndex {
    const nHeight: nat
    const pprev: BlockIndex?
    var pskip: BlockIndex?

    /** A block on top of another, or the first of a chain. */
    constructor (prev: BlockIndex?)
      requires prev != null ==> Rooted(prev)
      ensures Rooted(this) && pprev == prev && pskip == null
    {
      pprev := prev;
      nHeight := if prev == null then 0 else prev.nHeight + 1;
      pskip := null;
    }

    /** The ancestor at a height, or null when there is none; few steps where skip links are set. */
    method GetAncestor(height: int, ghost tree: set<BlockIndex>) returns (r: BlockIndex?, ghost steps: nat)
      requires this in tree && Skips(tree)
      ensures r == if 0 <= height <= nHeight then Ancestor(this, height) else null
      ensures Linked(tree) ==> steps <= 2 * Digits(nHeight) * (Digits(nHeight) + 2)
    {
      hide Rooted, Ancestor, Skips, GetSkipHeight, Digits, StepsDown;
      InTree(this, tree);
      steps := 0;
      if height > nHeight || height < 0 {
        assert 2 * Digits(nHeight) * (Digits(nHeight) + 2) >= 0;
        return null, steps;
      }
      AncestorSelf(this);
      FewSteps(nHeight, height);
      var walk, heightWalk := this, nHeight;
      while heightWalk > height
        invariant height <= heightWalk <= nHeight && walk in tree
        invariant walk == Ancestor(this, heightWalk) && walk.nHeight == heightWalk
        invariant Linked(tree) ==> steps + StepsDown(heightWalk, height) == StepsDown(nHeight, height)
      {
        InTree(walk, tree);
        StepsNext(heightWalk, height);
        steps := steps + 1;
        ParentOf(this, heightWalk);
        var heightSkip := GetSkipHeight(heightWalk);
        var heightSkipPrev := GetSkipHeight(heightWalk - 1);
        if walk.pskip != null
           && (heightSkip == height || (heightSkip > height && !(heightSkipPrev < heightSkip - 2 && heightSkipPrev >= height))) {
          AncestorTwice(this, heightWalk, heightSkip);
          AncestorIn(walk, heightSkip, tree);
          walk := walk.pskip;
          heightWalk := heightSkip;
        } else {
          assert walk.pprev != null;
          walk := walk.pprev;
          heightWalk := heightWalk - 1;
        }
      }
      r := walk;
    }

    lemma StepsNext(w: nat, t: nat)
      requires t < w
      ensures StepsDown(w, t) == 1 + StepsDown(NextHeight(w, t), t)
    {
    }

    /** Sets the skip link to the ancestor at the skip height. */
    method BuildSkip(ghost tree: set<BlockIndex>)
      requires Rooted(this) && (pprev != null ==> pprev in tree) && Skips(tree)
      modifies this`pskip
      ensures pprev != null ==> pskip == Ancestor(this, GetSkipHeight(nHeight))
      ensures pprev == null ==> pskip == old(pskip)
    {
      if pprev != null {
        ghost var steps;
        pskip, steps := pprev.GetAncestor(GetSkipHeight(nHeight), tree);
      }
    }
  }

  /** Heights count the parent links down to a block without a parent. */
  ghost predicate Rooted(b: BlockIndex)
    decreases b.nHeight
  {
    if b.pprev == null then b.nHeight == 0 else b.nHeight == b.pprev.nHeight + 1 && Rooted(b.pprev)
  }

  /** The plain walk along parents. */
  ghost function Ancestor(b: BlockIndex, h: nat): (r: BlockIndex)
    requires Rooted(b) && h <= b.nHeight
    ensures Rooted(r) && r.nHeight == h
    decreases b.nHeight
  {
    if h == b.nHeight then b else Ancestor(b.pprev, h)
  }

  lemma {:induction false} AncestorTwice(b: BlockIndex, h: nat, k: nat)
    requires Rooted(b) && k <= h <= b.nHeight
    ensures Ancestor(Ancestor(b, h), k) == Ancestor(b, k)
    decreases b.nHeight
  {
    if h < b.nHeight {
      AncestorTwice(b.pprev, h, k);
    }
  }

  /** A set of blocks closed under parents whose skip links, where set, agree with the walk. */
  ghost predicate Skips(tree: set<BlockIndex>)
    reads tree
  {
    forall b :: b in tree ==>
      && Rooted(b) && (b.pprev != null ==> b.pprev in tree)
      && (b.pskip != null ==> b.nHeight > 0 && b.pskip == Ancestor(b, GetSkipHeight(b.nHeight)))
  }

  lemma InTree(b: BlockIndex, tree: set<BlockIndex>)
    requires Skips(tree) && b in tree
    ensures Rooted(b) && (b.pprev != null ==> b.pprev in tree && b.nHeight > 0)
    ensures b.pskip != null ==> b.nHeight > 0 && b.pskip == Ancestor(b, GetSkipHeight(b.nHeight))
  {
  }

  lemma AncestorSelf(b: BlockIndex)
    requires Rooted(b)
    ensures Ancestor(b, b.nHeight) == b
  {
  }

  lemma {:induction false} AncestorIn(b: BlockIndex, h: nat, tree: set<BlockIndex>)
    requires Skips(tree) && b in tree && h <= b.nHeight
    ensures Ancestor(b, h) in tree
    decreases b.nHeight
  {
    if h < b.nHeight {
      AncestorIn(b.pprev, h, tree);
    }
  }

  /** Every block but a root has its skip link. */
  ghost predicate Linked(blocks: set<BlockIndex>)
    reads blocks
  {
    Skips(blocks) && forall b :: b in blocks ==> (b.pskip == null <==> b.pprev == null)
  }

  method NewBlock(prev: BlockIndex?, ghost blocks: set<BlockIndex>) returns (b: BlockIndex)
    requires Linked(blocks) && (prev != null ==> prev in blocks)
    ensures fresh(b) && b.pprev == prev && Linked(blocks + {b})
  {
    b := new BlockIndex(prev);
    b.BuildSkip(blocks);
  }

  lemma ValuesPlus<K, V>(m: map<K, V>, k: K, v: V)
    requires k !in m
    ensures m[k := v].Values == m.Values + {v}
  {
    forall w | w in m.Values
      ensures w in m[k := v].Values
    {
      var j :| j in m && m[j] == w;
      assert j in m[k := v] && m[k := v][j] == w;
    }
    assert m[k := v][k] == v;
  }

  /** The index: every block that enters it gets its skip link. */
  class BlockTree {
    var mapBlockIndex: map<nat, BlockIndex>

    ghost predicate Valid()
      reads this, mapBlockIndex.Values
    {
      Linked(mapBlockIndex.Values)
    }

    constructor ()
      ensures Valid() && mapBlockIndex == map[]
    {
      mapBlockIndex := map[];
    }

    /** A block already known is returned as it is; no block is its own parent. */
    method AddToBlockIndex(hash: nat, hashPrevBlock: nat) returns (b: BlockIndex)
      requires Valid() && hash != hashPrevBlock
      modifies this
      ensures Valid() && hash in mapBlockIndex && mapBlockIndex[hash] == b
      ensures hash in old(mapBlockIndex) ==> mapBlockIndex == old(mapBlockIndex)
      ensures hash !in old(mapBlockIndex) ==>
                && fresh(b) && mapBlockIndex == old(mapBlockIndex)[hash := b]
                && b.pprev == if hashPrevBlock in old(mapBlockIndex) then old(mapBlockIndex)[hashPrevBlock] else null
    {
      if hash in mapBlockIndex {
        return mapBlockIndex[hash];
      }
      var prev := if hashPrevBlock in mapBlockIndex then mapBlockIndex[hashPrevBlock] else null;
      hide Linked;
      b := NewBlock(prev, mapBlockIndex.Values);
      ValuesPlus(mapBlockIndex, hash, b);
      mapBlockIndex := mapBlockIndex[hash := b];
    }
  }

  // ----- the active chain -----

  /** The branch from the root up to a block, by height. */
  ghost predicate IsBranch(chain: seq<BlockIndex?>, tip: BlockIndex) {
    && Rooted(tip) && |chain| == tip.nHeight + 1
    && forall i :: 0 <= i < |chain| ==> chain[i] == Ancestor(tip, i)
  }

  /** Two branches that meet at a height agree below it. */
  lemma BranchesMeet(a: BlockIndex, b: BlockIndex, h: nat, k: nat)
    requires Rooted(a) && Rooted(b) && k <= h && h <= a.nHeight && h <= b.nHeight && Ancestor(a, h) == Ancestor(b, h)
    ensures Ancestor(a, k) == Ancestor(b, k)
  {
    AncestorTwice(a, h, k);
    AncestorTwice(b, h, k);
  }

  /** The parent of the ancestor at a height is the ancestor one below. */
  lemma ParentOf(b: BlockIndex, h: nat)
    requires Rooted(b) && h <= b.nHeight
    ensures Ancestor(b, h).pprev == if h == 0 then null else Ancestor(b, h - 1)
  {
    if h > 0 {
      AncestorTwice(b, h, h - 1);
    }
  }

  class CChain {
    var vChain: seq<BlockIndex?>

    /** Empty, or the whole branch of its last block. */
    ghost predicate Valid()
      reads this
    {
      vChain != [] ==> vChain[|vChain| - 1] != null && IsBranch(vChain, vChain[|vChain| - 1])
    }

    constructor ()
      ensures Valid() && vChain == []
    {
      vChain := [];
    }

    function Height(): int
      reads this
    {
      |vChain| - 1
    }

    function At(nHeight: int): BlockIndex?
      reads this
    {
      if nHeight < 0 || nHeight >= |vChain| then null else vChain[nHeight]
    }

    predicate Contains(pindex: BlockIndex)
      reads this
    {
      At(pindex.nHeight) == pindex
    }

    function Next(pindex: BlockIndex): BlockIndex?
      reads this
    {
      if Contains(pindex) then At(pindex.nHeight + 1) else null
    }

    /** The successor in the chain is a child, and only the tip has none. */
    lemma NextIsChild(pindex: BlockIndex)
      requires Valid()
      ensures Next(pindex) != null ==> Contains(pindex) && Next(pindex).pprev == pindex && Contains(Next(pindex))
      ensures Contains(pindex) && Next(pindex) == null ==> pindex.nHeight == Height()
    {
      if Contains(pindex) && pindex.nHeight + 1 < |vChain| {
        ParentOf(vChain[|vChain| - 1], pindex.nHeight + 1);
      }
    }

    /** A block of the chain heads the lower part of it. */
    lemma Below(h: nat, k: nat)
      requires Valid() && k <= h < |vChain|
      ensures vChain[h] != null && Rooted(vChain[h]) && vChain[h].nHeight == h && vChain[k] == Ancestor(vChain[h], k)
    {
      AncestorTwice(vChain[|vChain| - 1], h, k);
    }

    /** Although it stops at the first block already in place, all of the tip's branch is there. */
    method SetTip(pindex: BlockIndex?)
      requires Valid() && (pindex != null ==> Rooted(pindex))
      modifies this
      ensures Valid()
      ensures pindex == null ==> vChain == []
      ensures pindex != null ==> IsBranch(vChain, pindex)
    {
      hide Rooted, Ancestor;
      if pindex == null {
        vChain := [];
        return;
      }
      AncestorSelf(pindex);
      ghost var was := vChain;
      var n := pindex.nHeight + 1;
      vChain := if n <= |vChain| then vChain[..n] else vChain + seq(n - |vChain|, _ => null);
      ghost var resized := vChain;
      var p: BlockIndex? := pindex;
      ghost var done := n;
      while p != null && vChain[p.nHeight] != p
        invariant |vChain| == n && 0 <= done <= n
        invariant if done == 0 then p == null else p == Ancestor(pindex, done - 1)
        invariant forall i :: done <= i < n ==> vChain[i] == Ancestor(pindex, i)
        invariant forall i :: 0 <= i < done ==> vChain[i] == resized[i]
        decreases done
      {
        ParentOf(pindex, done - 1);
        vChain := vChain[p.nHeight := p];
        p := p.pprev;
        done := done - 1;
      }
      if p != null {
        AlreadyThere(was, resized, pindex, p);
      }
    }

    /** The highest block of a branch that the chain contains. */
    method FindFork(pindex: BlockIndex?, ghost tree: set<BlockIndex>) returns (r: BlockIndex?)
      requires Valid() && Skips(tree) && (pindex != null ==> pindex in tree)
      ensures r != null ==> pindex != null && r.nHeight <= pindex.nHeight && r == Ancestor(pindex, r.nHeight) && Contains(r)
      ensures pindex != null ==>
                forall h :: 0 <= h <= pindex.nHeight && h < |vChain| ==>
                  (vChain[h] == Ancestor(pindex, h) <==> r != null && h <= r.nHeight)
    {
      hide Rooted, Ancestor, Skips, IsBranch;
      if pindex == null {
        return null;
      }
      InTree(pindex, tree);
      AncestorSelf(pindex);
      var p: BlockIndex? := pindex;
      if p.nHeight > Height() {
        ghost var steps;
        p, steps := p.GetAncestor(Height(), tree);
      }
      ghost var next := if p == null then 0 else p.nHeight + 1;
      while p != null && !Contains(p)
        invariant 0 <= next <= |vChain| && next <= pindex.nHeight + 1
        invariant if next == 0 then p == null else p == Ancestor(pindex, next - 1)
        invariant forall h :: next <= h <= pindex.nHeight && h < |vChain| ==> vChain[h] != Ancestor(pindex, h)
        decreases next
      {
        ParentOf(pindex, next - 1);
        p := p.pprev;
        next := next - 1;
      }
      r := p;
      if r != null {
        forall h | 0 <= h <= r.nHeight
          ensures vChain[h] == Ancestor(pindex, h)
        {
          Below(r.nHeight, h);
          AncestorTwice(pindex, r.nHeight, h);
        }
      }
    }

    /**
     The locator: ancestors of the block in descending height down to the root, the first
     twelve without a gap and then in steps that double, so that there are few of them.
     */
    method GetLocator(pindex: BlockIndex?, ghost tree: set<BlockIndex>) returns (vHave: seq<BlockIndex>)
      requires Valid() && Skips(tree) && (pindex != null ==> pindex in tree)
      requires forall i :: 0 <= i < |vChain| ==> vChain[i] in tree
      ensures var start := if pindex == null then At(Height()) else pindex;
              if start == null then vHave == []
              else
                && Rooted(start) && Descends(vHave, start) && Doubling(vHave, start.nHeight) && vHave != []
                && vHave[0] == start && vHave[|vHave| - 1].nHeight == 0
                && (|vHave| >= 13 ==> Pow2(|vHave| - 12) + 9 < start.nHeight)
    {
      hide Rooted, Ancestor, Skips, IsBranch, Stepping, Doubling, Pow2;
      vHave := [];
      var nStep := 1;
      var start := if pindex == null then At(Height()) else pindex;
      if start == null {
        return;
      }
      InTree(start, tree);
      AncestorSelf(start);
      var p := start;
      FirstStep(start.nHeight);
      while true
        invariant p in tree && p.nHeight <= start.nHeight && p == Ancestor(start, p.nHeight)
        invariant Descends(vHave, start) && (vHave != [] ==> vHave[0] == start && p.nHeight < vHave[|vHave| - 1].nHeight)
        invariant vHave == [] ==> p == start
        invariant nStep >= 1 && Stepping(vHave, start.nHeight, p.nHeight, nStep)
        decreases p.nHeight
      {
        ghost var before := vHave;
        vHave := vHave + [p];
        if p.nHeight == 0 {
          LastStep(before, p, start.nHeight, nStep);
          return;
        }
        NextStep(before, p, start.nHeight, nStep);
        var h := if p.nHeight - nStep > 0 then p.nHeight - nStep else 0;
        AncestorTwice(start, p.nHeight, h);
        AncestorIn(p, h, tree);
        if Contains(p) {
          Below(p.nHeight, h);
          p := At(h);
        } else {
          ghost var steps;
          p, steps := p.GetAncestor(h, tree);
        }
        if |vHave| > 10 {
          nStep := nStep * 2;
        }
      }
    }
  }

  /** Ancestors in strictly descending height. */
  ghost predicate Descends(s: seq<BlockIndex>, start: BlockIndex)
    requires Rooted(start)
  {
    && (forall i :: 0 <= i < |s| ==> s[i].nHeight <= start.nHeight && s[i] == Ancestor(start, s[i].nHeight))
    && (forall i, j :: 0 <= i < j < |s| ==> s[j].nHeight < s[i].nHeight)
  }

  /** How far below its i-th block the locator looks for the next one. */
  function LocatorStep(i: nat): nat {
    if i <= 10 then 1 else Pow2(i - 10)
  }

  /** The first twelve without a gap, then at doubling distances until the root is reached. */
  ghost predicate Doubling(s: seq<BlockIndex>, top: nat) {
    && (forall i :: 0 <= i < |s| && i <= 11 ==> s[i].nHeight == top - i)
    && (forall i :: 0 < i < |s| ==> s[i].nHeight == Max(0, s[i - 1].nHeight - LocatorStep(i - 1)))
  }

  /** The locator so far, when height `h` comes next and `step` is the distance after it. */
  ghost predicate Stepping(s: seq<BlockIndex>, top: nat, h: nat, step: nat) {
    && Doubling(s, top) && step == LocatorStep(|s|)
    && (|s| <= 11 ==> h == top - |s|)
    && (s != [] ==> h == Max(0, s[|s| - 1].nHeight - LocatorStep(|s| - 1)))
    && (|s| >= 12 ==> Pow2(|s| - 11) + 9 < top)
    && (|s| >= 11 && h > 0 ==> h == top - 9 - step)
  }

  lemma FirstStep(top: nat)
    ensures Stepping([], top, top, 1)
  {
  }

  lemma NextStep(s: seq<BlockIndex>, b: BlockIndex, top: nat, step: nat)
    requires Stepping(s, top, b.nHeight, step) && b.nHeight > 0
    ensures Stepping(s + [b], top, Max(0, b.nHeight - step), if |s| + 1 > 10 then step * 2 else step)
  {
    hide Pow2, LocatorStep, Doubling;
    StepDoubles(|s|);
    GrowDoubling(s, b, top);
  }

  lemma StepDoubles(n: nat)
    ensures LocatorStep(n + 1) == if n < 10 then LocatorStep(n) else 2 * LocatorStep(n)
    ensures n >= 11 ==> LocatorStep(n) == Pow2(n - 10)
    ensures n <= 10 ==> LocatorStep(n) == 1
  {
    assert Pow2(1) == 2 * Pow2(0);
  }

  lemma GrowDoubling(s: seq<BlockIndex>, b: BlockIndex, top: nat)
    requires Doubling(s, top) && (|s| <= 11 ==> b.nHeight == top - |s|)
    requires s != [] ==> b.nHeight == Max(0, s[|s| - 1].nHeight - LocatorStep(|s| - 1))
    ensures Doubling(s + [b], top)
  {
    hide LocatorStep;
  }

  lemma LastStep(s: seq<BlockIndex>, b: BlockIndex, top: nat, step: nat)
    requires Stepping(s, top, b.nHeight, step)
    ensures Doubling(s + [b], top) && (|s| >= 12 ==> Pow2(|s| - 11) + 9 < top)
  {
  }

  /** The early stop of SetTip: below a block in place lies its own branch. */
  lemma AlreadyThere(was: seq<BlockIndex?>, resized: seq<BlockIndex?>, tip: BlockIndex, p: BlockIndex)
    requires was != [] ==> was[|was| - 1] != null && IsBranch(was, was[|was| - 1])
    requires Rooted(tip) && p.nHeight < |resized| && p.nHeight <= tip.nHeight && p == Ancestor(tip, p.nHeight)
    requires resized[p.nHeight] == p
    requires forall i :: 0 <= i < |resized| ==> resized[i] == if i < |was| then was[i] else null
    ensures forall i :: 0 <= i <= p.nHeight ==> resized[i] == Ancestor(tip, i)
  {
    forall i | 0 <= i <= p.nHeight
      ensures resized[i] == Ancestor(tip, i)
    {
      BranchesMeet(was[|was| - 1], tip, p.nHeight, i);
    }
  }

  /** The highest block two branches share, or null when they share none. */
  method LastCommonAncestor(a: BlockIndex, b: BlockIndex, ghost tree: set<BlockIndex>) returns (r: BlockIndex?)
    requires Skips(tree) && a in tree && b in tree
    ensures r != null ==> r.nHeight <= a.nHeight && r.nHeight <= b.nHeight && Ancestor(a, r.nHeight) == r == Ancestor(b, r.nHeight)
    ensures forall h :: 0 <= h <= a.nHeight && h <= b.nHeight ==>
              (Ancestor(a, h) == Ancestor(b, h) <==> r != null && h <= r.nHeight)
  {
    hide Rooted, Ancestor, Skips;
    InTree(a, tree);
    InTree(b, tree);
    AncestorSelf(a);
    AncestorSelf(b);
    var pa: BlockIndex?, pb: BlockIndex? := a, b;
    if a.nHeight > b.nHeight {
      ghost var steps;
      pa, steps := a.GetAncestor(b.nHeight, tree);
    } else if b.nHeight > a.nHeight {
      ghost var steps;
      pb, steps := b.GetAncestor(a.nHeight, tree);
    }
    ghost var next := pa.nHeight + 1;
    while pa != pb && pa != null && pb != null
      invariant 0 <= next <= a.nHeight + 1 && next <= b.nHeight + 1
      invariant if next == 0 then pa == null && pb == null else pa == Ancestor(a, next - 1) && pb == Ancestor(b, next - 1)
      invariant forall h :: next <= h <= a.nHeight && h <= b.nHeight ==> Ancestor(a, h) != Ancestor(b, h)
      decreases next
    {
      ParentOf(a, next - 1);
      ParentOf(b, next - 1);
      pa := pa.pprev;
      pb := pb.pprev;
      next := next - 1;
    }
    assert pa == pb;
    r := pa;
    if r != null {
      forall h | 0 <= h <= r.nHeight
        ensures Ancestor(a, h) == Ancestor(b, h)
      {
        BranchesMeet(a, b, r.nHeight, h);
      }
    }
  }
}
