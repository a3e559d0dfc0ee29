/**
 Block assembly (src/miner.h, src/miner.cpp): choosing packages of mempool
 transactions greedily, each together with its unselected ancestors.

 The mempool is an abstract acyclic graph with correct cached ancestor totals.
 Which package looks best depends on fees; here every choice is allowed, so what is
 proved holds for whatever order the fee rates impose.
 */
module Miner {
  import opened Prelude

  type Tx = nat

  const WITNESS_SCALE_FACTOR := 4
  const MAX_BLOCK_SIGOPS_COST := 80000
  const MAX_BLOCK_WEIGHT := 4000000
  const MAX_CONSECUTIVE_FAILURES := 1000
  const COINBASE_WEIGHT := 4000
  const COINBASE_SIGOPS := 400

  // ----- sums over sets of transactions -----

  ghost function Total(m: map<Tx, nat>, s: set<Tx>): nat {
    if s == {} then 0
    else
      var t :| t in s;
      (if t in m then m[t] else 0) + Total(m, s - {t})
  }

  lemma {:induction false} TotalRemove(m: map<Tx, nat>, s: set<Tx>, t: Tx)
    requires t in s
    ensures Total(m, s) == (if t in m then m[t] else 0) + Total(m, s - {t})
  {
    var u :| u in s && Total(m, s) == (if u in m then m[u] else 0) + Total(m, s - {u});
    if u != t {
      TotalRemove(m, s - {u}, t);
      TotalRemove(m, s - {t}, u);
      assert s - {u} - {t} == s - {t} - {u};
    }
  }

  lemma {:induction false} TotalSplit(m: map<Tx, nat>, a: set<Tx>, b: set<Tx>)
    requires a !! b
    ensures Total(m, a + b) == Total(m, a) + Total(m, b)
  {
    if a == {} {
      assert a + b == b;
    } else {
      var t :| t in a;
      TotalRemove(m, a + b, t);
      TotalRemove(m, a, t);
      assert a + b - {t} == (a - {t}) + b;
      TotalSplit(m, a - {t}, b);
    }
  }

  lemma TotalSubset(m: map<Tx, nat>, a: set<Tx>, b: set<Tx>)
    requires a <= b
    ensures Total(m, b) == Total(m, a) + Total(m, b - a)
  {
    assert b == a + (b - a);
    TotalSplit(m, a, b - a);
  }

  /** Weight never exceeds four times the virtual size. */
  lemma {:induction false} WeightBound(weight: map<Tx, nat>, size: map<Tx, nat>, s: set<Tx>)
    requires forall t :: t in s ==> t in weight && t in size && weight[t] <= WITNESS_SCALE_FACTOR * size[t]
    ensures Total(weight, s) <= WITNESS_SCALE_FACTOR * Total(size, s)
  {
    if s != {} {
      var t :| t in s;
      TotalRemove(weight, s, t);
      TotalRemove(size, s, t);
      WeightBound(weight, size, s - {t});
    }
  }

  // ----- the mempool -----

  datatype Pool = Pool(size: map<Tx, nat>, weight: map<Tx, nat>, sigops: map<Tx, nat>,
                       ancestors: map<Tx, set<Tx>>,
                       sizeWithAncestors: map<Tx, nat>, sigopsWithAncestors: map<Tx, nat>,
                       countWithAncestors: map<Tx, nat>) {

    function Txs(): set<Tx> { ancestors.Keys }

    /** An acyclic graph, described by its ancestor sets. */
    ghost predicate Acyclic() {
      forall t :: t in ancestors ==>
        && ancestors[t] <= Txs() && t !in ancestors[t]
        && forall a :: a in ancestors[t] ==> ancestors[a] <= ancestors[t]
    }

    ghost predicate Measured() {
      && size.Keys == Txs() && weight.Keys == Txs() && sigops.Keys == Txs()
      && forall t :: t in ancestors ==> weight[t] <= WITNESS_SCALE_FACTOR * size[t]
    }

    ghost predicate Cached() {
      && sizeWithAncestors.Keys == Txs() && sigopsWithAncestors.Keys == Txs() && countWithAncestors.Keys == Txs()
      && forall t :: t in ancestors ==>
           && sizeWithAncestors[t] == Total(size, ancestors[t] + {t})
           && sigopsWithAncestors[t] == Total(sigops, ancestors[t] + {t})
           && countWithAncestors[t] == |ancestors[t]| + 1
    }

    ghost predicate Valid() { Acyclic() && Measured() && Cached() }

    /** The transaction with its ancestors, less those already in the block. */
    function Package(inBlock: set<Tx>, t: Tx): set<Tx>
      requires t in ancestors
    {
      ancestors[t] - inBlock + {t}
    }

    function Descendants(t: Tx): set<Tx> {
      set d | d in ancestors && (d == t || t in ancestors[d])
    }
  }

  lemma PoolKeys(pool: Pool)
    requires pool.Valid()
    ensures pool.size.Keys == pool.Txs() && pool.weight.Keys == pool.Txs() && pool.sigops.Keys == pool.Txs()
    ensures pool.sizeWithAncestors.Keys == pool.Txs() && pool.sigopsWithAncestors.Keys == pool.Txs()
    ensures pool.countWithAncestors.Keys == pool.Txs()
  {
    hide Pool.Acyclic, Total;
  }

  /** Ancestors come with fewer ancestors, which is why sorting by count is a valid order. */
  lemma FewerAncestors(pool: Pool, a: Tx, t: Tx)
    requires pool.Valid() && t in pool.ancestors && a in pool.ancestors[t]
    ensures pool.countWithAncestors[a] < pool.countWithAncestors[t]
  {
    assert pool.ancestors[a] + {a} <= pool.ancestors[t];
    SubsetSize(pool.ancestors[a] + {a}, pool.ancestors[t]);
    assert a !in pool.ancestors[a];
  }

  // ----- what a block may look like -----

  ghost predicate Distinct(block: seq<Tx>) {
    forall i, j :: 0 <= i < j < |block| ==> block[i] != block[j]
  }

  function Members(block: seq<Tx>): set<Tx> {
    set t | t in block
  }

  /** Every transaction comes after all its in-mempool ancestors. */
  ghost predicate Ordered(pool: Pool, block: seq<Tx>) {
    forall i :: 0 <= i < |block| ==> block[i] in pool.ancestors && pool.ancestors[block[i]] <= Members(block[..i])
  }

  lemma OrderedAppend(pool: Pool, block: seq<Tx>, t: Tx)
    requires Ordered(pool, block) && t in pool.ancestors && pool.ancestors[t] <= Members(block)
    ensures Ordered(pool, block + [t]) && Members(block + [t]) == Members(block) + {t}
  {
    var longer := block + [t];
    forall i | 0 <= i < |longer|
      ensures longer[i] in pool.ancestors && pool.ancestors[longer[i]] <= Members(longer[..i])
    {
      if i < |block| {
        assert longer[..i] == block[..i];
      } else {
        assert longer[..i] == block;
      }
    }
  }

  // ----- modified entries -----

  /** Size and signature operations of a package, less ancestors already in the block. */
  datatype Mod = Mod(size: int, sigops: int)

  /** The tested figures of a modified entry never fall below what its package really needs. */
  ghost predicate ModOk(pool: Pool, inBlock: set<Tx>, mods: map<Tx, Mod>) {
    forall t :: t in mods ==>
      && t in pool.ancestors && t !in inBlock
      && mods[t].size >= Total(pool.size, pool.Package(inBlock, t))
      && mods[t].sigops >= Total(pool.sigops, pool.Package(inBlock, t))
  }

  ghost function Base(pool: Pool, mods: map<Tx, Mod>, d: Tx): Mod
    requires pool.Cached() && d in pool.ancestors
  {
    if d in mods then mods[d] else Mod(pool.sizeWithAncestors[d], pool.sigopsWithAncestors[d])
  }

  /** The entry of `d` once the transactions `done` are accounted for. */
  ghost function UpdatedAt(pool: Pool, mods: map<Tx, Mod>, done: set<Tx>, d: Tx): Mod
    requires pool.Cached() && d in pool.ancestors
  {
    Mod(Base(pool, mods, d).size - Total(pool.size, pool.ancestors[d] * done),
        Base(pool, mods, d).sigops - Total(pool.sigops, pool.ancestors[d] * done))
  }

  /** The modified set once `done`, part of the package `added`, is accounted for. */
  ghost function Updated(pool: Pool, mods: map<Tx, Mod>, done: set<Tx>, added: set<Tx>): map<Tx, Mod>
    requires pool.Cached()
  {
    map d | d in pool.ancestors && d !in added && (d in mods || Touches(pool.ancestors[d], done))
      :: UpdatedAt(pool, mods, done, d)
  }

  ghost predicate Touches(a: set<Tx>, done: set<Tx>) {
    exists t :: t in a && t in done
  }

  lemma MeetStep(a: set<Tx>, done: set<Tx>, it: Tx)
    requires it !in done
    ensures Touches(a, done + {it}) <==> Touches(a, done) || it in a
    ensures it in a ==> it in a * (done + {it}) && a * (done + {it}) - {it} == a * done
    ensures it !in a ==> a * (done + {it}) == a * done
    ensures !Touches(a, done) ==> a * done == {}
  {
  }

  lemma UpdatedStep(pool: Pool, mods: map<Tx, Mod>, done: set<Tx>, it: Tx, d: Tx)
    requires pool.Valid() && d in pool.ancestors && it in pool.ancestors && it !in done
    ensures it in pool.ancestors[d] ==>
              UpdatedAt(pool, mods, done + {it}, d)
              == Mod(UpdatedAt(pool, mods, done, d).size - pool.size[it], UpdatedAt(pool, mods, done, d).sigops - pool.sigops[it])
    ensures it !in pool.ancestors[d] ==> UpdatedAt(pool, mods, done + {it}, d) == UpdatedAt(pool, mods, done, d)
  {
    hide Total, Base, Pool.Acyclic, Pool.Cached;
    MeetStep(pool.ancestors[d], done, it);
    if it in pool.ancestors[d] {
      TotalRemove(pool.size, pool.ancestors[d] * (done + {it}), it);
      TotalRemove(pool.sigops, pool.ancestors[d] * (done + {it}), it);
    }
  }

  /** The starting figures of an entry cover its package. */
  lemma BaseBound(pool: Pool, inBlock: set<Tx>, mods: map<Tx, Mod>, d: Tx)
    requires pool.Valid() && ModOk(pool, inBlock, mods) && d in pool.ancestors
    ensures Base(pool, mods, d).size >= Total(pool.size, pool.Package(inBlock, d))
    ensures Base(pool, mods, d).sigops >= Total(pool.sigops, pool.Package(inBlock, d))
  {
    hide Total, Pool.Acyclic, Pool.Measured;
    if d !in mods {
      var all := pool.ancestors[d] + {d};
      assert pool.Package(inBlock, d) <= all;
      TotalSubset(pool.size, pool.Package(inBlock, d), all);
      TotalSubset(pool.sigops, pool.Package(inBlock, d), all);
    }
  }

  lemma PackageShrinks(pool: Pool, inBlock: set<Tx>, done: set<Tx>, d: Tx)
    requires d in pool.ancestors && d !in pool.ancestors[d] && done !! inBlock && d !in done
    ensures pool.ancestors[d] * done <= pool.Package(inBlock, d)
    ensures pool.Package(inBlock + done, d) == pool.Package(inBlock, d) - pool.ancestors[d] * done
  {
  }

  /** Accounting for part of a package keeps the figures at or above the real need. */
  lemma UpdatedBound(pool: Pool, inBlock: set<Tx>, mods: map<Tx, Mod>, done: set<Tx>, d: Tx)
    requires pool.Valid() && ModOk(pool, inBlock, mods) && done !! inBlock
    requires d in pool.ancestors && d !in done
    ensures UpdatedAt(pool, mods, done, d).size >= Total(pool.size, pool.Package(inBlock + done, d))
    ensures UpdatedAt(pool, mods, done, d).sigops >= Total(pool.sigops, pool.Package(inBlock + done, d))
  {
    assert d !in pool.ancestors[d];
    hide Total, Base, ModOk, Pool.Acyclic, Pool.Measured, Pool.Cached, Pool.Package;
    BaseBound(pool, inBlock, mods, d);
    PackageShrinks(pool, inBlock, done, d);
    TotalSubset(pool.size, pool.ancestors[d] * done, pool.Package(inBlock, d));
    TotalSubset(pool.sigops, pool.ancestors[d] * done, pool.Package(inBlock, d));
  }

  lemma UpdatedKeeps(pool: Pool, inBlock: set<Tx>, mods: map<Tx, Mod>, done: set<Tx>, added: set<Tx>)
    requires pool.Valid() && ModOk(pool, inBlock, mods) && added !! inBlock && done <= added
    requires forall d :: d in inBlock && d in pool.ancestors ==> pool.ancestors[d] !! added
    ensures ModOk(pool, inBlock + done, Updated(pool, mods, done, added))
  {
    hide ModOk, UpdatedAt, Total, Pool.Acyclic, Pool.Measured, Pool.Cached, Pool.Package;
    var mods' := Updated(pool, mods, done, added);
    forall d | d in mods'
      ensures d in pool.ancestors && d !in inBlock + done
      ensures mods'[d].size >= Total(pool.size, pool.Package(inBlock + done, d))
      ensures mods'[d].sigops >= Total(pool.sigops, pool.Package(inBlock + done, d))
    {
      ModOutside(pool, inBlock, mods, d);
      UpdatedBound(pool, inBlock, mods, done, d);
    }
    ModIntro(pool, inBlock + done, mods');
  }

  /** One more selected transaction, accounted for in part of its descendants. */
  function Accounted(pool: Pool, mods: map<Tx, Mod>, it: Tx, handled: set<Tx>): map<Tx, Mod>
    requires it in pool.size && it in pool.sigops
    requires handled <= pool.sizeWithAncestors.Keys && handled <= pool.sigopsWithAncestors.Keys
  {
    map d | d in mods.Keys + handled ::
      var e := if d in mods then mods[d] else Mod(pool.sizeWithAncestors[d], pool.sigopsWithAncestors[d]);
      if d in handled then Mod(e.size - pool.size[it], e.sigops - pool.sigops[it]) else e
  }

  lemma AccountedOne(pool: Pool, mods: map<Tx, Mod>, it: Tx, handled: set<Tx>, d: Tx)
    requires it in pool.size && it in pool.sigops && d !in handled
    requires handled + {d} <= pool.sizeWithAncestors.Keys && handled + {d} <= pool.sigopsWithAncestors.Keys
    ensures var m := Accounted(pool, mods, it, handled);
            var e := if d in mods then mods[d] else Mod(pool.sizeWithAncestors[d], pool.sigopsWithAncestors[d]);
            && (d in m <==> d in mods) && (d in m ==> m[d] == e)
            && Accounted(pool, mods, it, handled + {d}) == m[d := Mod(e.size - pool.size[it], e.sigops - pool.sigops[it])]
  {
  }

  lemma UpdatedStart(pool: Pool, inBlock: set<Tx>, mods: map<Tx, Mod>, added: set<Tx>)
    requires pool.Valid() && ModOk(pool, inBlock, mods) && added !! mods.Keys
    ensures Updated(pool, mods, {}, added) == mods
  {
    hide Total, Pool.Acyclic, Pool.Measured, Pool.Cached;
    TotalNothing(pool.size);
    TotalNothing(pool.sigops);
    forall d | d in mods
      ensures UpdatedAt(pool, mods, {}, d) == mods[d]
    {
      assert pool.ancestors[d] * {} == {};
    }
  }

  lemma AccountedAt(pool: Pool, mods: map<Tx, Mod>, done: set<Tx>, it: Tx, added: set<Tx>, d: Tx)
    requires pool.Valid() && it in added && it in pool.ancestors && it !in done
    requires d in pool.ancestors && d !in added && it in pool.ancestors[d]
    ensures d in Updated(pool, mods, done + {it}, added)
    ensures var before := Updated(pool, mods, done, added);
            var e := if d in before then before[d] else Mod(pool.sizeWithAncestors[d], pool.sigopsWithAncestors[d]);
            UpdatedAt(pool, mods, done + {it}, d) == Mod(e.size - pool.size[it], e.sigops - pool.sigops[it])
  {
    hide Total, Pool.Acyclic, Pool.Measured, Pool.Cached, UpdatedAt, Touches;
    PoolKeys(pool);
    MeetStep(pool.ancestors[d], done, it);
    UpdatedStep(pool, mods, done, it, d);
    if d !in Updated(pool, mods, done, added) {
      UpdatedNothing(pool, mods, done, d);
    }
  }

  lemma UpdatedNothing(pool: Pool, mods: map<Tx, Mod>, done: set<Tx>, d: Tx)
    requires pool.Valid() && d in pool.ancestors && d !in mods && pool.ancestors[d] * done == {}
    ensures UpdatedAt(pool, mods, done, d) == Mod(pool.sizeWithAncestors[d], pool.sigopsWithAncestors[d])
  {
    hide Total, Pool.Acyclic, Pool.Measured, Pool.Cached;
    TotalNothing(pool.size);
    TotalNothing(pool.sigops);
  }

  lemma TotalNothing(m: map<Tx, nat>)
    ensures Total(m, {}) == 0
  {
  }

  lemma UpdatedOther(pool: Pool, mods: map<Tx, Mod>, done: set<Tx>, it: Tx, added: set<Tx>, d: Tx)
    requires pool.Valid() && it in pool.ancestors && it !in done
    requires d in pool.ancestors && d !in added && it !in pool.ancestors[d]
    ensures d in Updated(pool, mods, done + {it}, added) <==> d in Updated(pool, mods, done, added)
    ensures UpdatedAt(pool, mods, done + {it}, d) == UpdatedAt(pool, mods, done, d)
  {
    hide Total, Pool.Acyclic, Pool.Measured, Pool.Cached, UpdatedAt, Touches;
    PoolKeys(pool);
    MeetStep(pool.ancestors[d], done, it);
    UpdatedStep(pool, mods, done, it, d);
  }

  /** Accounting for one transaction after another accounts for the whole package. */
  lemma AccountedUpdates(pool: Pool, mods: map<Tx, Mod>, done: set<Tx>, it: Tx, added: set<Tx>)
    requires pool.Valid() && it in added && it in pool.ancestors && it !in done
    ensures it in pool.size && it in pool.sigops
    ensures pool.Descendants(it) - added <= pool.sizeWithAncestors.Keys
    ensures pool.Descendants(it) - added <= pool.sigopsWithAncestors.Keys
    ensures Accounted(pool, Updated(pool, mods, done, added), it, pool.Descendants(it) - added)
            == Updated(pool, mods, done + {it}, added)
  {
    hide Total, Pool.Acyclic, Pool.Cached, Pool.Measured, UpdatedAt, Touches;
    PoolKeys(pool);
    var before, after := Updated(pool, mods, done, added), Updated(pool, mods, done + {it}, added);
    var next := Accounted(pool, before, it, pool.Descendants(it) - added);
    forall d | d in pool.ancestors && d !in added
      ensures d in next <==> d in after
      ensures d in next && d in after ==> next[d] == after[d]
    {
      if it in pool.ancestors[d] {
        AccountedAt(pool, mods, done, it, added, d);
      } else {
        UpdatedOther(pool, mods, done, it, added, d);
      }
    }
    assert forall d :: d in next ==> d in pool.ancestors && d !in added;
    assert forall d :: d in after ==> d in pool.ancestors && d !in added;
  }

  lemma ModOutside(pool: Pool, inBlock: set<Tx>, mods: map<Tx, Mod>, d: Tx)
    requires ModOk(pool, inBlock, mods)
    ensures d in mods ==> d !in inBlock
  {
  }

  lemma ModIntro(pool: Pool, inBlock: set<Tx>, mods: map<Tx, Mod>)
    requires forall d :: d in mods ==> d in pool.ancestors && d !in inBlock
    requires forall d :: d in mods ==> mods[d].size >= Total(pool.size, pool.Package(inBlock, d))
    requires forall d :: d in mods ==> mods[d].sigops >= Total(pool.sigops, pool.Package(inBlock, d))
    ensures ModOk(pool, inBlock, mods)
  {
  }

  /** Entries neither modified, failed nor selected still have none of their ancestors selected. */
  ghost predicate Untouched(pool: Pool, inBlock: set<Tx>, mods: map<Tx, Mod>, failed: set<Tx>) {
    forall t :: t in pool.ancestors && t !in inBlock && t !in mods && t !in failed ==> pool.ancestors[t] !! inBlock
  }

  lemma DistinctAppend(block: seq<Tx>, t: Tx)
    requires Distinct(block) && t !in Members(block)
    ensures Distinct(block + [t]) && Members(block + [t]) == Members(block) + {t}
  {
    assert forall i :: 0 <= i < |block| ==> block[i] in Members(block);
  }

  /** In order of ancestor count. */
  ghost predicate ByCount(counts: map<Tx, nat>, s: seq<Tx>) {
    && (forall i :: 0 <= i < |s| ==> s[i] in counts)
    && forall i, j :: 0 <= i < j < |s| ==> counts[s[i]] <= counts[s[j]]
  }

  ghost predicate Below(counts: map<Tx, nat>, s: seq<Tx>, rest: set<Tx>) {
    forall i, u :: 0 <= i < |s| && u in rest && s[i] in counts && u in counts ==> counts[s[i]] <= counts[u]
  }

  lemma EmptyOrder(counts: map<Tx, nat>, rest: set<Tx>)
    ensures Members([]) == {} && Distinct([]) && ByCount(counts, []) && Below(counts, [], rest)
  {
  }

  lemma ByCountAppend(counts: map<Tx, nat>, s: seq<Tx>, rest: set<Tx>, t: Tx)
    requires ByCount(counts, s) && Below(counts, s, rest) && t in rest && rest <= counts.Keys
    requires forall u :: u in rest ==> counts[t] <= counts[u]
    ensures ByCount(counts, s + [t]) && Below(counts, s + [t], rest - {t})
  {
  }

  /** The figures of an entry and everything tested against the limits. */
  predicate Fits(weight: nat, sigops: nat, maxWeight: nat, packageSize: int, packageSigOps: int) {
    weight + WITNESS_SCALE_FACTOR * packageSize < maxWeight && sigops + packageSigOps < MAX_BLOCK_SIGOPS_COST
  }

  lemma {:induction false} SmallestExists(counts: map<Tx, nat>, s: set<Tx>) returns (t: Tx)
    requires s != {} && s <= counts.Keys
    ensures t in s && forall u :: u in s ==> counts[t] <= counts[u]
  {
    t :| t in s;
    if s != {t} {
      var u := SmallestExists(counts, s - {t});
      if counts[u] < counts[t] {
        t := u;
      }
    }
  }

  /** Selected transactions bring all their ancestors. */
  lemma Closed(pool: Pool, block: seq<Tx>, t: Tx)
    requires Ordered(pool, block) && t in Members(block)
    ensures t in pool.ancestors && pool.ancestors[t] <= Members(block)
  {
    var i :| 0 <= i < |block| && block[i] == t;
    assert Members(block[..i]) <= Members(block);
  }

  lemma PackageInside(pool: Pool, inBlock: set<Tx>, t: Tx, x: Tx)
    requires pool.Valid() && t in pool.ancestors && x in pool.Package(inBlock, t)
    ensures x in pool.ancestors && pool.ancestors[x] - inBlock <= pool.Package(inBlock, t)
  {
    hide Pool.Measured, Pool.Cached;
  }

  /** In a package sorted by count, a transaction's missing ancestors stand before it. */
  lemma ParentsFirst(pool: Pool, inBlock: set<Tx>, t: Tx, sorted: seq<Tx>, i: nat)
    requires pool.Valid() && t in pool.ancestors && Members(sorted) == pool.Package(inBlock, t)
    requires ByCount(pool.countWithAncestors, sorted) && i < |sorted|
    ensures sorted[i] in pool.ancestors && pool.ancestors[sorted[i]] <= inBlock + Members(sorted[..i])
  {
    hide Pool.Valid, Pool.Package;
    var x := sorted[i];
    assert x in Members(sorted);
    PackageInside(pool, inBlock, t, x);
    PoolKeys(pool);
    forall a | a in pool.ancestors[x] && a !in inBlock
      ensures a in Members(sorted[..i])
    {
      assert a in Members(sorted);
      var j :| 0 <= j < |sorted| && sorted[j] == a;
      FewerAncestors(pool, a, x);
      assert j < i;
      assert sorted[..i][j] == a;
    }
  }

  /** What passed the test fits once its real weight and signature operations are added. */
  lemma StaysWithin(pool: Pool, inBlock: set<Tx>, package: set<Tx>, maxWeight: nat, size: int, sigops: int)
    requires pool.Valid() && package !! inBlock && package <= pool.Txs()
    requires size >= Total(pool.size, package) && sigops >= Total(pool.sigops, package)
    requires Fits(COINBASE_WEIGHT + Total(pool.weight, inBlock), COINBASE_SIGOPS + Total(pool.sigops, inBlock),
                  maxWeight, size, sigops)
    ensures COINBASE_WEIGHT + Total(pool.weight, inBlock + package) < maxWeight
    ensures COINBASE_SIGOPS + Total(pool.sigops, inBlock + package) < MAX_BLOCK_SIGOPS_COST
  {
    hide Total, Pool.Acyclic, Pool.Cached;
    TotalSplit(pool.weight, inBlock, package);
    TotalSplit(pool.sigops, inBlock, package);
    WeightBound(pool.weight, pool.size, package);
  }

  /** For an entry taken from the mempool index the cached totals are exact. */
  lemma CachedExact(pool: Pool, inBlock: set<Tx>, mods: map<Tx, Mod>, failed: set<Tx>, t: Tx)
    requires pool.Valid() && Untouched(pool, inBlock, mods, failed)
    requires t in pool.ancestors && t !in inBlock && t !in mods && t !in failed
    ensures t in pool.sizeWithAncestors && pool.sizeWithAncestors[t] == Total(pool.size, pool.Package(inBlock, t))
    ensures t in pool.sigopsWithAncestors && pool.sigopsWithAncestors[t] == Total(pool.sigops, pool.Package(inBlock, t))
  {
    hide Total, Pool.Acyclic, Pool.Measured;
    assert pool.Package(inBlock, t) == pool.ancestors[t] + {t};
  }

  lemma UntouchedAfter(pool: Pool, inBlock: set<Tx>, mods: map<Tx, Mod>, failed: set<Tx>, added: set<Tx>)
    requires pool.Cached() && Untouched(pool, inBlock, mods, failed)
    ensures Untouched(pool, inBlock + added, Updated(pool, mods - added, added, added), failed)
  {
    hide Total, UpdatedAt, Pool.Cached;
  }

  /** The figures of a modified entry that has never failed are exactly what its package still needs. */
  ghost predicate Precise(pool: Pool, inBlock: set<Tx>, mods: map<Tx, Mod>, failed: set<Tx>) {
    forall d :: d in mods && d !in failed && d in pool.ancestors ==>
      && mods[d].size == Total(pool.size, pool.Package(inBlock, d))
      && mods[d].sigops == Total(pool.sigops, pool.Package(inBlock, d))
  }

  lemma PreciseShrinks(pool: Pool, inBlock: set<Tx>, mods: map<Tx, Mod>, gone: set<Tx>, failed: set<Tx>, more: set<Tx>)
    requires Precise(pool, inBlock, mods, failed)
    ensures Precise(pool, inBlock, mods - gone, failed + more)
  {
    hide Total, Pool.Package;
  }

  lemma NotOwnAncestor(pool: Pool, d: Tx)
    requires pool.Valid() && d in pool.ancestors
    ensures d !in pool.ancestors[d]
  {
    hide Pool.Measured, Pool.Cached;
  }

  /** Exact figures stay exact when selected ancestors are taken off. */
  lemma ExactUpdated(pool: Pool, inBlock: set<Tx>, mods: map<Tx, Mod>, done: set<Tx>, d: Tx)
    requires pool.Valid() && done !! inBlock && d in pool.ancestors && d !in done
    ensures Base(pool, mods, d) == Mod(Total(pool.size, pool.Package(inBlock, d)), Total(pool.sigops, pool.Package(inBlock, d))) ==>
              UpdatedAt(pool, mods, done, d)
              == Mod(Total(pool.size, pool.Package(inBlock + done, d)), Total(pool.sigops, pool.Package(inBlock + done, d)))
  {
    hide Total, Base, Pool.Valid, Pool.Package;
    NotOwnAncestor(pool, d);
    PackageShrinks(pool, inBlock, done, d);
    TotalSubset(pool.size, pool.ancestors[d] * done, pool.Package(inBlock, d));
    TotalSubset(pool.sigops, pool.ancestors[d] * done, pool.Package(inBlock, d));
  }

  /** The starting figures of an entry that has never failed are exact. */
  lemma BaseExact(pool: Pool, inBlock: set<Tx>, mods: map<Tx, Mod>, failed: set<Tx>, d: Tx)
    requires pool.Valid() && Precise(pool, inBlock, mods, failed) && Untouched(pool, inBlock, mods, failed)
    requires d in pool.ancestors && d !in failed && d !in inBlock
    ensures Base(pool, mods, d) == Mod(Total(pool.size, pool.Package(inBlock, d)), Total(pool.sigops, pool.Package(inBlock, d)))
  {
    hide Total, Pool.Valid, Pool.Package, Untouched;
    if d !in mods {
      CachedExact(pool, inBlock, mods, failed, d);
    }
  }

  lemma NewlyTouched(pool: Pool, inBlock: set<Tx>, mods: map<Tx, Mod>, added: set<Tx>, d: Tx)
    requires pool.Cached() && ModOk(pool, inBlock, mods) && d in Updated(pool, mods - added, added, added)
    requires forall d :: d in inBlock && d in pool.ancestors ==> pool.ancestors[d] !! added
    ensures d in pool.ancestors && d !in inBlock && d !in added
    ensures Updated(pool, mods - added, added, added)[d] == UpdatedAt(pool, mods, added, d)
  {
    hide Total, Pool.Package, Pool.Cached;
  }

  lemma PreciseAfter(pool: Pool, inBlock: set<Tx>, mods: map<Tx, Mod>, failed: set<Tx>, added: set<Tx>)
    requires pool.Valid() && Precise(pool, inBlock, mods, failed) && Untouched(pool, inBlock, mods, failed) && added !! inBlock
    requires forall d :: d in inBlock && d in pool.ancestors ==> pool.ancestors[d] !! added
    requires ModOk(pool, inBlock, mods)
    ensures Precise(pool, inBlock + added, Updated(pool, mods - added, added, added), failed)
  {
    PreciseIntro(pool, inBlock, mods, failed, added);
  }

  lemma PreciseIntro(pool: Pool, inBlock: set<Tx>, mods: map<Tx, Mod>, failed: set<Tx>, added: set<Tx>)
    requires pool.Valid() && Precise(pool, inBlock, mods, failed) && Untouched(pool, inBlock, mods, failed) && added !! inBlock
    requires forall d :: d in inBlock && d in pool.ancestors ==> pool.ancestors[d] !! added
    requires ModOk(pool, inBlock, mods)
    ensures var after := Updated(pool, mods - added, added, added);
            forall d :: d in after && d !in failed && d in pool.ancestors ==>
              after[d] == Mod(Total(pool.size, pool.Package(inBlock + added, d)), Total(pool.sigops, pool.Package(inBlock + added, d)))
  {
    hide Total, Base, Updated, UpdatedAt, Untouched, ModOk, Precise, Pool.Acyclic, Pool.Measured, Pool.Cached, Pool.Package;
    var after := Updated(pool, mods - added, added, added);
    forall d | d in after && d !in failed && d in pool.ancestors
      ensures after[d] == Mod(Total(pool.size, pool.Package(inBlock + added, d)), Total(pool.sigops, pool.Package(inBlock + added, d)))
    {
      NewlyTouched(pool, inBlock, mods, added, d);
      BaseExact(pool, inBlock, mods, failed, d);
      ExactUpdated(pool, inBlock, mods, added, d);
    }
  }

  lemma ModShrinks(pool: Pool, inBlock: set<Tx>, mods: map<Tx, Mod>, gone: set<Tx>)
    requires ModOk(pool, inBlock, mods)
    ensures ModOk(pool, inBlock, mods - gone)
  {
    hide Total, Pool.Package;
  }

  method PickSmallest(counts: map<Tx, nat>, s: set<Tx>) returns (t: Tx)
    requires s != {} && s <= counts.Keys
    ensures t in s && forall u :: u in s ==> counts[t] <= counts[u]
  {
    ghost var least := SmallestExists(counts, s);
    t :| t in s && forall u :: u in s ==> counts[t] <= counts[u];
  }

  // ----- nothing is overlooked -----

  /** Figures never exceed the cached totals they started from. */
  ghost predicate Capped(pool: Pool, mods: map<Tx, Mod>)
    requires pool.Cached()
  {
    forall t :: t in mods && t in pool.ancestors ==>
      mods[t].size <= pool.sizeWithAncestors[t] && mods[t].sigops <= pool.sigopsWithAncestors[t]
  }

  lemma CappedUpdated(pool: Pool, mods: map<Tx, Mod>, done: set<Tx>, added: set<Tx>)
    requires pool.Cached() && Capped(pool, mods)
    ensures Capped(pool, Updated(pool, mods, done, added))
    ensures forall t :: t in mods && t in pool.ancestors && t !in added ==> t in Updated(pool, mods, done, added)
  {
    hide Total, Pool.Measured, Pool.Acyclic, Touches;
    forall t | t in Updated(pool, mods, done, added)
      ensures t in pool.ancestors && Updated(pool, mods, done, added)[t].size <= pool.sizeWithAncestors[t]
      ensures Updated(pool, mods, done, added)[t].sigops <= pool.sigopsWithAncestors[t]
    {
      assert Updated(pool, mods, done, added)[t] == UpdatedAt(pool, mods, done, t);
    }
  }

  lemma CappedShrinks(pool: Pool, mods: map<Tx, Mod>, gone: set<Tx>)
    requires pool.Cached() && Capped(pool, mods)
    ensures Capped(pool, mods - gone)
  {
  }

  /** The room a block leaves. */
  datatype Room = Room(weight: int, cost: int, maxWeight: int)

  /** A transaction that exceeds a limit together with its ancestors. */
  ghost predicate Oversized(pool: Pool, r: Room, t: Tx)
    requires pool.Cached()
  {
    && t in pool.ancestors
    && (|| r.weight + WITNESS_SCALE_FACTOR * pool.sizeWithAncestors[t] >= r.maxWeight
        || r.cost + pool.sigopsWithAncestors[t] >= MAX_BLOCK_SIGOPS_COST)
  }

  /** A transaction whose ancestor totals do not fit, or with an ineligible one among them. */
  ghost predicate TurnedDown(pool: Pool, eligible: Tx -> bool, r: Room, t: Tx)
    requires pool.Cached()
  {
    t in pool.ancestors && (Oversized(pool, r, t) || exists u :: u in pool.ancestors[t] + {t} && !eligible(u))
  }

  /** Candidates found too large since the last selection: each once, and out of reach since. */
  ghost predicate Failing(pool: Pool, r: Room, failures: seq<Tx>, order: seq<Tx>, mi: nat, modified: set<Tx>, failed: set<Tx>)
    requires pool.Cached() && mi <= |order|
  {
    && (forall k :: 0 <= k < |failures| ==>
          && Oversized(pool, r, failures[k]) && failures[k] !in modified
          && (failures[k] in failed || failures[k] in order[..mi]))
    && (Distinct(order) ==> Distinct(failures))
  }

  lemma NoFailures(pool: Pool, r: Room, order: seq<Tx>, mi: nat, modified: set<Tx>, failed: set<Tx>)
    requires pool.Cached() && mi <= |order|
    ensures Failing(pool, r, [], order, mi, modified, failed)
  {
    hide Pool.Cached;
  }

  /** Going on in the index, and dropping modified entries, keeps the failures out of reach. */
  lemma FailingOn(pool: Pool, r: Room, failures: seq<Tx>, order: seq<Tx>, mi: nat, mi': nat, modified: set<Tx>, modified': set<Tx>, failed: set<Tx>, failed': set<Tx>)
    requires pool.Cached() && mi <= mi' <= |order| && modified' <= modified && failed <= failed'
    requires Failing(pool, r, failures, order, mi, modified, failed)
    ensures Failing(pool, r, failures, order, mi', modified', failed')
  {
    hide Pool.Cached, Oversized, Distinct;
    assert forall t :: t in order[..mi] ==> t in order[..mi'];
  }

  /** A candidate that fails now has not failed before. */
  lemma FailingMore(pool: Pool, r: Room, failures: seq<Tx>, order: seq<Tx>, mi: nat, mi': nat, modified: set<Tx>, modified': set<Tx>, failed: set<Tx>, failed': set<Tx>, t: Tx)
    requires pool.Cached() && mi <= mi' <= |order| && modified' <= modified && failed <= failed'
    requires Failing(pool, r, failures, order, mi, modified, failed) && Oversized(pool, r, t) && t !in modified'
    requires (t in modified && t in failed') || (mi < mi' && t == order[mi] && t !in failed)
    ensures Failing(pool, r, failures + [t], order, mi', modified', failed')
  {
    hide Pool.Cached, Oversized;
    FailingOn(pool, r, failures, order, mi, mi', modified, modified', failed, failed');
    if mi < mi' && t == order[mi] {
      assert order[..mi'][mi] == t;
    }
    if Distinct(order) {
      forall k | 0 <= k < |failures|
        ensures failures[k] != t
      {
        if failures[k] in order[..mi] && failures[k] !in failed {
          var j :| 0 <= j < mi && order[j] == failures[k];
        }
      }
    }
  }

  /** Distinct failures are no more than the pool has transactions. */
  lemma FailuresFit(pool: Pool, r: Room, failures: seq<Tx>, order: seq<Tx>, mi: nat, modified: set<Tx>, failed: set<Tx>)
    requires pool.Cached() && mi <= |order| && Failing(pool, r, failures, order, mi, modified, failed) && Distinct(order)
    ensures |failures| <= |pool.Txs()|
  {
    hide Pool.Cached;
    DistinctSize(failures);
    forall t | t in Members(failures)
      ensures t in pool.Txs()
    {
      var k :| 0 <= k < |failures| && failures[k] == t;
      assert Oversized(pool, r, failures[k]);
    }
    SubsetSize(Members(failures), pool.Txs());
  }

  lemma {:induction false} DistinctSize(s: seq<Tx>)
    requires Distinct(s)
    ensures |Members(s)| == |s|
  {
    if s != [] {
      var rest, last := s[..|s| - 1], s[|s| - 1];
      DistinctSize(rest);
      assert Members(s) == Members(rest) + {last};
      assert last !in Members(rest);
    }
  }

  /** The first n of the index are selected, modified, turned down, or being looked at. */
  ghost predicate Covered(pool: Pool, eligible: Tx -> bool, r: Room, order: seq<Tx>, n: nat, inBlock: set<Tx>, modified: set<Tx>, failed: set<Tx>, pending: set<Tx>)
    requires pool.Cached() && n <= |order|
  {
    && (forall i :: 0 <= i < n ==>
          order[i] in inBlock || order[i] in modified || order[i] in pending || TurnedDown(pool, eligible, r, order[i]))
    && (forall t :: t in failed ==> TurnedDown(pool, eligible, r, t))
  }

  lemma CoveredNext(pool: Pool, eligible: Tx -> bool, r: Room, order: seq<Tx>, n: nat, inBlock: set<Tx>, modified: set<Tx>, failed: set<Tx>)
    requires pool.Cached() && n < |order| && Covered(pool, eligible, r, order, n, inBlock, modified, failed, {})
    ensures Covered(pool, eligible, r, order, n + 1, inBlock, modified, failed, {order[n]})
    ensures order[n] in inBlock || order[n] in modified || order[n] in failed ==>
              Covered(pool, eligible, r, order, n + 1, inBlock, modified, failed, {})
  {
    hide TurnedDown, Pool.Cached;
  }

  lemma CoveredDown(pool: Pool, eligible: Tx -> bool, r: Room, order: seq<Tx>, n: nat, inBlock: set<Tx>, modified: set<Tx>, failed: set<Tx>, pending: set<Tx>, t: Tx)
    requires pool.Cached() && n <= |order| && Covered(pool, eligible, r, order, n, inBlock, modified, failed, pending)
    requires TurnedDown(pool, eligible, r, t) && pending <= {t}
    ensures Covered(pool, eligible, r, order, n, inBlock, modified, failed, {})
    ensures Covered(pool, eligible, r, order, n, inBlock, modified - {t}, failed + {t}, {})
  {
    hide TurnedDown, Pool.Cached;
  }

  /** The block grows: what was turned down stays so. */
  lemma CoveredGrow(pool: Pool, eligible: Tx -> bool, r: Room, r': Room, order: seq<Tx>, n: nat, inBlock: set<Tx>, modified: set<Tx>, inBlock': set<Tx>, modified': set<Tx>, failed: set<Tx>, pending: set<Tx>)
    requires pool.Cached() && n <= |order| && Covered(pool, eligible, r, order, n, inBlock, modified, failed, pending)
    requires r.weight <= r'.weight && r.cost <= r'.cost && r.maxWeight == r'.maxWeight
    requires inBlock + pending <= inBlock' && modified <= modified' + inBlock'
    ensures Covered(pool, eligible, r', order, n, inBlock', modified', failed, {})
  {
    hide Pool.Cached;
    forall t | TurnedDown(pool, eligible, r, t)
      ensures TurnedDown(pool, eligible, r', t)
    {
    }
  }

  class BlockAssembler {
    const pool: Pool
    /** The mempool by ancestor score, best first. */
    const order: seq<Tx>
    /** Finality, witness and timestamp checks of one transaction. */
    const eligible: Tx -> bool
    const nBlockMaxWeight: nat

    var block: seq<Tx>
    var inBlock: set<Tx>
    var nBlockWeight: nat
    var nBlockTx: nat
    var nBlockSigOpsCost: nat

    ghost predicate Setting() {
      pool.Valid() && (forall i :: 0 <= i < |order| ==> order[i] in pool.ancestors) && COINBASE_WEIGHT <= nBlockMaxWeight
    }

    /** A well-formed block with exact running totals. */
    ghost predicate Valid()
      reads this
    {
      && Setting() && Distinct(block) && Members(block) == inBlock && Ordered(pool, block)
      && nBlockTx == |block|
      && nBlockWeight == COINBASE_WEIGHT + Total(pool.weight, inBlock)
      && nBlockSigOpsCost == COINBASE_SIGOPS + Total(pool.sigops, inBlock)
    }

    ghost predicate WithinLimits()
      reads this
    {
      && nBlockWeight <= nBlockMaxWeight && (block != [] ==> nBlockWeight < nBlockMaxWeight)
      && nBlockSigOpsCost < MAX_BLOCK_SIGOPS_COST
    }

    constructor (pool: Pool, order: seq<Tx>, eligible: Tx -> bool, maxWeightOption: nat)
      requires pool.Valid() && forall i :: 0 <= i < |order| ==> order[i] in pool.ancestors
      ensures Valid() && WithinLimits() && block == [] && this.pool == pool
      ensures nBlockMaxWeight == Max(4000, Min(MAX_BLOCK_WEIGHT - 4000, maxWeightOption))
    {
      this.pool, this.order, this.eligible := pool, order, eligible;
      nBlockMaxWeight := Max(4000, Min(MAX_BLOCK_WEIGHT - 4000, maxWeightOption));
      block, inBlock, nBlockWeight, nBlockSigOpsCost, nBlockTx := [], {}, COINBASE_WEIGHT, COINBASE_SIGOPS, 0;
    }

    predicate TestPackage(packageSize: int, packageSigOpsCost: int)
      reads this
      ensures TestPackage(packageSize, packageSigOpsCost) <==>
                Fits(nBlockWeight, nBlockSigOpsCost, nBlockMaxWeight, packageSize, packageSigOpsCost)
    {
      if nBlockWeight + WITNESS_SCALE_FACTOR * packageSize >= nBlockMaxWeight then false
      else if nBlockSigOpsCost + packageSigOpsCost >= MAX_BLOCK_SIGOPS_COST then false
      else true
    }

    method AddToBlock(t: Tx)
      requires Valid() && t in pool.ancestors && t !in inBlock && pool.ancestors[t] <= inBlock
      modifies this
      ensures Valid() && block == old(block) + [t] && inBlock == old(inBlock) + {t}
    {
      hide Total, Ordered, Distinct, Members, Pool.Acyclic, Pool.Cached;
      OrderedAppend(pool, block, t);
      DistinctAppend(block, t);
      TotalRemove(pool.weight, inBlock + {t}, t);
      TotalRemove(pool.sigops, inBlock + {t}, t);
      assert inBlock + {t} - {t} == inBlock;
      block := block + [t];
      nBlockWeight := nBlockWeight + pool.weight[t];
      nBlockTx := nBlockTx + 1;
      nBlockSigOpsCost := nBlockSigOpsCost + pool.sigops[t];
      inBlock := inBlock + {t};
    }

    /** The package by ancestor count, ties in any order. */
    method SortForBlock(package: set<Tx>) returns (sorted: seq<Tx>)
      requires pool.Valid() && package <= pool.Txs()
      ensures Members(sorted) == package && Distinct(sorted) && ByCount(pool.countWithAncestors, sorted)
    {
      hide Pool.Valid, Distinct, Members, ByCount, Below;
      PoolKeys(pool);
      var counts := pool.countWithAncestors;
      var rest := package;
      sorted := [];
      EmptyOrder(counts, rest);
      while rest != {}
        invariant Members(sorted) + rest == package && Members(sorted) !! rest && Distinct(sorted)
        invariant ByCount(counts, sorted) && Below(counts, sorted, rest)
        decreases rest
      {
        var t := PickSmallest(counts, rest);
        ByCountAppend(counts, sorted, rest, t);
        DistinctAppend(sorted, t);
        sorted := sorted + [t];
        rest := rest - {t};
      }
    }

    /** One selected transaction, subtracted from each of its unselected descendants. */
    method AccountFor(it: Tx, added: set<Tx>, modsIn: map<Tx, Mod>, ghost before: set<Tx>) returns (mods: map<Tx, Mod>)
      requires pool.Valid() && it in added && it in pool.ancestors && it !in before
      requires ModOk(pool, before, modsIn)
      ensures it in pool.size && it in pool.sigops
      ensures pool.Descendants(it) - added <= pool.sizeWithAncestors.Keys
      ensures pool.Descendants(it) - added <= pool.sigopsWithAncestors.Keys
      ensures mods == Accounted(pool, modsIn, it, pool.Descendants(it) - added)
    {
      hide Pool.Valid, ModOk, Total;
      PoolKeys(pool);
      mods := modsIn;
      var todo := pool.Descendants(it) - added;
      ghost var handled: set<Tx> := {};
      assert Accounted(pool, modsIn, it, {}) == modsIn;
      while todo != {}
        invariant handled + todo == pool.Descendants(it) - added && handled !! todo
        invariant mods == Accounted(pool, modsIn, it, handled)
        decreases todo
      {
        var desc :| desc in todo;
        NoUnderflow(desc, it, modsIn, before);
        AccountedOne(pool, modsIn, it, handled, desc);
        var e := if desc in mods then mods[desc] else Mod(pool.sizeWithAncestors[desc], pool.sigopsWithAncestors[desc]);
        assert e.size >= pool.size[it] && e.sigops >= pool.sigops[it];
        mods := mods[desc := Mod(e.size - pool.size[it], e.sigops - pool.sigops[it])];
        todo, handled := todo - {desc}, handled + {desc};
      }
      assert handled == pool.Descendants(it) - added;
    }

    /** Unsigned sizes do not wrap: what is subtracted is still part of the figure. */
    lemma NoUnderflow(d: Tx, it: Tx, mods: map<Tx, Mod>, before: set<Tx>)
      requires pool.Valid() && ModOk(pool, before, mods) && it !in before
      requires d in pool.ancestors && it in pool.ancestors && it in pool.ancestors[d]
      ensures Base(pool, mods, d).size >= pool.size[it] && Base(pool, mods, d).sigops >= pool.sigops[it]
    {
      hide Total, Base, ModOk, Pool.Acyclic, Pool.Cached;
      BaseBound(pool, before, mods, d);
      TotalRemove(pool.size, pool.Package(before, d), it);
      TotalRemove(pool.sigops, pool.Package(before, d), it);
    }

    /** Brings the modified set up to date with the package just added. */
    method UpdatePackagesForAdded(added: set<Tx>, modsIn: map<Tx, Mod>, ghost before: set<Tx>) returns (mods: map<Tx, Mod>)
      requires pool.Valid() && added <= pool.Txs() && added !! before && added !! modsIn.Keys
      requires ModOk(pool, before, modsIn)
      requires forall d :: d in before && d in pool.ancestors ==> pool.ancestors[d] !! added
      ensures mods == Updated(pool, modsIn, added, added) && ModOk(pool, before + added, mods)
    {
      hide Pool.Acyclic, Pool.Measured, Pool.Cached, ModOk, Updated, Accounted, Pool.Descendants;
      mods := modsIn;
      var todo := added;
      ghost var done: set<Tx> := {};
      UpdatedStart(pool, before, modsIn, added);
      while todo != {}
        invariant done + todo == added && done !! todo
        invariant mods == Updated(pool, modsIn, done, added)
        decreases todo
      {
        var it :| it in todo;
        UpdatedKeeps(pool, before, modsIn, done, added);
        AccountedUpdates(pool, modsIn, done, it, added);
        mods := AccountFor(it, added, mods, before + done);
        todo, done := todo - {it}, done + {it};
      }
      assert done == added;
      UpdatedKeeps(pool, before, modsIn, added, added);
    }

    /** Adds a package in sorted order and takes it out of the modified set. */
    method AddPackage(t: Tx, package: set<Tx>, modsIn: map<Tx, Mod>) returns (mods: map<Tx, Mod>)
      requires Valid() && t in pool.ancestors && t !in inBlock && package == pool.Package(inBlock, t)
      modifies this
      ensures Valid() && inBlock == old(inBlock) + package && old(block) <= block
      ensures mods == modsIn - package
    {
      hide Ordered, Distinct, Members, Pool.Valid, Pool.Package, ByCount, Total;
      PackageSet(t, package);
      var sorted := SortForBlock(package);
      mods := modsIn;
      ghost var was := inBlock;
      assert sorted[..0] == [];
      EmptyOrder(pool.countWithAncestors, {});
      for i := 0 to |sorted|
        invariant Valid() && inBlock == was + Members(sorted[..i]) && old(block) <= block
        invariant mods == modsIn - Members(sorted[..i])
      {
        ParentsFirst(pool, was, t, sorted, i);
        Prefix(sorted, i);
        AddToBlock(sorted[i]);
        mods := mods - {sorted[i]};
      }
      assert sorted[..|sorted|] == sorted;
    }

    lemma PackageSet(t: Tx, package: set<Tx>)
      requires pool.Valid() && t in pool.ancestors && t !in inBlock && package == pool.Package(inBlock, t)
      ensures package <= pool.Txs() && package !! inBlock && t in package && package <= pool.ancestors[t] + {t}
    {
      hide Pool.Measured, Pool.Cached;
    }

    lemma Prefix(sorted: seq<Tx>, i: nat)
      requires Distinct(sorted) && i < |sorted|
      ensures Members(sorted[..i + 1]) == Members(sorted[..i]) + {sorted[i]}
      ensures sorted[i] !in Members(sorted[..i]) && sorted[i] in Members(sorted)
    {
      assert sorted[..i + 1] == sorted[..i] + [sorted[i]];
    }

    /** Whether an index entry has been dealt with already or has stale cached totals. */
    predicate SkipMapTxEntry(t: Tx, mods: map<Tx, Mod>, failed: set<Tx>)
      reads this
    {
      t in mods || t in inBlock || t in failed
    }

    /** One selected package: block, modified set and limits afterwards. */
    method SelectPackage(t: Tx, size: int, sigops: int, modsIn: map<Tx, Mod>, ghost failed: set<Tx>)
        returns (selected: bool, mods: map<Tx, Mod>)
      requires Valid() && ModOk(pool, inBlock, modsIn) && Untouched(pool, inBlock, modsIn, failed)
      requires t in pool.ancestors && t !in inBlock
      requires size >= Total(pool.size, pool.Package(inBlock, t)) && sigops >= Total(pool.sigops, pool.Package(inBlock, t))
      requires TestPackage(size, sigops)
      modifies this
      ensures Valid() && old(block) <= block && ModOk(pool, inBlock, mods) && Untouched(pool, inBlock, mods, failed)
      ensures !selected ==> mods == modsIn && block == old(block) && inBlock == old(inBlock)
                            && nBlockWeight == old(nBlockWeight) && nBlockSigOpsCost == old(nBlockSigOpsCost)
      ensures selected ==> old(inBlock) + {t} <= inBlock
      ensures old(WithinLimits()) || selected ==> WithinLimits()
      ensures selected ==> forall u :: u in inBlock - old(inBlock) ==> eligible(u)
      ensures nBlockWeight >= old(nBlockWeight) && nBlockSigOpsCost >= old(nBlockSigOpsCost)
      ensures pool.Cached() && (Capped(pool, modsIn) ==> Capped(pool, mods))
      ensures old(Precise(pool, inBlock, modsIn, failed)) ==> Precise(pool, inBlock, mods, failed)
      ensures Capped(pool, modsIn) ==> forall u :: u in modsIn ==> u in mods || u in inBlock
      ensures !selected ==> exists u :: u in pool.ancestors[t] + {t} && !eligible(u)
    {
      hide Ordered, Distinct, Members, ModOk, Untouched, Updated, Precise, Pool.Acyclic, Pool.Measured, Pool.Cached, Pool.Package, Total;
      var package := pool.Package(inBlock, t);
      PackageSet(t, package);
      if !forall u :: u in package ==> eligible(u) {
        ghost var u :| u in package && !eligible(u);
        assert u in pool.ancestors[t] + {t};
        return false, modsIn;
      }
      ghost var was := inBlock;
      BlockClosed(package);
      StaysWithin(pool, was, package, nBlockMaxWeight, size, sigops);
      UntouchedAfter(pool, was, modsIn, failed, package);
      if Precise(pool, was, modsIn, failed) {
        PreciseAfter(pool, was, modsIn, failed, package);
      }
      ModShrinks(pool, was, modsIn, package);
      mods := AddPackage(t, package, modsIn);
      TotalGrows(was, package);
      Kept(was, modsIn, package);
      mods := UpdatePackagesForAdded(package, mods, was);
      selected := true;
    }

    /** Running totals only grow. */
    lemma TotalGrows(was: set<Tx>, package: set<Tx>)
      requires was !! package
      ensures Total(pool.weight, was) <= Total(pool.weight, was + package)
      ensures Total(pool.sigops, was) <= Total(pool.sigops, was + package)
    {
      TotalSplit(pool.weight, was, package);
      TotalSplit(pool.sigops, was, package);
    }

    /** Modified entries outside the package stay modified and capped. */
    lemma Kept(was: set<Tx>, mods: map<Tx, Mod>, package: set<Tx>)
      requires pool.Cached() && ModOk(pool, was, mods)
      ensures Capped(pool, mods) ==> Capped(pool, Updated(pool, mods - package, package, package))
      ensures Capped(pool, mods) ==>
                forall u :: u in mods && u !in package ==> u in Updated(pool, mods - package, package, package)
    {
      hide Total, Updated, Pool.Acyclic, Pool.Measured;
      if Capped(pool, mods) {
        CappedShrinks(pool, mods, package);
        CappedUpdated(pool, mods - package, package, package);
      }
    }

    lemma BlockClosed(package: set<Tx>)
      requires Valid() && package !! inBlock
      ensures forall d :: d in inBlock && d in pool.ancestors ==> pool.ancestors[d] !! package
    {
      hide Ordered, Distinct, Members, Pool.Acyclic, Pool.Measured, Pool.Cached, Total;
      forall d | d in inBlock && d in pool.ancestors
        ensures pool.ancestors[d] !! package
      {
        Closed(pool, block, d);
      }
    }

    /** The next package to consider: any modified entry, or the next one of the index. */
    method NextCandidate(mi: nat, mods: map<Tx, Mod>, ghost failed: set<Tx>)
        returns (t: Tx, size: int, sigops: int, fUsingModified: bool)
      requires Valid() && mi <= |order| && (mi < |order| || mods != map[])
      requires ModOk(pool, inBlock, mods) && Untouched(pool, inBlock, mods, failed)
      requires mi < |order| ==> !SkipMapTxEntry(order[mi], mods, failed)
      ensures t in pool.ancestors && t !in inBlock
      ensures size >= Total(pool.size, pool.Package(inBlock, t)) && sigops >= Total(pool.sigops, pool.Package(inBlock, t))
      ensures if fUsingModified then t in mods else mi < |order| && t == order[mi]
      ensures pool.Cached()
      ensures Capped(pool, mods) ==> size <= pool.sizeWithAncestors[t] && sigops <= pool.sigopsWithAncestors[t]
      ensures Precise(pool, inBlock, mods, failed) && t !in failed ==>
                size == Total(pool.size, pool.Package(inBlock, t)) && sigops == Total(pool.sigops, pool.Package(inBlock, t))
    {
      hide Ordered, Distinct, Members, ModOk, Untouched, Pool.Acyclic, Pool.Measured, Pool.Cached, Pool.Package, Total;
      var modifiedIsBetter: bool := *;
      fUsingModified := mi == |order| || (mods != map[] && modifiedIsBetter);
      if fUsingModified {
        t :| t in mods;
        size, sigops := mods[t].size, mods[t].sigops;
        ModEntry(t, mods);
      } else {
        t := order[mi];
        CachedExact(pool, inBlock, mods, failed, t);
        size, sigops := pool.sizeWithAncestors[t], pool.sigopsWithAncestors[t];
      }
    }

    ghost function Left(): Room
      reads this
    {
      Room(nBlockWeight, nBlockSigOpsCost, nBlockMaxWeight)
    }

    /** What holds between two rounds; `pending` is the candidate being looked at, if any. */
    ghost predicate Selecting(mi: nat, mods: map<Tx, Mod>, failed: set<Tx>, pending: set<Tx>)
      reads this
    {
      && Valid() && WithinLimits() && mi <= |order|
      && ModOk(pool, inBlock, mods) && Untouched(pool, inBlock, mods, failed)
      && inBlock <= pool.Txs() && (forall t :: t in inBlock ==> eligible(t))
      && pool.Cached() && Capped(pool, mods) && Precise(pool, inBlock, mods, failed)
      && Covered(pool, eligible, Left(), order, mi, inBlock, mods.Keys, failed, pending)
    }

    /** One candidate is tested and selected or turned down. */
    method Consider(t: Tx, size: int, sigops: int, fUsingModified: bool, ghost mi: nat, modsIn: map<Tx, Mod>, failedIn: set<Tx>)
      returns (tested: bool, selected: bool, mods: map<Tx, Mod>, failed: set<Tx>)
      requires Selecting(mi, modsIn, failedIn, if fUsingModified then {} else {t})
      requires t in pool.ancestors && t !in inBlock && (fUsingModified ==> t in modsIn)
      requires size >= Total(pool.size, pool.Package(inBlock, t)) && sigops >= Total(pool.sigops, pool.Package(inBlock, t))
      requires size <= pool.sizeWithAncestors[t] && sigops <= pool.sigopsWithAncestors[t]
      modifies this
      ensures Selecting(mi, mods, failed, {})
      ensures tested == old(TestPackage(size, sigops)) && (selected ==> tested)
      ensures selected ==> |pool.Txs()| - |inBlock| < |pool.Txs()| - |old(inBlock)|
      ensures !selected ==> inBlock == old(inBlock) && Left() == old(Left())
      ensures !selected ==> mods == (if fUsingModified then modsIn - {t} else modsIn)
                            && failed == (if fUsingModified then failedIn + {t} else failedIn)
      ensures !tested ==> pool.Cached() && Oversized(pool, Left(), t)
    {
      hide Valid, WithinLimits, TestPackage, Fits, ModOk, Untouched, Updated, Pool.Valid, Pool.Cached, Pool.Package, Total, TurnedDown, Capped, Covered, Precise;
      mods, failed := modsIn, failedIn;
      tested, selected := TestPackage(size, sigops), false;
      ghost var pending: set<Tx> := if fUsingModified then {} else {t};
      if tested {
        ghost var was, left := inBlock, Left();
        selected, mods := SelectPackage(t, size, sigops, modsIn, failedIn);
        if selected {
          Grown(was, t);
          CoveredGrow(pool, eligible, left, Left(), order, mi, was, modsIn.Keys, inBlock, mods.Keys, failed, pending);
          return;
        }
        Ineligible(t);
      } else {
        TooBig(t, size, sigops);
      }
      CoveredDown(pool, eligible, Left(), order, mi, inBlock, mods.Keys, failed, pending, t);
      if fUsingModified {
        Rejected(t, mods, failed);
        CappedShrinks(pool, mods, {t});
        PreciseShrinks(pool, inBlock, mods, {t}, failed, {t});
        assert (mods - {t}).Keys == mods.Keys - {t};
        mods, failed := mods - {t}, failed + {t};
      }
    }

    /**
     Package selection.  It terminates, and the block it leaves has no duplicates, holds
     every transaction after its ancestors, contains only eligible transactions and
     respects both limits.  Unless it gave up close to the weight limit, every transaction
     left out would exceed a limit together with its ancestors or has an ineligible one
     among them.  It gives up exactly after more than a thousand candidates in a row that are
     too large for the block, so never with a smaller pool.
     */
    method AddPackageTxs() returns (gaveUp: bool, ghost failures: seq<Tx>)
      requires Valid() && block == []
      modifies this
      ensures Valid() && WithinLimits() && pool.Cached() && forall t :: t in inBlock ==> eligible(t)
      ensures !gaveUp ==> forall i :: 0 <= i < |order| ==> order[i] in inBlock || Down(order[i])
      ensures gaveUp <==> nBlockWeight > nBlockMaxWeight - 4000 && |failures| > 1000
      ensures forall k :: 0 <= k < |failures| ==> Oversized(pool, Left(), failures[k])
      ensures Distinct(order) ==> Distinct(failures)
      ensures Distinct(order) && |pool.Txs()| <= 1000 ==> !gaveUp
    {
      hide Valid, WithinLimits, ModOk, Untouched, Updated, Pool.Valid, Pool.Cached, Total, Capped, Covered, Failing, Precise;
      var mods: map<Tx, Mod> := map[];
      var failed: set<Tx> := {};
      var mi := 0;
      var nConsecutiveFailed := 0;
      gaveUp, failures := false, [];
      Started();
      mods := UpdatePackagesForAdded(inBlock, mods, {});
      StartedCapped(mods);
      StartedCovered(mods);
      NoFailures(pool, Left(), order, mi, mods.Keys, failed);
      SubsetSize(inBlock, pool.Txs());
      hide Selecting;
      while !gaveUp && (mi < |order| || mods != map[])
        invariant 0 <= mi <= |order| && Selecting(mi, mods, failed, {}) && |inBlock| <= |pool.Txs()| && pool.Cached()
        invariant Failing(pool, Left(), failures, order, mi, mods.Keys, failed) && nConsecutiveFailed == |failures|
        invariant gaveUp <==> nBlockWeight > nBlockMaxWeight - 4000 && |failures| > 1000
        decreases !gaveUp, |pool.Txs()| - |inBlock|, |order| - mi + |mods.Keys|
      {
        mi, mods, failed, nConsecutiveFailed, gaveUp, failures := Round(mi, mods, failed, nConsecutiveFailed, failures);
      }
      FailuresSummed(failures, mi, mods.Keys, failed);
      SelectedSo(mi, mods, failed);
      if !gaveUp {
        CoveredEnd(mods, failed);
      }
    }

    /** One round of the loop: an entry of the index is passed over, or a candidate considered. */
    method Round(mi0: nat, mods0: map<Tx, Mod>, failed0: set<Tx>, nFailed0: nat, ghost failures0: seq<Tx>)
      returns (mi: nat, mods: map<Tx, Mod>, failed: set<Tx>, nFailed: nat, giveUp: bool, ghost failures: seq<Tx>)
      requires mi0 <= |order| && (mi0 < |order| || mods0 != map[]) && Selecting(mi0, mods0, failed0, {}) && pool.Cached()
      requires Failing(pool, Left(), failures0, order, mi0, mods0.Keys, failed0) && nFailed0 == |failures0|
      requires !(nBlockWeight > nBlockMaxWeight - 4000 && |failures0| > 1000)
      modifies this
      ensures mi <= |order| && Selecting(mi, mods, failed, {}) && |inBlock| <= |pool.Txs()|
      ensures Failing(pool, Left(), failures, order, mi, mods.Keys, failed) && nFailed == |failures|
      ensures giveUp <==> nBlockWeight > nBlockMaxWeight - 4000 && |failures| > 1000
      ensures |inBlock| > |old(inBlock)| || (inBlock == old(inBlock) && |order| - mi + |mods.Keys| < |order| - mi0 + |mods0.Keys|)
    {
      hide Selecting, Valid, TestPackage, ModOk, Untouched, Pool.Valid, Pool.Cached, Pool.Package, Total, Capped, Covered, Failing, Oversized;
      mi, mods, failed, nFailed, giveUp, failures := mi0, mods0, failed0, nFailed0, false, failures0;
      ShownSize(mi, mods, failed);
      if mi < |order| {
        NextInIndex(mi, mods, failed);
      }
      if mi < |order| && SkipMapTxEntry(order[mi], mods, failed) {
        FailingOn(pool, Left(), failures, order, mi, mi + 1, mods.Keys, mods.Keys, failed, failed);
        mi := mi + 1;
        return;
      }
      var t, size, sigops, fUsingModified := NextCandidate(mi, mods, failed);
      if !fUsingModified {
        mi := mi + 1;
      }
      var tested, selected;
      tested, selected, mods, failed := Consider(t, size, sigops, fUsingModified, mi, mods, failed);
      ShownSize(mi, mods, failed);
      if selected {
        nFailed, failures := 0, [];
        NoFailures(pool, Left(), order, mi, mods.Keys, failed);
        return;
      }
      Shrunk(t, mods0.Keys, mods.Keys, fUsingModified);
      if tested {
        FailingOn(pool, Left(), failures, order, mi0, mi, mods0.Keys, mods.Keys, failed0, failed);
        return;
      }
      FailingMore(pool, Left(), failures, order, mi0, mi, mods0.Keys, mods.Keys, failed0, failed, t);
      nFailed, failures := nFailed + 1, failures + [t];
      giveUp := nFailed > MAX_CONSECUTIVE_FAILURES && nBlockWeight > nBlockMaxWeight - 4000;
    }

    /** The next entry of the index is settled already, or becomes the one being looked at. */
    lemma NextInIndex(mi: nat, mods: map<Tx, Mod>, failed: set<Tx>)
      requires Selecting(mi, mods, failed, {}) && mi < |order|
      ensures Selecting(mi + 1, mods, failed, {order[mi]})
      ensures SkipMapTxEntry(order[mi], mods, failed) ==> Selecting(mi + 1, mods, failed, {})
    {
      hide Valid, WithinLimits, ModOk, Untouched, Pool.Cached, Capped, Covered, Precise;
      CoveredNext(pool, eligible, Left(), order, mi, inBlock, mods.Keys, failed);
    }

    lemma ShownSize(mi: nat, mods: map<Tx, Mod>, failed: set<Tx>)
      requires Selecting(mi, mods, failed, {})
      ensures |inBlock| <= |pool.Txs()| && Valid() && mi <= |order|
      ensures ModOk(pool, inBlock, mods) && Untouched(pool, inBlock, mods, failed) && pool.Cached() && Capped(pool, mods)
    {
      hide Valid, WithinLimits, ModOk, Untouched, Pool.Cached, Capped, Covered, Precise;
      SubsetSize(inBlock, pool.Txs());
    }

    lemma SelectedSo(mi: nat, mods: map<Tx, Mod>, failed: set<Tx>)
      requires Selecting(mi, mods, failed, {})
      ensures Valid() && WithinLimits() && pool.Cached() && mi <= |order| && forall t :: t in inBlock ==> eligible(t)
      ensures Covered(pool, eligible, Left(), order, mi, inBlock, mods.Keys, failed, {})
    {
      hide Valid, WithinLimits, ModOk, Untouched, Pool.Cached, Capped, Covered, Precise;
    }

    lemma Shrunk(t: Tx, modified: set<Tx>, modified': set<Tx>, fUsingModified: bool)
      requires modified' == if fUsingModified then modified - {t} else modified
      ensures modified' <= modified && |modified'| <= |modified|
      ensures fUsingModified && t in modified ==> |modified'| < |modified|
    {
    }

    lemma FailuresSummed(failures: seq<Tx>, mi: nat, modified: set<Tx>, failed: set<Tx>)
      requires pool.Cached() && mi <= |order| && Failing(pool, Left(), failures, order, mi, modified, failed)
      ensures forall k :: 0 <= k < |failures| ==> Oversized(pool, Left(), failures[k])
      ensures Distinct(order) ==> Distinct(failures) && |failures| <= |pool.Txs()|
    {
      hide Pool.Cached, Oversized, Distinct;
      if Distinct(order) {
        FailuresFit(pool, Left(), failures, order, mi, modified, failed);
      }
    }

    /** Turned down by the block as it stands. */
    ghost predicate Down(t: Tx)
      requires pool.Cached()
      reads this
    {
      TurnedDown(pool, eligible, Left(), t)
    }

    lemma StartedCovered(mods: map<Tx, Mod>)
      requires pool.Cached()
      ensures Covered(pool, eligible, Left(), order, 0, inBlock, mods.Keys, {}, {})
    {
    }

    /** At the end of the index with nothing modified, all is decided. */
    lemma CoveredEnd(mods: map<Tx, Mod>, failed: set<Tx>)
      requires pool.Cached() && mods == map[] && Covered(pool, eligible, Left(), order, |order|, inBlock, mods.Keys, failed, {})
      ensures forall i :: 0 <= i < |order| ==> order[i] in inBlock || Down(order[i])
    {
      hide TurnedDown, Pool.Cached;
    }

    lemma TooBig(t: Tx, size: int, sigops: int)
      requires pool.Cached() && t in pool.ancestors && !TestPackage(size, sigops)
      requires size <= pool.sizeWithAncestors[t] && sigops <= pool.sigopsWithAncestors[t]
      ensures Oversized(pool, Left(), t) && Down(t)
    {
    }

    lemma Ineligible(t: Tx)
      requires pool.Cached() && t in pool.ancestors && exists u :: u in pool.ancestors[t] + {t} && !eligible(u)
      ensures Down(t)
    {
    }

    lemma StartedCapped(mods: map<Tx, Mod>)
      requires pool.Valid() && mods == Updated(pool, map[], {}, {})
      ensures pool.Cached() && Capped(pool, mods) && Precise(pool, {}, mods, {})
    {
      hide Total, Pool.Acyclic, Pool.Measured;
    }

    lemma Started()
      requires Valid() && block == []
      ensures inBlock == {} && WithinLimits() && ModOk(pool, {}, map[]) && pool.Valid()
      ensures forall mods: map<Tx, Mod> :: Untouched(pool, inBlock, mods, {})
    {
      hide Pool.Acyclic, Pool.Measured, Pool.Cached, Ordered;
    }

    lemma ModEntry(t: Tx, mods: map<Tx, Mod>)
      requires ModOk(pool, inBlock, mods)
      ensures t in mods ==>
                && t in pool.ancestors && t !in inBlock
                && mods[t].size >= Total(pool.size, pool.Package(inBlock, t))
                && mods[t].sigops >= Total(pool.sigops, pool.Package(inBlock, t))
    {
    }

    lemma Rejected(t: Tx, mods: map<Tx, Mod>, failed: set<Tx>)
      requires t in mods && ModOk(pool, inBlock, mods) && Untouched(pool, inBlock, mods, failed)
      ensures ModOk(pool, inBlock, mods - {t}) && Untouched(pool, inBlock, mods - {t}, failed + {t})
      ensures |(mods - {t}).Keys| < |mods.Keys|
    {
      ModShrinks(pool, inBlock, mods, {t});
      hide ModOk, Total;
      assert (mods - {t}).Keys == mods.Keys - {t};
    }

    /** Each selection brings the block strictly closer to holding the whole mempool. */
    lemma Grown(was: set<Tx>, t: Tx)
      requires Valid() && was + {t} <= inBlock && t !in was
      ensures inBlock <= pool.Txs() && |pool.Txs()| - |inBlock| < |pool.Txs()| - |was|
    {
      hide Distinct, Pool.Acyclic, Pool.Measured, Pool.Cached, Total;
      SubsetSize(was + {t}, inBlock);
      forall u | u in inBlock
        ensures u in pool.Txs()
      {
        Closed(pool, block, u);
      }
    }
  }
}
