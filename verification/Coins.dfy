/**
 The layered cache of unspent transaction outputs (src/coins.h, src/coins.cpp).

 A stack of caches sits on top of the coin database.  Every cache entry carries a
 DIRTY flag (differs from the view below) and a FRESH flag (the view below has no
 unspent coin here), which lets a coin that was created and spent inside one
 cache vanish without a trace.  The reference model is one flat map of unspent
 coins per level; `CoinsStack.Run` proves that no run can tell the two apart.
 */
module Coins {
  import opened Prelude

  const OP_RETURN := 0x6a
  const MAX_SCRIPT_SIZE := 10000

  datatype OutPoint = OutPoint(hash: nat, n: nat)

  datatype TxOut = TxOut(value: int, script: seq<int>) {
    predicate IsNull() { value == -1 }

    predicate IsUnspendable() {
      (|script| > 0 && script[0] == OP_RETURN) || |script| > MAX_SCRIPT_SIZE
    }
  }

  datatype Coin = Coin(out: TxOut, coinBase: bool, height: nat, coinStake: bool, time: int) {
    predicate IsSpent() { out.IsNull() }
  }

  /** What AddCoins uses of a transaction. */
  datatype Transaction = Transaction(hash: nat, vout: seq<TxOut>, isCoinBase: bool, isCoinStake: bool, time: int)

  const EmptyCoin := Coin(TxOut(-1, []), false, 0, false, 0)

  datatype CacheEntry = CacheEntry(coin: Coin, isDirty: bool, isFresh: bool)

  type CoinsMap = map<OutPoint, CacheEntry>

  /** The unspent coins of a view, as one flat map. */
  type Utxo = map<OutPoint, Coin>

  // ----- what a stack of caches means -----

  /** The view obtained by putting `cache` on top of `base`. */
  function Overlay(base: Utxo, cache: CoinsMap): Utxo {
    map op | op in base.Keys + cache.Keys
             && (op in cache ==> !cache[op].coin.IsSpent())
      :: if op in cache then cache[op].coin else base[op]
  }

  function View(disk: Utxo, layers: seq<CoinsMap>): Utxo {
    if layers == [] then disk
    else Overlay(View(disk, layers[..|layers| - 1]), layers[|layers| - 1])
  }

  ghost predicate Unspent(u: Utxo) {
    forall op :: op in u ==> !u[op].IsSpent()
  }

  /** What the two flags promise about one entry. */
  ghost predicate EntrySound(base: Utxo, op: OutPoint, e: CacheEntry) {
    && (e.isFresh ==> op !in base)
    && (!e.isDirty ==> if e.coin.IsSpent() then op !in base else op in base && base[op] == e.coin)
  }

  ghost predicate Sound(base: Utxo, cache: CoinsMap) {
    forall op :: op in cache ==> EntrySound(base, op, cache[op])
  }

  ghost predicate StackSound(disk: Utxo, layers: seq<CoinsMap>) {
    && Unspent(disk)
    && forall k :: 0 <= k < |layers| ==> Sound(View(disk, layers[..k]), layers[k])
  }

  /** The flat view under each cache, and the top view last. */
  ghost function ViewsOf(disk: Utxo, layers: seq<CoinsMap>): (views: seq<Utxo>)
    ensures |views| == |layers| + 1
  {
    if layers == [] then [disk]
    else ViewsOf(disk, layers[..|layers| - 1]) + [View(disk, layers)]
  }

  lemma {:induction false} ViewsIndex(disk: Utxo, layers: seq<CoinsMap>, k: nat)
    requires k <= |layers|
    ensures ViewsOf(disk, layers)[k] == View(disk, layers[..k])
  {
    hide View;
    if k < |layers| {
      ViewsIndex(disk, layers[..|layers| - 1], k);
      assert layers[..|layers| - 1][..k] == layers[..k];
    } else {
      assert layers[..k] == layers;
      assert layers == [] ==> View(disk, layers) == disk by { ViewEmpty(disk); }
    }
  }

  lemma ViewEmpty(disk: Utxo)
    ensures View(disk, []) == disk
  {
  }

  lemma {:induction false} ViewUnspent(disk: Utxo, layers: seq<CoinsMap>)
    requires Unspent(disk)
    ensures Unspent(View(disk, layers))
  {
    if layers != [] {
      ViewUnspent(disk, layers[..|layers| - 1]);
    }
  }

  /** Rewriting one layer without changing its own view is invisible from every level. */
  lemma {:induction false} ReplaceLayer(disk: Utxo, layers: seq<CoinsMap>, k: nat, cache: CoinsMap, j: nat)
    requires k < |layers| && j <= |layers|
    requires Overlay(View(disk, layers[..k]), cache) == Overlay(View(disk, layers[..k]), layers[k])
    ensures View(disk, layers[k := cache][..j]) == View(disk, layers[..j])
  {
    hide Overlay;
    var layers' := layers[k := cache];
    if j <= k {
      assert layers'[..j] == layers[..j];
    } else {
      ReplaceLayer(disk, layers, k, cache, j - 1);
      assert layers[..j][..j - 1] == layers[..j - 1];
      assert layers'[..j][..j - 1] == layers'[..j - 1];
    }
  }

  lemma ReplaceLayerSound(disk: Utxo, layers: seq<CoinsMap>, k: nat, cache: CoinsMap)
    requires StackSound(disk, layers) && k < |layers|
    requires Overlay(View(disk, layers[..k]), cache) == Overlay(View(disk, layers[..k]), layers[k])
    requires Sound(View(disk, layers[..k]), cache)
    ensures StackSound(disk, layers[k := cache])
    ensures ViewsOf(disk, layers[k := cache]) == ViewsOf(disk, layers)
  {
    hide View, Overlay, ViewsOf, Sound, Unspent;
    var layers' := layers[k := cache];
    forall j | 0 <= j <= |layers|
      ensures View(disk, layers'[..j]) == View(disk, layers[..j])
      ensures ViewsOf(disk, layers')[j] == ViewsOf(disk, layers)[j]
    {
      ReplaceLayer(disk, layers, k, cache, j);
      ViewsIndex(disk, layers, j);
      ViewsIndex(disk, layers', j);
    }
  }

  /** A stack is its lower part with one more cache on top. */
  lemma PushedViews(disk: Utxo, layers: seq<CoinsMap>, cache: CoinsMap)
    ensures View(disk, layers + [cache]) == Overlay(View(disk, layers), cache)
    ensures ViewsOf(disk, layers + [cache]) == ViewsOf(disk, layers) + [Overlay(View(disk, layers), cache)]
  {
    hide Overlay;
    var all := layers + [cache];
    assert all[..|all| - 1] == layers;
  }

  lemma PushedSound(disk: Utxo, layers: seq<CoinsMap>, cache: CoinsMap)
    ensures StackSound(disk, layers + [cache]) <==> StackSound(disk, layers) && Sound(View(disk, layers), cache)
  {
    hide View, Sound, Unspent;
    var n, all := |layers|, layers + [cache];
    assert all[..n] == layers;
    assert forall j :: 0 <= j < n ==> all[..j] == layers[..j] && all[j] == layers[j];
    if StackSound(disk, all) {
      assert Sound(View(disk, all[..n]), all[n]);
      forall j | 0 <= j < n
        ensures Sound(View(disk, layers[..j]), layers[j])
      {
        assert Sound(View(disk, all[..j]), all[j]);
      }
    }
  }

  lemma Pushed(disk: Utxo, layers: seq<CoinsMap>, cache: CoinsMap)
    ensures View(disk, layers + [cache]) == Overlay(View(disk, layers), cache)
    ensures ViewsOf(disk, layers + [cache]) == ViewsOf(disk, layers) + [Overlay(View(disk, layers), cache)]
    ensures StackSound(disk, layers + [cache]) <==> StackSound(disk, layers) && Sound(View(disk, layers), cache)
  {
    hide *;
    PushedViews(disk, layers, cache);
    PushedSound(disk, layers, cache);
  }

  lemma OverlayNothing(u: Utxo)
    ensures Overlay(u, map[]) == u && Sound(u, map[])
  {
  }

  /** Taking the top cache apart from the rest. */
  lemma Split(disk: Utxo, layers: seq<CoinsMap>)
    requires layers != []
    ensures layers == layers[..|layers| - 1] + [layers[|layers| - 1]]
    ensures Top(ViewsOf(disk, layers)) == Overlay(View(disk, layers[..|layers| - 1]), layers[|layers| - 1])
    ensures ViewsOf(disk, layers) == ViewsOf(disk, layers[..|layers| - 1]) + [Top(ViewsOf(disk, layers))]
    ensures Top(ViewsOf(disk, layers[..|layers| - 1])) == View(disk, layers[..|layers| - 1])
    ensures StackSound(disk, layers) <==>
              StackSound(disk, layers[..|layers| - 1]) && Sound(View(disk, layers[..|layers| - 1]), layers[|layers| - 1])
  {
    var lower := layers[..|layers| - 1];
    assert layers == lower + [layers[|layers| - 1]];
    Pushed(disk, lower, layers[|layers| - 1]);
    assert lower[..|lower|] == lower;
    ViewsIndex(disk, lower, |lower|);
  }

  /** Changing the top layer changes the top view and no other. */
  lemma ReplaceTop(disk: Utxo, layers: seq<CoinsMap>, cache: CoinsMap)
    requires StackSound(disk, layers) && layers != []
    requires Sound(View(disk, layers[..|layers| - 1]), cache)
    ensures var layers' := layers[|layers| - 1 := cache];
            && StackSound(disk, layers')
            && ViewsOf(disk, layers')
               == SetTop(ViewsOf(disk, layers), Overlay(View(disk, layers[..|layers| - 1]), cache))
  {
    hide StackSound, View, Overlay, Sound, ViewsOf;
    Split(disk, layers);
    assert layers[|layers| - 1 := cache] == layers[..|layers| - 1] + [cache];
    Pushed(disk, layers[..|layers| - 1], cache);
  }

  /** Flushing the top cache `child` into the one below, `parent`, and clearing it. */
  lemma FlushTop(disk: Utxo, lower: seq<CoinsMap>, parent: CoinsMap, child: CoinsMap)
    requires StackSound(disk, lower + [parent] + [child])
    ensures forall op :: op in child ==> !Misapplied(Lookup(parent, op), child[op])
    ensures StackSound(disk, lower + [Merged(parent, child)] + [map[]])
    ensures ViewsOf(disk, lower + [Merged(parent, child)] + [map[]])
            == FlushedViews(ViewsOf(disk, lower + [parent] + [child]))
  {
    hide StackSound, View, Overlay, Sound, ViewsOf, Merged, Misapplied;
    var base := View(disk, lower);
    var merged := Merged(parent, child);
    Pushed(disk, lower, parent);
    Pushed(disk, lower + [parent], child);
    MergedRefines(base, parent, child);
    Pushed(disk, lower, merged);
    Pushed(disk, lower + [merged], map[]);
    OverlayNothing(Overlay(base, merged));
  }

  /** Flushing the only cache into the database. */
  lemma FlushLast(disk: Utxo, child: CoinsMap)
    requires StackSound(disk, [child])
    ensures StackSound(Written(disk, child), [map[]])
    ensures ViewsOf(Written(disk, child), [map[]]) == FlushedViews(ViewsOf(disk, [child]))
  {
    var disk' := Written(disk, child);
    assert [] + [child] == [child];
    Pushed(disk, [], child);
    WrittenRefines(disk, child);
    var none: CoinsMap := map[];
    assert [] + [none] == [none];
    Pushed(disk', [], none);
    OverlayNothing(disk');
  }

  // ----- one cache over one base view -----

  /** FetchCoin: the cache after looking `op` up through it. */
  function Fetched(base: Utxo, cache: CoinsMap, op: OutPoint): CoinsMap {
    if op in cache || op !in base then cache
    else cache[op := CacheEntry(base[op], false, base[op].IsSpent())]
  }

  lemma FetchedSameView(base: Utxo, cache: CoinsMap, op: OutPoint)
    requires Unspent(base) && Sound(base, cache)
    ensures Overlay(base, Fetched(base, cache, op)) == Overlay(base, cache)
    ensures Sound(base, Fetched(base, cache, op))
  {
  }

  /** AddCoin on one cache; None stands for the logic_error. */
  function Added(cache: CoinsMap, op: OutPoint, coin: Coin, overwrite: bool): Option<CoinsMap> {
    if coin.out.IsUnspendable() then Some(cache)
    else
      var e := if op in cache then cache[op] else CacheEntry(EmptyCoin, false, false);
      if !overwrite && !e.coin.IsSpent() then None
      else Some(cache[op := CacheEntry(coin, true, e.isFresh || (!overwrite && !e.isDirty))])
  }

  /**
   Without the overwrite flag, AddCoin keeps the flags truthful exactly when the
   entry was already DIRTY or the view below has no unspent coin there.
   */
  lemma AddedSoundIff(base: Utxo, cache: CoinsMap, op: OutPoint, coin: Coin, overwrite: bool)
    requires Sound(base, cache) && !coin.IsSpent() && !coin.out.IsUnspendable()
    requires Added(cache, op, coin, overwrite).Some?
    ensures Sound(base, Added(cache, op, coin, overwrite).value)
            <==> overwrite || (op in cache && cache[op].isDirty) || op !in base
  {
    var cache' := Added(cache, op, coin, overwrite).value;
    if overwrite || (op in cache && cache[op].isDirty) || op !in base {
      forall o | o in cache'
        ensures EntrySound(base, o, cache'[o])
      {
        assert o != op ==> o in cache && EntrySound(base, o, cache[o]);
      }
    } else {
      assert op in cache' && !EntrySound(base, op, cache'[op]);
    }
  }

  lemma AddedPromise(base: Utxo, cache: CoinsMap, op: OutPoint, coin: Coin, overwrite: bool)
    requires Sound(base, cache)
    requires overwrite || op !in Overlay(base, cache)
    ensures Added(cache, op, coin, overwrite).Some?
    ensures overwrite || (op in cache && cache[op].isDirty) || op !in base
  {
    assert op in cache ==> EntrySound(base, op, cache[op]);
  }

  lemma AddedView(base: Utxo, cache: CoinsMap, op: OutPoint, coin: Coin, overwrite: bool)
    requires !coin.IsSpent() && Added(cache, op, coin, overwrite).Some?
    ensures Overlay(base, Added(cache, op, coin, overwrite).value) == RefAdd(Overlay(base, cache), op, coin)
  {
  }

  /** A caller that keeps the promise never sees the logic_error and gets a plain map update. */
  lemma AddedRefines(base: Utxo, cache: CoinsMap, op: OutPoint, coin: Coin, overwrite: bool)
    requires Sound(base, cache) && !coin.IsSpent()
    requires overwrite || op !in Overlay(base, cache)
    ensures Added(cache, op, coin, overwrite).Some?
    ensures var cache' := Added(cache, op, coin, overwrite).value;
            Sound(base, cache') && Overlay(base, cache') == RefAdd(Overlay(base, cache), op, coin)
  {
    hide Sound, Overlay;
    AddedPromise(base, cache, op, coin, overwrite);
    AddedView(base, cache, op, coin, overwrite);
    if !coin.out.IsUnspendable() {
      AddedSoundIff(base, cache, op, coin, overwrite);
    }
  }

  /** SpendCoin on one cache, once FetchCoin has found the entry. */
  function Spent(cache: CoinsMap, op: OutPoint): CoinsMap
    requires op in cache
  {
    if cache[op].isFresh then cache - {op} else cache[op := CacheEntry(EmptyCoin, true, false)]
  }

  lemma SpentRefines(base: Utxo, cache: CoinsMap, op: OutPoint)
    requires Sound(base, cache) && op in cache
    ensures Sound(base, Spent(cache, op))
    ensures Overlay(base, Spent(cache, op)) == Overlay(base, cache) - {op}
    ensures op in Spent(cache, op) <==> !cache[op].isFresh
  {
    assert EntrySound(base, op, cache[op]);
  }

  /** Uncache drops only entries with no flag set, and those say nothing new. */
  function Uncached(cache: CoinsMap, op: OutPoint): CoinsMap {
    if op in cache && !cache[op].isDirty && !cache[op].isFresh then cache - {op} else cache
  }

  lemma UncachedSameView(base: Utxo, cache: CoinsMap, op: OutPoint)
    requires Sound(base, cache)
    ensures Sound(base, Uncached(cache, op))
    ensures Overlay(base, Uncached(cache, op)) == Overlay(base, cache)
    ensures op in Uncached(cache, op) ==> cache[op].isDirty || cache[op].isFresh
  {
    if op in cache {
      assert EntrySound(base, op, cache[op]);
    }
  }

  // ----- flushing one cache into the one below -----

  /** The logic_error of BatchWrite: a FRESH child entry over an unspent parent entry. */
  predicate Misapplied(ours: Option<CacheEntry>, e: CacheEntry) {
    e.isDirty && ours.Some? && e.isFresh && !ours.value.coin.IsSpent()
  }

  /** The parent's entry after BatchWrite saw the child's entry `e` for the same outpoint. */
  function MergedEntry(ours: Option<CacheEntry>, e: CacheEntry): Option<CacheEntry> {
    if !e.isDirty then ours
    else if ours.None? then
      if e.isFresh && e.coin.IsSpent() then None else Some(CacheEntry(e.coin, true, e.isFresh))
    else if ours.value.isFresh && e.coin.IsSpent() then None
    else Some(CacheEntry(e.coin, true, ours.value.isFresh))
  }

  function SetEntry<V>(m: map<OutPoint, V>, op: OutPoint, e: Option<V>): map<OutPoint, V> {
    if e.None? then m - {op} else m[op := e.value]
  }

  /** The parent after BatchWrite, key by key, in whatever order the entries come. */
  function Merged(parent: CoinsMap, child: CoinsMap): CoinsMap {
    map op | op in parent.Keys + child.Keys
             && (op in child ==> MergedEntry(Lookup(parent, op), child[op]).Some?)
      :: if op in child then MergedEntry(Lookup(parent, op), child[op]).value else parent[op]
  }

  /**
   What a batch entry does to the parent's: nothing unless it is dirty; a spent coin that no
   level below can know is forgotten, and every other one is kept as dirty, fresh exactly
   when nothing below the parent knows it.
   */
  lemma MergedEntryIs(ours: Option<CacheEntry>, e: CacheEntry)
    requires !Misapplied(ours, e)
    ensures !e.isDirty ==> MergedEntry(ours, e) == ours
    ensures e.isDirty ==>
              var unknown := if ours.None? then e.isFresh else ours.value.isFresh;
              && (MergedEntry(ours, e) == None <==> unknown && e.coin.IsSpent())
              && (MergedEntry(ours, e) != None ==>
                    && MergedEntry(ours, e).value.coin == e.coin && MergedEntry(ours, e).value.isDirty
                    && MergedEntry(ours, e).value.isFresh == unknown)
  {
  }

  /** BatchWrite handles its entries independently, so one more entry touches one more key. */
  lemma MergedOne(parent: CoinsMap, child: CoinsMap, op: OutPoint, e: CacheEntry)
    requires op !in child
    ensures Lookup(Merged(parent, child), op) == Lookup(parent, op)
    ensures Merged(parent, child[op := e])
            == SetEntry(Merged(parent, child), op, MergedEntry(Lookup(Merged(parent, child), op), e))
  {
    hide MergedEntry;
  }

  lemma MergedAt(base: Utxo, parent: CoinsMap, child: CoinsMap, op: OutPoint)
    requires Sound(base, parent) && Sound(Overlay(base, parent), child)
    requires op in child
    ensures !Misapplied(Lookup(parent, op), child[op])
    ensures op in Merged(parent, child) ==> EntrySound(base, op, Merged(parent, child)[op])
    ensures Lookup(Overlay(base, Merged(parent, child)), op) == Lookup(Overlay(Overlay(base, parent), child), op)
  {
    assert EntrySound(Overlay(base, parent), op, child[op]);
    assert op in parent ==> EntrySound(base, op, parent[op]);
  }

  /** Flushing moves all changes down one level: same view, truthful flags, no logic_error. */
  lemma MergedRefines(base: Utxo, parent: CoinsMap, child: CoinsMap)
    requires Sound(base, parent) && Sound(Overlay(base, parent), child)
    ensures forall op :: op in child ==> !Misapplied(Lookup(parent, op), child[op])
    ensures Sound(base, Merged(parent, child))
    ensures Overlay(base, Merged(parent, child)) == Overlay(Overlay(base, parent), child)
  {
    var merged := Merged(parent, child);
    forall op | op in child
      ensures !Misapplied(Lookup(parent, op), child[op])
      ensures op in merged ==> EntrySound(base, op, merged[op])
      ensures Lookup(Overlay(base, merged), op) == Lookup(Overlay(Overlay(base, parent), child), op)
    {
      MergedAt(base, parent, child, op);
    }
    forall op | op in merged && op !in child
      ensures EntrySound(base, op, merged[op])
    {
      assert op in parent && EntrySound(base, op, parent[op]);
    }
    forall op
      ensures Lookup(Overlay(base, merged), op) == Lookup(Overlay(Overlay(base, parent), child), op)
    {
    }
    SameLookups(Overlay(base, merged), Overlay(Overlay(base, parent), child));
  }

  lemma SameLookups(a: Utxo, b: Utxo)
    requires forall op :: Lookup(a, op) == Lookup(b, op)
    ensures a == b
  {
    forall op
      ensures op in a <==> op in b
      ensures op in a ==> a[op] == b[op]
    {
      assert Lookup(a, op) == Lookup(b, op);
    }
  }

  /** The database's coin after BatchWrite: DIRTY entries are written, or erased when spent. */
  function WrittenCoin(ours: Option<Coin>, e: CacheEntry): Option<Coin> {
    if !e.isDirty then ours else if e.coin.IsSpent() then None else Some(e.coin)
  }

  function Written(disk: Utxo, child: CoinsMap): Utxo {
    map op | op in disk.Keys + child.Keys
             && (op in child ==> WrittenCoin(Lookup(disk, op), child[op]).Some?)
      :: if op in child then WrittenCoin(Lookup(disk, op), child[op]).value else disk[op]
  }

  lemma WrittenOne(disk: Utxo, child: CoinsMap, op: OutPoint, e: CacheEntry)
    requires op !in child
    ensures Written(disk, child[op := e])
            == var w := Written(disk, child);
               if !e.isDirty then w else if e.coin.IsSpent() then w - {op} else w[op := e.coin]
  {
  }

  lemma WrittenRefines(disk: Utxo, child: CoinsMap)
    requires Unspent(disk) && Sound(disk, child)
    ensures Unspent(Written(disk, child))
    ensures Written(disk, child) == Overlay(disk, child)
  {
    forall op
      ensures Lookup(Written(disk, child), op) == Lookup(Overlay(disk, child), op)
    {
      assert op in child ==> EntrySound(disk, op, child[op]);
    }
    SameLookups(Written(disk, child), Overlay(disk, child));
  }

  // ----- the reference: one flat map per level -----

  function RefAdd(u: Utxo, op: OutPoint, coin: Coin): Utxo {
    if coin.out.IsUnspendable() then u else u[op := coin]
  }

  /** The outputs of a transaction from the i-th on, one after the other. */
  function RefAddAll(u: Utxo, tx: Transaction, height: nat, i: nat): Utxo
    requires i <= |tx.vout|
    decreases |tx.vout| - i
  {
    if i == |tx.vout| then u
    else
      var coin := Coin(tx.vout[i], tx.isCoinBase, height, tx.isCoinStake, tx.time);
      RefAddAll(RefAdd(u, OutPoint(tx.hash, i), coin), tx, height, i + 1)
  }

  /** The coin that a transaction leaves at an outpoint, if that is one of its spendable outputs. */
  function OutputAt(tx: Transaction, height: nat, op: OutPoint): Option<Coin> {
    if op.hash == tx.hash && op.n < |tx.vout| && !tx.vout[op.n].IsUnspendable()
    then Some(Coin(tx.vout[op.n], tx.isCoinBase, height, tx.isCoinStake, tx.time)) else None
  }

  /** Every spendable output is there with its own coin, and every other outpoint is as before. */
  ghost predicate OutputsAdded(u: Utxo, v: Utxo, tx: Transaction, height: nat) {
    forall op :: Lookup(v, op) == if OutputAt(tx, height, op) != None then OutputAt(tx, height, op) else Lookup(u, op)
  }

  lemma {:induction false} RefAddAllAt(u: Utxo, tx: Transaction, height: nat, i: nat, op: OutPoint)
    requires i <= |tx.vout|
    ensures Lookup(RefAddAll(u, tx, height, i), op) ==
            if OutputAt(tx, height, op) != None && i <= op.n then OutputAt(tx, height, op) else Lookup(u, op)
    decreases |tx.vout| - i
  {
    if i < |tx.vout| {
      var coin := Coin(tx.vout[i], tx.isCoinBase, height, tx.isCoinStake, tx.time);
      RefAddAllAt(RefAdd(u, OutPoint(tx.hash, i), coin), tx, height, i + 1, op);
    }
  }

  lemma RefAddAllIs(u: Utxo, tx: Transaction, height: nat)
    ensures OutputsAdded(u, RefAddAll(u, tx, height, 0), tx, height)
  {
    hide RefAddAll;
    forall op
      ensures Lookup(RefAddAll(u, tx, height, 0), op) ==
              if OutputAt(tx, height, op) != None then OutputAt(tx, height, op) else Lookup(u, op)
    {
      RefAddAllAt(u, tx, height, 0, op);
    }
  }

  datatype Op =
    | GetOp(op: OutPoint)
    | HaveOp(op: OutPoint)
    | AddOp(op: OutPoint, coin: Coin, overwrite: bool)
    | AddTxOp(tx: Transaction, height: nat, check: bool)
    | SpendOp(op: OutPoint)
    | UncacheOp(op: OutPoint)
    | FlushOp
    | PushOp
    | DropOp

  /** What a caller observes: the coin it got, whether it was there, whether a write succeeded, or nothing. */
  datatype Obs = Got(coin: Option<Coin>) | Had(have: bool) | Wrote(ok: bool) | Done

  function Top(views: seq<Utxo>): Utxo
    requires views != []
  {
    views[|views| - 1]
  }

  function SetTop(views: seq<Utxo>, u: Utxo): seq<Utxo>
    requires views != []
  {
    views[|views| - 1 := u]
  }

  /** No output is null, and none would replace a coin that the caller has not made sure may go. */
  predicate AddableTx(u: Utxo, tx: Transaction, check: bool) {
    && (forall i :: 0 <= i < |tx.vout| ==> !tx.vout[i].IsNull())
    && (check || tx.isCoinBase || forall i :: 0 <= i < |tx.vout| ==> OutPoint(tx.hash, i) !in u)
  }

  /** The callers' side of the contract: the overwrite promise, and a cache to act on. */
  predicate Allowed(views: seq<Utxo>, o: Op) {
    && views != []
    && match o
       case AddOp(op, coin, overwrite) =>
         |views| > 1 && !coin.IsSpent() && (overwrite || op !in Top(views))
       case AddTxOp(tx, _, check) => |views| > 1 && AddableTx(Top(views), tx, check)
       case PushOp => true
       case _ => |views| > 1
  }

  /** What flushing means to the flat maps: the level below becomes what the top shows. */
  function FlushedViews(views: seq<Utxo>): seq<Utxo>
    requires |views| > 1
  {
    views[|views| - 2 := Top(views)]
  }

  function RefStep(views: seq<Utxo>, o: Op): (seq<Utxo>, Obs)
    requires Allowed(views, o)
  {
    match o
    case GetOp(op) => (views, Got(Lookup(Top(views), op)))
    case HaveOp(op) => (views, Had(op in Top(views)))
    case AddOp(op, coin, _) => (SetTop(views, RefAdd(Top(views), op, coin)), Wrote(true))
    case AddTxOp(tx, height, _) => (SetTop(views, RefAddAll(Top(views), tx, height, 0)), Wrote(true))
    case SpendOp(op) => (SetTop(views, Top(views) - {op}), Got(Lookup(Top(views), op)))
    case UncacheOp(_) => (views, Done)
    case FlushOp => (FlushedViews(views), Wrote(true))
    case PushOp => (views + [Top(views)], Done)
    case DropOp => (views[..|views| - 1], Done)
  }

  predicate AllAllowed(views: seq<Utxo>, ops: seq<Op>)
    decreases |ops|
  {
    ops == [] || (Allowed(views, ops[0]) && AllAllowed(RefStep(views, ops[0]).0, ops[1..]))
  }

  function RefRun(views: seq<Utxo>, ops: seq<Op>): (seq<Utxo>, seq<Obs>)
    requires AllAllowed(views, ops)
    decreases |ops|
  {
    if ops == [] then (views, [])
    else
      var (views', o) := RefStep(views, ops[0]);
      var (final, obs) := RefRun(views', ops[1..]);
      (final, [o] + obs)
  }

  // ----- the stack itself -----

  /** `all` split into the entries already handled and those still to come. */
  ghost predicate Parts(all: CoinsMap, done: CoinsMap, todo: CoinsMap) {
    all == done + todo && done.Keys !! todo.Keys
  }

  lemma PartsStart(all: CoinsMap)
    ensures Parts(all, map[], all)
  {
  }

  lemma PartsMove(all: CoinsMap, done: CoinsMap, todo: CoinsMap, op: OutPoint)
    requires Parts(all, done, todo) && op in todo
    ensures Parts(all, done[op := todo[op]], todo - {op})
    ensures op in all && all[op] == todo[op] && op !in done
  {
    assert done[op := todo[op]] + (todo - {op}) == all;
  }

  lemma PartsEnd(all: CoinsMap, done: CoinsMap)
    requires Parts(all, done, map[])
    ensures done == all
  {
  }

  class CoinsStack {
    /** The coin database. */
    var disk: Utxo
    /** The caches, the one directly above the database first. */
    var layers: seq<CoinsMap>

    ghost predicate Valid()
      reads this
    {
      StackSound(disk, layers)
    }

    /** The flat view under layer `k`; `k == |layers|` is what the top cache shows. */
    ghost function ViewAt(k: nat): Utxo
      requires k <= |layers|
      reads this
    {
      View(disk, layers[..k])
    }

    ghost function Views(): seq<Utxo>
      reads this
    {
      ViewsOf(disk, layers)
    }

    constructor (coins: Utxo)
      requires Unspent(coins)
      ensures Valid() && Views() == [coins]
    {
      disk := coins;
      layers := [];
    }

    method FetchCoin(level: nat, op: OutPoint) returns (found: bool)
      requires Valid() && level < |layers|
      modifies this
      ensures Valid() && Views() == old(Views()) && disk == old(disk)
      ensures |layers| == |old(layers)| && layers[level + 1..] == old(layers[level + 1..])
      ensures ViewAt(level) == old(ViewAt(level))
      ensures layers[level] == Fetched(old(ViewAt(level)), old(layers[level]), op)
      ensures found <==> op in layers[level]
      decreases level, 1
    {
      if op in layers[level] {
        return true;
      }
      ViewUnspent(disk, layers[..level]);
      FetchedSameView(ViewAt(level), layers[level], op);
      var have, coin := BaseGetCoin(level, op);
      ViewsIndex(disk, layers, level);
      ViewsIndex(old(disk), old(layers), level);
      if !have {
        return false;
      }
      var cache := layers[level][op := CacheEntry(coin, false, coin.IsSpent())];
      ReplaceLayerSound(disk, layers, level, cache);
      layers := layers[level := cache];
      return true;
    }

    /** base->GetCoin for the cache at `level`. */
    method BaseGetCoin(level: nat, op: OutPoint) returns (have: bool, coin: Coin)
      requires Valid() && level < |layers|
      modifies this
      ensures Valid() && Views() == old(Views()) && disk == old(disk)
      ensures |layers| == |old(layers)| && layers[level..] == old(layers[level..])
      ensures have <==> op in old(ViewAt(level))
      ensures have ==> coin == old(ViewAt(level))[op]
      decreases level, 0
    {
      if level == 0 {
        have := op in disk;
        coin := if have then disk[op] else EmptyCoin;
      } else {
        have, coin := GetCoin(level - 1, op);
      }
    }

    method GetCoin(level: nat, op: OutPoint) returns (have: bool, coin: Coin)
      requires Valid() && level < |layers|
      modifies this
      ensures Valid() && Views() == old(Views()) && disk == old(disk)
      ensures |layers| == |old(layers)| && layers[level + 1..] == old(layers[level + 1..])
      ensures have <==> op in old(ViewAt(level + 1))
      ensures have ==> coin == old(ViewAt(level + 1))[op]
      decreases level, 2
    {
      coin := EmptyCoin;
      assert layers[..level + 1][..level] == layers[..level];
      ViewUnspent(disk, layers[..level]);
      FetchedSameView(ViewAt(level), layers[level], op);
      var found := FetchCoin(level, op);
      if !found {
        return false, EmptyCoin;
      }
      coin := layers[level][op].coin;
      have := !coin.IsSpent();
    }

    method HaveCoin(op: OutPoint) returns (have: bool)
      requires Valid() && layers != []
      modifies this
      ensures Valid() && Views() == old(Views())
      ensures have <==> op in Top(old(Views()))
    {
      var found := FetchCoin(|layers| - 1, op);
      Split(disk, layers);
      have := found && !layers[|layers| - 1][op].coin.IsSpent();
    }

    /** `ok` is false when AddCoin throws its logic_error, which leaves the stack as it was. */
    method AddCoin(op: OutPoint, coin: Coin, overwrite: bool) returns (ok: bool)
      requires Valid() && layers != []
      requires !coin.IsSpent()
      modifies this
      ensures disk == old(disk)
      ensures ok <==> Added(old(layers[|layers| - 1]), op, coin, overwrite).Some?
      ensures layers == if ok then old(layers)[|old(layers)| - 1 := Added(old(layers[|layers| - 1]), op, coin, overwrite).value]
                        else old(layers)
      ensures overwrite || op !in Top(old(Views())) ==>
                ok && Valid() && Views() == SetTop(old(Views()), RefAdd(Top(old(Views())), op, coin))
    {
      hide StackSound, View, Overlay, Sound, ViewsOf;
      var cache := layers[|layers| - 1];
      Split(disk, layers);
      if overwrite || op !in Top(Views()) {
        AddedRefines(ViewAt(|layers| - 1), cache, op, coin, overwrite);
        ReplaceTop(disk, layers, Added(cache, op, coin, overwrite).value);
      }
      if coin.out.IsUnspendable() {
        assert layers[|layers| - 1 := cache] == layers;
        return true;
      }
      if op !in cache {
        cache := cache[op := CacheEntry(EmptyCoin, false, false)];
      }
      var isFresh := false;
      if !overwrite {
        if !cache[op].coin.IsSpent() {
          return false;
        }
        isFresh := !cache[op].isDirty;
      }
      cache := cache[op := CacheEntry(coin, true, cache[op].isFresh || isFresh)];
      assert cache == Added(layers[|layers| - 1], op, coin, overwrite).value;
      layers := layers[|layers| - 1 := cache];
      ok := true;
    }

    /** All outputs of one transaction, each under its own number. */
    method AddCoins(tx: Transaction, nHeight: nat, check: bool) returns (ok: bool)
      requires Valid() && layers != [] && AddableTx(Top(Views()), tx, check)
      modifies this
      ensures ok && Valid() && |Views()| == |old(Views())|
      ensures OutputsAdded(Top(old(Views())), Top(Views()), tx, nHeight)
      ensures forall k :: 0 <= k < |Views()| - 1 ==> Views()[k] == old(Views())[k]
      ensures Views() == SetTop(old(Views()), RefAddAll(Top(old(Views())), tx, nHeight, 0))
    {
      hide StackSound, View, Overlay, Sound, ViewsOf, OutputsAdded;
      ghost var views := Views();
      ghost var u := Top(views);
      RefAddAllIs(u, tx, nHeight);
      assert SetTop(views, u) == views;
      var fCoinbase := tx.isCoinBase;
      for i := 0 to |tx.vout|
        invariant Valid() && layers != [] && Views() == SetTop(views, u)
        invariant check || fCoinbase || forall k :: i <= k < |tx.vout| ==> OutPoint(tx.hash, k) !in u
        invariant RefAddAll(u, tx, nHeight, i) == RefAddAll(Top(views), tx, nHeight, 0)
      {
        var overwrite := fCoinbase;
        if check {
          overwrite := HaveCoin(OutPoint(tx.hash, i));
        }
        var coin := Coin(tx.vout[i], fCoinbase, nHeight, tx.isCoinStake, tx.time);
        ok := AddCoin(OutPoint(tx.hash, i), coin, overwrite);
        u := RefAdd(u, OutPoint(tx.hash, i), coin);
      }
      ok := true;
    }

    /**
     True exactly when the top cache held an entry (even a spent one) or the view
     had the coin; the coin is gone from the view either way.
     */
    method SpendCoin(op: OutPoint) returns (spent: bool, moveout: Coin)
      requires Valid() && layers != []
      modifies this
      ensures Valid() && Views() == SetTop(old(Views()), Top(old(Views())) - {op})
      ensures spent <==> op in old(layers[|layers| - 1]) || op in Top(old(Views()))
      ensures op in Top(old(Views())) ==> moveout == Top(old(Views()))[op]
      ensures op !in Top(old(Views())) ==> moveout.IsSpent()
    {
      hide StackSound, View, Sound, ViewsOf;
      var found := FetchCoin(|layers| - 1, op);
      Split(disk, layers);
      if !found {
        assert Top(Views()) - {op} == Top(Views());
        return false, EmptyCoin;
      }
      var cache := layers[|layers| - 1];
      moveout := cache[op].coin;
      SpentRefines(ViewAt(|layers| - 1), cache, op);
      ReplaceTop(disk, layers, Spent(cache, op));
      if cache[op].isFresh {
        layers := layers[|layers| - 1 := cache - {op}];
      } else {
        layers := layers[|layers| - 1 := cache[op := CacheEntry(EmptyCoin, true, false)]];
      }
      spent := true;
    }

    method Uncache(op: OutPoint)
      requires Valid() && layers != []
      modifies this
      ensures Valid() && Views() == old(Views()) && disk == old(disk)
      ensures layers == old(layers)[|old(layers)| - 1 := Uncached(old(layers[|layers| - 1]), op)]
      ensures var was, cache := old(layers[|layers| - 1]), layers[|layers| - 1];
              && (op in cache <==> op in was && (was[op].isDirty || was[op].isFresh))
              && forall other :: other != op ==> Lookup(cache, other) == Lookup(was, other)
    {
      var cache := layers[|layers| - 1];
      Split(disk, layers);
      UncachedSameView(ViewAt(|layers| - 1), cache, op);
      ReplaceTop(disk, layers, Uncached(cache, op));
      if op in cache && !cache[op].isDirty && !cache[op].isFresh {
        layers := layers[|layers| - 1 := cache - {op}];
      } else {
        assert layers[|layers| - 1 := cache] == layers;
      }
    }

    /** One entry of a BatchWrite into the cache at `level`. */
    method WriteEntry(level: nat, op: OutPoint, e: CacheEntry) returns (ok: bool)
      requires level < |layers|
      modifies this`layers
      ensures ok <==> !Misapplied(Lookup(old(layers)[level], op), e)
      ensures ok ==> layers == old(layers)[level := SetEntry(old(layers)[level], op,
                                                              MergedEntry(Lookup(old(layers)[level], op), e))]
    {
      var us := layers[level];
      if e.isDirty {
        if op !in us {
          if !(e.isFresh && e.coin.IsSpent()) {
            us := us[op := CacheEntry(e.coin, true, e.isFresh)];
          }
        } else {
          if e.isFresh && !us[op].coin.IsSpent() {
            return false;
          }
          if us[op].isFresh && e.coin.IsSpent() {
            us := us - {op};
          } else {
            us := us[op := CacheEntry(e.coin, true, us[op].isFresh)];
          }
        }
      }
      assert us == SetEntry(layers[level], op, MergedEntry(Lookup(layers[level], op), e));
      layers := layers[level := us];
      ok := true;
    }

    /** BatchWrite of the cache at `level`, entries taken in any order; false is the logic_error. */
    method BatchWrite(level: nat, mapCoins: CoinsMap) returns (ok: bool)
      requires level < |layers|
      modifies this`layers
      ensures ok <==> forall op :: op in mapCoins ==> !Misapplied(Lookup(old(layers)[level], op), mapCoins[op])
      ensures ok ==> layers == old(layers)[level := Merged(old(layers)[level], mapCoins)]
    {
      var todo := mapCoins;
      hide Misapplied, MergedEntry, Parts;
      PartsStart(mapCoins);
      ghost var parent, done: CoinsMap := layers[level], map[];
      assert Merged(parent, done) == parent;
      hide Merged;
      while todo != map[]
        invariant Parts(mapCoins, done, todo)
        invariant layers == old(layers)[level := Merged(parent, done)]
        invariant forall op :: op in done ==> !Misapplied(Lookup(parent, op), done[op])
        decreases todo.Keys
      {
        var op :| op in todo;
        var e := todo[op];
        PartsMove(mapCoins, done, todo, op);
        MergedOne(parent, done, op, e);
        ok := WriteEntry(level, op, e);
        if !ok {
          return;
        }
        done := done[op := e];
        todo := todo - {op};
      }
      PartsEnd(mapCoins, done);
      ok := true;
    }

    /** The database's BatchWrite. */
    method WriteDisk(mapCoins: CoinsMap)
      modifies this`disk
      ensures disk == Written(old(disk), mapCoins)
    {
      var todo := mapCoins;
      ghost var done: CoinsMap := map[];
      assert Written(disk, done) == disk;
      hide Written, Parts;
      PartsStart(mapCoins);
      while todo != map[]
        invariant Parts(mapCoins, done, todo)
        invariant disk == Written(old(disk), done)
        decreases todo.Keys
      {
        var op :| op in todo;
        var e := todo[op];
        PartsMove(mapCoins, done, todo, op);
        WrittenOne(old(disk), done, op, e);
        if e.isDirty {
          if e.coin.IsSpent() {
            disk := disk - {op};
          } else {
            disk := disk[op := e.coin];
          }
        }
        done := done[op := e];
        todo := todo - {op};
      }
      PartsEnd(mapCoins, done);
    }

    /** The top cache's changes move to the level below, and nothing a caller can see changes. */
    method Flush() returns (ok: bool)
      requires Valid() && layers != []
      modifies this
      ensures ok && Valid() && Views() == FlushedViews(old(Views()))
    {
      hide StackSound, View, ViewsOf, Merged, Misapplied, Written;
      var n := |layers|;
      var child := layers[n - 1];
      if n == 1 {
        assert layers == [child] && layers[0 := map[]] == [map[]];
        FlushLast(disk, child);
        WriteDisk(child);
        ok := true;
      } else {
        ghost var lower, parent := layers[..n - 2], layers[n - 2];
        assert layers == lower + [parent] + [child];
        FlushTop(disk, lower, parent, child);
        ok := BatchWrite(n - 2, child);
        assert layers[n - 1 := map[]] == lower + [Merged(parent, child)] + [map[]];
      }
      layers := layers[n - 1 := map[]];
    }

    /** A new cache on top of the stack. */
    method Push()
      requires Valid()
      modifies this
      ensures Valid() && Views() == old(Views()) + [Top(old(Views()))]
    {
      Pushed(disk, layers, map[]);
      assert layers[..|layers|] == layers;
      ViewsIndex(disk, layers, |layers|);
      OverlayNothing(View(disk, layers));
      layers := layers + [map[]];
    }

    /** Destroying the top cache without flushing forgets its changes. */
    method Drop()
      requires Valid() && layers != []
      modifies this
      ensures Valid() && Views() == old(Views())[..|old(Views())| - 1]
    {
      Split(disk, layers);
      layers := layers[..|layers| - 1];
    }

    /** The last of the views is that of the whole stack, and holds no spent coin. */
    lemma TopShown()
      requires Valid()
      ensures |Views()| == |layers| + 1 && Top(Views()) == ViewAt(|layers|)
      ensures forall op :: op in Top(Views()) ==> !Top(Views())[op].IsSpent()
    {
      ViewsIndex(disk, layers, |layers|);
      ViewUnspent(disk, layers[..|layers|]);
    }

    method Step(o: Op) returns (obs: Obs)
      requires Valid() && Allowed(Views(), o)
      modifies this
      ensures Valid() && (Views(), obs) == RefStep(old(Views()), o)
    {
      hide View, ViewsOf, Overlay, StackSound, RefAddAll, OutputsAdded, AddableTx;
      TopShown();
      match o
      case GetOp(op) =>
        var have, coin := GetCoin(|layers| - 1, op);
        obs := Got(if have then Some(coin) else None);
      case HaveOp(op) =>
        var have := HaveCoin(op);
        obs := Had(have);
      case AddOp(op, coin, overwrite) =>
        var ok := AddCoin(op, coin, overwrite);
        obs := Wrote(ok);
      case AddTxOp(tx, height, check) =>
        var ok := AddCoins(tx, height, check);
        obs := Wrote(ok);
      case SpendOp(op) =>
        var spent, coin := SpendCoin(op);
        obs := Got(if spent && !coin.IsSpent() then Some(coin) else None);
      case UncacheOp(op) =>
        Uncache(op);
        obs := Done;
      case FlushOp =>
        var ok := Flush();
        obs := Wrote(ok);
      case PushOp =>
        Push();
        obs := Done;
      case DropOp =>
        Drop();
        obs := Done;
    }

    /**
     Any run on the stack is, observation by observation, the run on flat maps; in
     particular no AddCoin and no Flush of an allowed run throws.
     */
    method Run(ops: seq<Op>) returns (obs: seq<Obs>)
      requires Valid() && AllAllowed(Views(), ops)
      modifies this
      ensures Valid() && (Views(), obs) == RefRun(old(Views()), ops)
    {
      if ops == [] {
        return [];
      }
      var first := Step(ops[0]);
      var rest := Run(ops[1..]);
      obs := [first] + rest;
    }
  }
}
