/**
 The on-disk form of the address manager (src/addrman.h, Serialize and Unserialize).

 Only the records and, per new bucket, the positions of its entries among the saved
 new records are written; every other index is rebuilt.  Saving and loading
 consistent tables gives back the same tables up to a renumbering of the ids.
 */
module AddrSave {
  import opened Prelude
  import opened AddrBook
  import Ops = AddrOps

  /** The stream of fields, after parsing; the bucket count is the number of `buckets`. */
  datatype Saved = Saved(version: int, keySize: int, key: Key, newRecords: seq<Record>, triedRecords: seq<Record>,
                         buckets: seq<seq<int>>)

  // ----- Serialize -----

  /** Ids below `n` with a reference count, in increasing order. */
  function NewOrder(info: map<int, Info>, n: int): seq<int> {
    if n <= 0 then []
    else NewOrder(info, n - 1) + if n - 1 in info && info[n - 1].refCount != 0 then [n - 1] else []
  }

  function TriedOrder(info: map<int, Info>, n: int): seq<int> {
    if n <= 0 then []
    else TriedOrder(info, n - 1) + if n - 1 in info && info[n - 1].inTried then [n - 1] else []
  }

  const NoRecord := Record(Address(Service(0, 0), 0, {}), 0, 0, 0)

  function Records(info: map<int, Info>, ids: seq<int>): (r: seq<Record>)
    ensures |r| == |ids|
    ensures forall i :: 0 <= i < |ids| && ids[i] in info ==> r[i] == info[ids[i]].record
  {
    seq(|ids|, i requires 0 <= i < |ids| => if ids[i] in info then info[ids[i]].record else NoRecord)
  }

  /** The running number a new entry gets: how many new entries have smaller ids. */
  function Index(info: map<int, Info>, id: int): int {
    |NewOrder(info, id)|
  }

  /** What is written for the first `i` positions of a bucket. */
  function BucketIndexes(b: Book, bucket: nat, i: nat): seq<int> {
    if i == 0 then []
    else
      var s := Slot(bucket, i - 1);
      BucketIndexes(b, bucket, i - 1) + if s in b.newTable then [Index(b.info, b.newTable[s])] else []
  }

  lemma {:induction false} OrderMembers(info: map<int, Info>, n: int)
    ensures forall id :: id in NewOrder(info, n) <==> id in info && 0 <= id < n && info[id].refCount != 0
    ensures forall id :: id in TriedOrder(info, n) <==> id in info && 0 <= id < n && info[id].inTried
  {
    if n > 0 {
      OrderMembers(info, n - 1);
    }
  }

  lemma {:induction false} OrderDistinct(info: map<int, Info>, n: int)
    ensures forall i, j :: 0 <= i < j < |NewOrder(info, n)| ==> NewOrder(info, n)[i] < NewOrder(info, n)[j]
    ensures forall i, j :: 0 <= i < j < |TriedOrder(info, n)| ==> TriedOrder(info, n)[i] < TriedOrder(info, n)[j]
  {
    if n > 0 {
      OrderDistinct(info, n - 1);
      OrderMembers(info, n - 1);
      var news, trieds := NewOrder(info, n - 1), TriedOrder(info, n - 1);
      forall i | 0 <= i < |news|
        ensures news[i] < n - 1
      {
        assert news[i] in news;
      }
      forall i | 0 <= i < |trieds|
        ensures trieds[i] < n - 1
      {
        assert trieds[i] in trieds;
      }
    }
  }

  /** The running number is the entry's position in the saved list. */
  lemma {:induction false} IndexIsPosition(info: map<int, Info>, id: int, n: int)
    requires 0 <= id < n && id in info && info[id].refCount != 0
    ensures 0 <= Index(info, id) < |NewOrder(info, n)| && NewOrder(info, n)[Index(info, id)] == id
  {
    if n - 1 != id {
      IndexIsPosition(info, id, n - 1);
    }
  }

  /** An entry that is still to be written leaves the list short of its final length. */
  lemma {:induction false} OrderGrows(info: map<int, Info>, id: int, n: int)
    requires 0 <= id < n && id in info
    ensures info[id].refCount != 0 ==> |NewOrder(info, id)| < |NewOrder(info, n)|
    ensures info[id].inTried ==> |TriedOrder(info, id)| < |TriedOrder(info, n)|
  {
    if n - 1 != id {
      OrderGrows(info, id, n - 1);
    }
  }

  /** A list without repetitions is as long as the set of its members. */
  lemma {:induction false} DistinctLength(ids: seq<int>, members: set<int>)
    requires forall i, j :: 0 <= i < j < |ids| ==> ids[i] < ids[j]
    requires forall id :: id in ids <==> id in members
    ensures |ids| == |members|
  {
    if ids == [] {
      assert forall id :: id in members ==> id in ids;
    } else {
      var last, rest := ids[|ids| - 1], ids[..|ids| - 1];
      assert forall id :: id in rest ==> id in ids && id != last;
      assert forall id :: id in ids ==> id in rest || id == last;
      DistinctLength(rest, members - {last});
      assert last in members;
    }
  }

  /** All ids, the new ones first, in the order in which they are saved. */
  function Order(b: Book): seq<int> {
    NewOrder(b.info, b.idCount) + TriedOrder(b.info, b.idCount)
  }

  /** The counters are the lengths of the two lists, so the source's assertions hold. */
  lemma OrderLengths(pl: Placing, b: Book)
    requires Consistent(pl, b)
    ensures |NewOrder(b.info, b.idCount)| == b.nNew && |TriedOrder(b.info, b.idCount)| == b.nTried
    ensures forall id :: id in NewOrder(b.info, b.idCount) <==> id in NewIds(b.info)
    ensures forall id :: id in TriedOrder(b.info, b.idCount) <==> id in TriedIds(b.info)
  {
    OrderMembers(b.info, b.idCount);
    OrderDistinct(b.info, b.idCount);
    assert NewIds(b.info) - {} == NewIds(b.info);
    forall id | id in b.info
      ensures 0 <= id < b.idCount && (b.info[id].refCount != 0 <==> !b.info[id].inTried)
    {
      InvAt(pl, b, {}, {}, id);
    }
    hide RandomOk, IpOk, TriedOk, NewOk, RefsOk, StatsOk, NewOrder, TriedOrder;
    DistinctLength(NewOrder(b.info, b.idCount), NewIds(b.info));
    DistinctLength(TriedOrder(b.info, b.idCount), TriedIds(b.info));
  }

  // ----- Unserialize -----

  /** Whether the saved new buckets can be used as they are. */
  predicate Usable(s: Saved) {
    s.version == 1 && |s.buckets| == NEW_BUCKET_COUNT
  }

  /** One record of the new table, read as id `n`. */
  function ReadNew(pl: Placing, usable: bool, b: Book, n: int, r: Record): Book {
    var c := b.(info := b.info[n := Info(r, 0, 0, 0, false, |b.random|)], byIp := b.byIp[r.Ip() := n],
                random := b.random + [n]);
    var t := Ops.HomeSlot(pl, r);
    if !usable && t !in c.newTable then Link(c, t, n) else c
  }

  function LoadNew(pl: Placing, usable: bool, b: Book, recs: seq<Record>): Book {
    if recs == [] then b
    else ReadNew(pl, usable, LoadNew(pl, usable, b, recs[..|recs| - 1]), |recs| - 1, recs[|recs| - 1])
  }

  lemma LoadNewNext(pl: Placing, usable: bool, b: Book, recs: seq<Record>, n: nat)
    requires n < |recs|
    ensures LoadNew(pl, usable, b, recs[..n + 1]) == ReadNew(pl, usable, LoadNew(pl, usable, b, recs[..n]), n, recs[n])
  {
    hide ReadNew;
    assert recs[..n + 1][..n] == recs[..n];
  }

  /** One record of the tried table, lost when its slot is taken. */
  function ReadTried(pl: Placing, b: Book, r: Record): Book {
    var s := pl.TriedSlot(r.Service());
    if s in b.triedTable then b.(nTried := b.nTried - 1)
    else b.(info := b.info[b.idCount := Info(r, 0, 0, 0, true, |b.random|)], byIp := b.byIp[r.Ip() := b.idCount],
            random := b.random + [b.idCount], triedTable := b.triedTable[s := b.idCount], idCount := b.idCount + 1)
  }

  lemma ReadTriedShift(pl: Placing, b: Book, r: Record, count: int)
    ensures ReadTried(pl, b.(nTried := count), r)
            == ReadTried(pl, b, r).(nTried := count + ReadTried(pl, b, r).nTried - b.nTried)
  {
    hide Placing.TriedSlot;
  }

  function LoadTried(pl: Placing, b: Book, recs: seq<Record>): Book {
    if recs == [] then b else ReadTried(pl, LoadTried(pl, b, recs[..|recs| - 1]), recs[|recs| - 1])
  }

  /** One saved position of a bucket. */
  function LoadIndex(pl: Placing, usable: bool, b: Book, bucket: nat, index: int): Book {
    if 0 <= index < b.nNew && index in b.info then
      var t := pl.NewSlot(b.info[index].record.Service(), bucket);
      if usable && t !in b.newTable && b.info[index].refCount < NEW_BUCKETS_PER_ADDRESS then Link(b, t, index) else b
    else b
  }

  function LoadBucket(pl: Placing, usable: bool, b: Book, bucket: nat, indexes: seq<int>): Book {
    if indexes == [] then b
    else LoadIndex(pl, usable, LoadBucket(pl, usable, b, bucket, indexes[..|indexes| - 1]), bucket, indexes[|indexes| - 1])
  }

  function LoadBuckets(pl: Placing, usable: bool, b: Book, buckets: seq<seq<int>>): Book {
    if buckets == [] then b
    else
      var n := |buckets| - 1;
      LoadBucket(pl, usable, LoadBuckets(pl, usable, b, buckets[..n]), n, buckets[n])
  }

  /** Deletes the new entries below id `n` that got no reference. */
  function Prune(b: Book, n: int): Book {
    if n <= 0 then b
    else
      var c := Prune(b, n - 1);
      if n - 1 in c.info && !c.info[n - 1].inTried && c.info[n - 1].refCount == 0 then Delete(c, n - 1) else c
  }

  /** Both kinds of records read back, before the saved buckets. */
  function Reread(pl: Placing, s: Saved): Book {
    var b0 := EmptyBook.(nNew := |s.newRecords|, nTried := |s.triedRecords|);
    LoadTried(pl, LoadNew(pl, Usable(s), b0, s.newRecords).(idCount := |s.newRecords|), s.triedRecords)
  }

  /** Everything read back, before entries without a slot are dropped. */
  function Filled(pl: Placing, s: Saved): Book {
    LoadBuckets(pl, Usable(s), Reread(pl, s), s.buckets)
  }

  function Load(pl: Placing, s: Saved): Book {
    Prune(Filled(pl, s), Filled(pl, s).idCount)
  }

  function Save(b: Book, key: Key): Saved {
    Saved(1, 32, key, Records(b.info, NewOrder(b.info, b.idCount)), Records(b.info, TriedOrder(b.info, b.idCount)),
          seq(NEW_BUCKET_COUNT, bucket requires 0 <= bucket => BucketIndexes(b, bucket, BUCKET_SIZE)))
  }

  // ----- the renumbering -----

  ghost predicate SameSlots(before: map<Slot, int>, after: map<Slot, int>, order: seq<int>) {
    && after.Keys == before.Keys
    && forall s :: s in after ==> 0 <= after[s] < |order| && order[after[s]] == before[s]
  }

  /** The entries with new ids below `m`: the persisted fields of the old ones, and their own places. */
  ghost predicate Entries(b: Book, order: seq<int>, info: map<int, Info>, m: int) {
    && m <= |order|
    && (forall k :: k in info <==> 0 <= k < m)
    && (forall k :: 0 <= k < m ==> order[k] in b.info)
    && (forall k :: 0 <= k < m ==>
          info[k] == Info(b.info[order[k]].record, 0, 0, info[k].refCount, b.info[order[k]].inTried, k))
  }

  ghost predicate Enumerates(order: seq<int>, info: map<int, Info>) {
    && (forall i, j :: 0 <= i < j < |order| ==> order[i] != order[j])
    && (forall id :: id in info <==> id in order)
  }

  /** `order` lists the old ids by new id; both books hold the same entries in the same slots. */
  ghost predicate Renumbered(b: Book, c: Book, order: seq<int>) {
    && Enumerates(order, b.info) && Entries(b, order, c.info, |order|)
    && SameSlots(b.triedTable, c.triedTable, order) && SameSlots(b.newTable, c.newTable, order)
    && c.nNew == b.nNew && c.nTried == b.nTried
  }

  lemma JoinDistinct(xs: seq<int>, ys: seq<int>)
    requires forall i, j :: 0 <= i < j < |xs| ==> xs[i] < xs[j]
    requires forall i, j :: 0 <= i < j < |ys| ==> ys[i] < ys[j]
    requires forall x :: x in xs ==> x !in ys
    ensures forall i, j :: 0 <= i < j < |xs + ys| ==> (xs + ys)[i] != (xs + ys)[j]
  {
    forall i, j | 0 <= i < |xs| && 0 <= j < |ys|
      ensures xs[i] != ys[j]
    {
      assert xs[i] in xs && ys[j] in ys;
    }
  }

  lemma OrderMembership(pl: Placing, b: Book)
    requires Consistent(pl, b)
    ensures forall id :: id in b.info <==> id in Order(b)
    ensures |Order(b)| == b.nNew + b.nTried && 0 <= b.nNew <= |Order(b)|
  {
    hide Inv, NewOrder, TriedOrder;
    OrderLengths(pl, b);
  }

  lemma OrderSplit(pl: Placing, b: Book, k: nat)
    requires Consistent(pl, b) && k < |Order(b)|
    ensures Order(b)[k] in b.info && (b.info[Order(b)[k]].inTried <==> b.nNew <= k)
  {
    hide Inv, NewOrder, TriedOrder;
    OrderLengths(pl, b);
    var news, trieds := NewOrder(b.info, b.idCount), TriedOrder(b.info, b.idCount);
    if k < |news| {
      assert Order(b)[k] == news[k] && news[k] in news && news[k] in NewIds(b.info);
    } else {
      assert Order(b)[k] == trieds[k - |news|] && trieds[k - |news|] in trieds && trieds[k - |news|] in TriedIds(b.info);
    }
  }

  lemma OrderEnumerates(pl: Placing, b: Book)
    requires Consistent(pl, b)
    ensures Enumerates(Order(b), b.info)
    ensures |Order(b)| == b.nNew + b.nTried && 0 <= b.nNew <= |Order(b)|
    ensures forall k :: 0 <= k < |Order(b)| ==>
              Order(b)[k] in b.info && (b.info[Order(b)[k]].inTried <==> b.nNew <= k)
  {
    hide Inv, NewOrder, TriedOrder, TriedIds, NewIds;
    OrderMembership(pl, b);
    OrderDistinct(b.info, b.idCount);
    OrderDisjoint(pl, b);
    JoinDistinct(NewOrder(b.info, b.idCount), TriedOrder(b.info, b.idCount));
    forall k | 0 <= k < |Order(b)|
      ensures Order(b)[k] in b.info && (b.info[Order(b)[k]].inTried <==> b.nNew <= k)
    {
      OrderSplit(pl, b, k);
    }
  }

  lemma OrderDisjoint(pl: Placing, b: Book)
    requires Consistent(pl, b)
    ensures forall id :: id in NewOrder(b.info, b.idCount) ==> id !in TriedOrder(b.info, b.idCount)
  {
    hide Inv, NewOrder, TriedOrder;
    OrderLengths(pl, b);
  }

  // ----- the entries come back -----

  /** What is rebuilt while records are read, before any new slot is filled. */
  ghost predicate Rebuilt(pl: Placing, b: Book, order: seq<int>, c: Book, m: int) {
    && Entries(b, order, c.info, m) && (forall k :: 0 <= k < m ==> c.info[k].refCount == 0)
    && RandomOk(c.random, c.info) && IpOk(c.byIp, c.info) && TriedOk(pl, c.triedTable, c.info)
    && c.newTable == map[]
  }

  lemma RebuiltFreeIp(pl: Placing, b: Book, order: seq<int>, c: Book, m: int)
    requires IpOk(b.byIp, b.info) && Enumerates(order, b.info) && Rebuilt(pl, b, order, c, m)
    requires 0 <= m < |order| && order[m] in b.info
    ensures b.info[order[m]].record.Ip() !in c.byIp && |c.random| == m
  {
    forall ip | ip in c.byIp
      ensures ip != b.info[order[m]].record.Ip()
    {
      var k := c.byIp[ip];
      assert c.info[k].record.Ip() == ip && order[k] != order[m];
      assert b.byIp[b.info[order[k]].record.Ip()] == order[k];
    }
    assert c.info.Keys == Range(0, m);
  }

  lemma RebuiltStep(pl: Placing, b: Book, order: seq<int>, c: Book, m: int, table: map<Slot, int>)
    requires IpOk(b.byIp, b.info) && Enumerates(order, b.info) && Rebuilt(pl, b, order, c, m)
    requires 0 <= m < |order| && order[m] in b.info
    requires var e := Info(b.info[order[m]].record, 0, 0, 0, b.info[order[m]].inTried, m);
             TriedOk(pl, table, c.info[m := e])
    ensures var e := Info(b.info[order[m]].record, 0, 0, 0, b.info[order[m]].inTried, m);
            |c.random| == m &&
            Rebuilt(pl, b, order,
                    c.(info := c.info[m := e], byIp := c.byIp[e.record.Ip() := m], random := c.random + [m],
                       triedTable := table), m + 1)
  {
    var e := Info(b.info[order[m]].record, 0, 0, 0, b.info[order[m]].inTried, m);
    RebuiltFreeIp(pl, b, order, c, m);
    CreateRandom(c.random, c.info, m, e);
    CreateIp(c.byIp, c.info, m, e);
    hide RandomOk, IpOk, TriedOk, Enumerates;
  }

  /** The record of the entry that gets new id `k`. */
  ghost predicate RecordAt(b: Book, k: nat, r: Record) {
    k < |Order(b)| && Order(b)[k] in b.info && r == b.info[Order(b)[k]].record
  }

  lemma {:induction false} LoadNewRebuilds(pl: Placing, b: Book, b0: Book, recs: seq<Record>)
    requires Consistent(pl, b) && b0 == EmptyBook.(nNew := b0.nNew, nTried := b0.nTried)
    requires |recs| <= b.nNew <= |Order(b)|
    requires forall k :: 0 <= k < |recs| ==> RecordAt(b, k, recs[k])
    ensures Rebuilt(pl, b, Order(b), LoadNew(pl, true, b0, recs), |recs|)
    ensures LoadNew(pl, true, b0, recs).nNew == b0.nNew && LoadNew(pl, true, b0, recs).nTried == b0.nTried
    ensures LoadNew(pl, true, b0, recs).triedTable == map[]
  {
    hide Inv, Order, Rebuilt, Enumerates, TriedOk, IpOk;
    OrderEnumerates(pl, b);
    if recs == [] {
      NothingRebuilt(pl, b, b0);
    } else {
      var n, rest := |recs| - 1, recs[..|recs| - 1];
      LoadNewRebuilds(pl, b, b0, rest);
      assert RecordAt(b, n, recs[n]);
      var c := LoadNew(pl, true, b0, rest);
      NoneTried(pl, b, c, n, Info(recs[n], 0, 0, 0, false, n));
      ConsistentIp(pl, b);
      RebuiltStep(pl, b, Order(b), c, n, c.triedTable);
    }
  }

  lemma NothingRebuilt(pl: Placing, b: Book, b0: Book)
    requires b0 == EmptyBook.(nNew := b0.nNew, nTried := b0.nTried)
    ensures Rebuilt(pl, b, Order(b), b0, 0)
  {
    hide Order;
  }

  lemma NoneTried(pl: Placing, b: Book, c: Book, m: int, e: Info)
    requires Rebuilt(pl, b, Order(b), c, m) && !e.inTried && c.triedTable == map[]
    ensures TriedOk(pl, c.triedTable, c.info[m := e])
  {
    hide Order, RandomOk, IpOk, Placing.TriedSlot;
  }

  lemma ConsistentIp(pl: Placing, b: Book)
    requires Consistent(pl, b)
    ensures IpOk(b.byIp, b.info)
  {
  }

  lemma CreateTried(pl: Placing, table: map<Slot, int>, info: map<int, Info>, id: int, e: Info)
    requires TriedOk(pl, table, info) && id !in info && e.inTried
    requires pl.TriedSlot(e.record.Service()) !in table
    ensures TriedOk(pl, table[pl.TriedSlot(e.record.Service()) := id], info[id := e])
  {
    hide Placing.TriedSlot;
  }

  /** Distinct tried entries have distinct slots, so none is lost to a collision. */
  lemma RebuiltFreeSlot(pl: Placing, b: Book, order: seq<int>, c: Book, m: int)
    requires TriedOk(pl, b.triedTable, b.info) && Enumerates(order, b.info) && Rebuilt(pl, b, order, c, m)
    requires 0 <= m < |order| && order[m] in b.info && b.info[order[m]].inTried
    ensures pl.TriedSlot(b.info[order[m]].record.Service()) !in c.triedTable
  {
    hide Placing.TriedSlot, RandomOk, IpOk;
    forall s | s in c.triedTable
      ensures s != pl.TriedSlot(b.info[order[m]].record.Service())
    {
      var k := c.triedTable[s];
      assert k in c.info && c.info[k].inTried && s == pl.TriedSlot(c.info[k].record.Service());
      assert order[k] != order[m];
      assert b.triedTable[s] == order[k];
    }
  }

  lemma RebuiltTried(pl: Placing, b: Book, order: seq<int>, c: Book, m: int, r: Record)
    requires Consistent(pl, b) && Enumerates(order, b.info) && Rebuilt(pl, b, order, c, m)
    requires 0 <= m < |order| && order[m] in b.info && b.info[order[m]].inTried && r == b.info[order[m]].record
    ensures |c.random| == m && pl.TriedSlot(r.Service()) !in c.triedTable
    ensures Rebuilt(pl, b, order,
                    c.(info := c.info[m := Info(r, 0, 0, 0, true, m)], byIp := c.byIp[r.Ip() := m],
                       random := c.random + [m], triedTable := c.triedTable[pl.TriedSlot(r.Service()) := m],
                       idCount := m + 1), m + 1)
  {
    hide Placing.TriedSlot, RandomOk, IpOk, TriedOk, NewOk, RefsOk, CountsOk, StatsOk, Enumerates;
    RebuiltFreeSlot(pl, b, order, c, m);
    CreateTried(pl, c.triedTable, c.info, m, Info(r, 0, 0, 0, true, m));
    RebuiltStep(pl, b, order, c, m, c.triedTable[pl.TriedSlot(r.Service()) := m]);
  }

  lemma {:induction false} LoadTriedRebuilds(pl: Placing, b: Book, b1: Book, recs: seq<Record>)
    requires Consistent(pl, b) && Rebuilt(pl, b, Order(b), b1, b.nNew) && b1.idCount == b.nNew
    requires 0 <= b.nNew && b.nNew + |recs| <= |Order(b)|
    requires forall k :: 0 <= k < |recs| ==> RecordAt(b, b.nNew + k, recs[k])
    ensures Rebuilt(pl, b, Order(b), LoadTried(pl, b1, recs), b.nNew + |recs|)
    ensures LoadTried(pl, b1, recs).idCount == b.nNew + |recs|
    ensures LoadTried(pl, b1, recs).nNew == b1.nNew && LoadTried(pl, b1, recs).nTried == b1.nTried
  {
    hide Placing.TriedSlot, Inv, Order, Rebuilt, Enumerates;
    if recs != [] {
      var rest := recs[..|recs| - 1];
      assert RecordAt(b, b.nNew + |rest|, recs[|recs| - 1]);
      LoadTriedRebuilds(pl, b, b1, rest);
      OrderEnumerates(pl, b);
      var c, m, r := LoadTried(pl, b1, rest), b.nNew + |rest|, recs[|recs| - 1];
      RebuiltTried(pl, b, Order(b), c, m, r);
      assert LoadTried(pl, b1, recs)
          == c.(info := c.info[m := Info(r, 0, 0, 0, true, m)], byIp := c.byIp[r.Ip() := m], random := c.random + [m],
                triedTable := c.triedTable[pl.TriedSlot(r.Service()) := m], idCount := m + 1);
    }
  }

  // ----- the new slots come back -----

  /** All entries loaded and the slots `done` of the new table filled. */
  ghost predicate Linking(pl: Placing, b: Book, c: Book, done: set<Slot>) {
    && Inv(pl, c, c.info.Keys, {}) && Entries(b, Order(b), c.info, |Order(b)|)
    && c.idCount == |Order(b)| && c.nNew == b.nNew && c.nTried == b.nTried
    && SameSlots(b.triedTable, c.triedTable, Order(b))
    && LinkedSlots(b, c.newTable, done)
  }

  ghost predicate LinkedSlots(b: Book, table: map<Slot, int>, done: set<Slot>) {
    && table.Keys == done && done <= b.newTable.Keys
    && forall s :: s in done ==> 0 <= table[s] < |Order(b)| && Order(b)[table[s]] == b.newTable[s]
  }

  lemma RebuiltCounts(pl: Placing, b: Book, c: Book)
    requires Consistent(pl, b) && Entries(b, Order(b), c.info, |Order(b)|)
    requires c.nNew == b.nNew && c.nTried == b.nTried
    ensures CountsOk(c.nTried, c.nNew, c.info, {})
  {
    hide Inv, Order, Enumerates;
    OrderEnumerates(pl, b);
    forall k | k in c.info
      ensures 0 <= k < |Order(b)| && (c.info[k].inTried <==> b.nNew <= k)
    {
    }
    CountRanges(c.info, b.nNew, |Order(b)|);
  }

  lemma CountRanges(info: map<int, Info>, n: int, m: int)
    requires 0 <= n <= m && forall k :: k in info <==> 0 <= k < m
    requires forall k :: k in info ==> (info[k].inTried <==> n <= k)
    ensures CountsOk(m - n, n, info, {})
  {
    assert TriedIds(info) == Range(n, m);
    assert NewIds(info) - {} == Range(0, n);
  }

  lemma RebuiltStats(pl: Placing, b: Book, c: Book)
    requires Consistent(pl, b) && Entries(b, Order(b), c.info, |Order(b)|) && c.newTable == map[]
    requires forall k :: k in c.info ==> c.info[k].refCount == 0
    ensures StatsOk(c.info) && RefsOk(c.newTable, c.info, c.info.Keys)
  {
    hide Inv, Order, RefsOk;
    forall k | k in c.info
      ensures EntryStatsOk(c.info[k]) && |Refs(c.newTable, k)| == c.info[k].refCount
    {
      InvAt(pl, b, {}, {}, Order(b)[k]);
      assert Refs(c.newTable, k) == {};
    }
    NoRefs(c.newTable, c.info);
  }

  lemma NoRefs(table: map<Slot, int>, info: map<int, Info>)
    requires forall k :: k in info ==> |Refs(table, k)| == info[k].refCount
    ensures RefsOk(table, info, info.Keys)
  {
    hide Refs;
  }

  lemma TriedSlotHeld(pl: Placing, table: map<Slot, int>, info: map<int, Info>, id: int)
    requires TriedOk(pl, table, info) && id in info && info[id].inTried
    ensures pl.TriedSlot(info[id].record.Service()) in table && table[pl.TriedSlot(info[id].record.Service())] == id
  {
  }

  lemma RebuiltSlots(pl: Placing, b: Book, c: Book)
    requires Consistent(pl, b) && Rebuilt(pl, b, Order(b), c, |Order(b)|)
    ensures SameSlots(b.triedTable, c.triedTable, Order(b))
  {
    hide RandomOk, IpOk, NewOk, RefsOk, CountsOk, StatsOk, Order, Placing.TriedSlot;
    OrderEnumerates(pl, b);
    forall s | s in b.triedTable
      ensures s in c.triedTable
    {
      var id := b.triedTable[s];
      assert id in Order(b);
      var k :| 0 <= k < |Order(b)| && Order(b)[k] == id;
      assert c.info[k].inTried && c.info[k].record == b.info[id].record;
    }
    forall s | s in c.triedTable
      ensures s in b.triedTable && 0 <= c.triedTable[s] < |Order(b)| && Order(b)[c.triedTable[s]] == b.triedTable[s]
    {
      var k := c.triedTable[s];
      assert c.info[k].inTried && Order(b)[k] in b.info && b.info[Order(b)[k]].inTried;
      TriedSlotHeld(pl, b.triedTable, b.info, Order(b)[k]);
    }
  }

  lemma StartLinking(pl: Placing, b: Book, c: Book)
    requires Consistent(pl, b) && Rebuilt(pl, b, Order(b), c, |Order(b)|)
    requires c.nNew == b.nNew && c.nTried == b.nTried && c.idCount == |Order(b)|
    ensures Linking(pl, b, c, {})
  {
    RebuiltCounts(pl, b, c);
    RebuiltStats(pl, b, c);
    RebuiltSlots(pl, b, c);
    hide RandomOk, IpOk, TriedOk, RefsOk, CountsOk, StatsOk, Order, SameSlots, Consistent;
  }

  /** A saved position leads back to the slot it was saved from, which is free and may be filled. */
  lemma LinkBack(pl: Placing, b: Book, c: Book, done: set<Slot>, s: Slot)
    requires Consistent(pl, b) && Linking(pl, b, c, done) && s in b.newTable && s !in done
    ensures var index := Index(b.info, b.newTable[s]);
            && 0 <= index < b.nNew && index in c.info && Order(b)[index] == b.newTable[s]
            && !c.info[index].inTried && c.info[index].refCount < NEW_BUCKETS_PER_ADDRESS
            && s.bucket < NEW_BUCKET_COUNT && s == pl.NewSlot(c.info[index].record.Service(), s.bucket)
  {
    hide Inv, NewOrder, TriedOrder, Placing.NewSlot, SameSlots, Enumerates;
    InvSlot(pl, b, {}, {}, s);
    var id := b.newTable[s];
    OrderLengths(pl, b);
    IdInRange(pl, b, id);
    IndexIsPosition(b.info, id, b.idCount);
    OrderEnumerates(pl, b);
    var index := Index(b.info, id);
    InvAt(pl, c, c.info.Keys, {}, index);
    InvAt(pl, b, {}, {}, id);
    assert Refs(c.newTable, index) <= Refs(b.newTable, id) - {s};
    SubsetSize(Refs(c.newTable, index), Refs(b.newTable, id) - {s});
    assert s in Refs(b.newTable, id);
  }

  lemma IdInRange(pl: Placing, b: Book, id: int)
    requires Consistent(pl, b) && id in b.info
    ensures 0 <= id < b.idCount
  {
  }

  lemma LinkNext(pl: Placing, b: Book, c: Book, done: set<Slot>, s: Slot)
    requires Consistent(pl, b) && Linking(pl, b, c, done) && s in b.newTable && s !in done
    ensures Linking(pl, b, LoadIndex(pl, true, c, s.bucket, Index(b.info, b.newTable[s])), done + {s})
  {
    hide Inv, Index, Order, Placing.NewSlot, SameSlots, Consistent;
    LinkBack(pl, b, c, done, s);
    var index := Index(b.info, b.newTable[s]);
    var d := Link(c, s, index);
    assert LoadIndex(pl, true, c, s.bucket, index) == d;
    LinkKeeps(pl, c, s, index, c.info.Keys, {});
    Loosen(pl, d, index, c.info.Keys - {index}, {});
    assert c.info.Keys - {index} + {index} == d.info.Keys;
  }

  /** Slots of the new table up to position `i` of a bucket. */
  ghost function Before(b: Book, bucket: nat, i: nat): set<Slot> {
    set s | s in b.newTable && (s.bucket < bucket || (s.bucket == bucket && s.pos < i))
  }

  lemma {:induction false} LoadBucketLinks(pl: Placing, b: Book, c: Book, bucket: nat, i: nat)
    requires Consistent(pl, b) && Linking(pl, b, c, Before(b, bucket, 0))
    ensures Linking(pl, b, LoadBucket(pl, true, c, bucket, BucketIndexes(b, bucket, i)), Before(b, bucket, i))
  {
    hide Linking, Index, LoadIndex, Consistent;
    if i > 0 {
      LoadBucketLinks(pl, b, c, bucket, i - 1);
      var s := Slot(bucket, i - 1);
      if s in b.newTable {
        var before := BucketIndexes(b, bucket, i - 1);
        assert (before + [Index(b.info, b.newTable[s])])[..|before|] == before;
        assert Before(b, bucket, i) == Before(b, bucket, i - 1) + {s};
        LinkNext(pl, b, LoadBucket(pl, true, c, bucket, before), Before(b, bucket, i - 1), s);
      } else {
        assert Before(b, bucket, i) == Before(b, bucket, i - 1);
        assert BucketIndexes(b, bucket, i) == BucketIndexes(b, bucket, i - 1);
      }
    }
  }

  lemma BeforeNext(pl: Placing, b: Book, bucket: nat)
    requires Consistent(pl, b)
    ensures Before(b, bucket, BUCKET_SIZE) == Before(b, bucket + 1, 0)
    ensures Before(b, NEW_BUCKET_COUNT, 0) == b.newTable.Keys
  {
    hide Inv, Placing.NewSlot;
    forall s | s in b.newTable
      ensures s.pos < BUCKET_SIZE && s.bucket < NEW_BUCKET_COUNT
    {
      InvSlot(pl, b, {}, {}, s);
      NewSlotPosition(pl, b.info[b.newTable[s]].record.Service(), s.bucket);
    }
  }

  lemma NewSlotPosition(pl: Placing, s: Service, bucket: nat)
    ensures pl.NewSlot(s, bucket).pos < BUCKET_SIZE
  {
  }

  lemma {:induction false} LoadBucketsLink(pl: Placing, b: Book, c: Book, buckets: seq<seq<int>>)
    requires Consistent(pl, b) && Linking(pl, b, c, {})
    requires forall k :: 0 <= k < |buckets| ==> buckets[k] == BucketIndexes(b, k, BUCKET_SIZE)
    ensures Linking(pl, b, LoadBuckets(pl, true, c, buckets), Before(b, |buckets|, 0))
  {
    hide Linking, Consistent, BucketIndexes, LoadBucket;
    if buckets == [] {
      assert Before(b, 0, 0) == {};
    } else {
      hide Before;
      var n := |buckets| - 1;
      LoadBucketsLink(pl, b, c, buckets[..n]);
      LoadBucketLinks(pl, b, LoadBuckets(pl, true, c, buckets[..n]), n, BUCKET_SIZE);
      BeforeNext(pl, b, n);
    }
  }

  // ----- the round trip -----

  lemma {:induction false} NothingToPrune(b: Book, n: int)
    requires forall k :: k in b.info ==> b.info[k].inTried || b.info[k].refCount != 0
    ensures Prune(b, n) == b
  {
    if n > 0 {
      NothingToPrune(b, n - 1);
    }
  }

  /** With every slot filled, the reference counts are the old ones. */
  lemma CountsComeBack(pl: Placing, b: Book, c: Book, k: int)
    requires Consistent(pl, b) && Linking(pl, b, c, b.newTable.Keys) && k in c.info
    ensures c.info[k].refCount == b.info[Order(b)[k]].refCount
  {
    hide Inv, Order, SameSlots;
    OrderEnumerates(pl, b);
    InvAt(pl, c, c.info.Keys, {}, k);
    InvAt(pl, b, {}, {}, Order(b)[k]);
    assert Refs(c.newTable, k) == Refs(b.newTable, Order(b)[k]);
  }

  lemma RefsTight(table: map<Slot, int>, info: map<int, Info>)
    requires RefsOk(table, info, info.Keys)
    requires forall k :: k in info ==> info[k].inTried || 1 <= info[k].refCount <= NEW_BUCKETS_PER_ADDRESS
    ensures RefsOk(table, info, {})
  {
    hide Refs;
  }

  lemma LinkingParts(pl: Placing, b: Book, c: Book)
    requires Linking(pl, b, c, b.newTable.Keys)
    ensures RefsOk(c.newTable, c.info, c.info.Keys)
    ensures RefsOk(c.newTable, c.info, {}) ==> Consistent(pl, c)
    ensures Entries(b, Order(b), c.info, |Order(b)|)
    ensures Enumerates(Order(b), b.info) ==> Renumbered(b, c, Order(b))
    ensures c.idCount == |Order(b)|
  {
    hide IdsOk, RandomOk, IpOk, TriedOk, NewOk, CountsOk, StatsOk, RefsOk, Order, Enumerates, Entries;
  }

  lemma AllLinked(pl: Placing, b: Book, c: Book)
    requires Consistent(pl, b) && Linking(pl, b, c, b.newTable.Keys)
    ensures Consistent(pl, c) && Renumbered(b, c, Order(b)) && c.idCount == |Order(b)|
    ensures forall k :: k in c.info ==> c.info[k].inTried || c.info[k].refCount != 0
    ensures forall k :: k in c.info ==> c.info[k].refCount == b.info[Order(b)[k]].refCount
  {
    hide Inv, Linking, Order, RefsOk, Enumerates, Renumbered, Refs;
    OrderEnumerates(pl, b);
    LinkingParts(pl, b, c);
    forall k | k in c.info
      ensures c.info[k].refCount == b.info[Order(b)[k]].refCount
      ensures c.info[k].inTried || 1 <= c.info[k].refCount <= NEW_BUCKETS_PER_ADDRESS
    {
      CountsComeBack(pl, b, c, k);
      InvAt(pl, b, {}, {}, Order(b)[k]);
    }
    RefsTight(c.newTable, c.info);
  }

  /**
   Unserialize after Serialize: nothing is lost or pruned, and the tables are the old
   ones with ids renumbered in the order in which they were written.
   */
  lemma RoundTrip(pl: Placing, b: Book)
    requires Consistent(pl, b)
    ensures Consistent(pl, Load(pl, Save(b, pl.key))) && Renumbered(b, Load(pl, Save(b, pl.key)), Order(b))
    ensures forall k :: k in Load(pl, Save(b, pl.key)).info ==>
              Load(pl, Save(b, pl.key)).info[k].refCount == b.info[Order(b)[k]].refCount
  {
    var s := Save(b, pl.key);
    hide Inv, NewOrder, TriedOrder, BucketIndexes, Linking, Reread, LoadBuckets, Prune, Enumerates, Before, Renumbered;
    RecordsAre(pl, b);
    RecordsBack(pl, b, s);
    var b2 := Reread(pl, s);
    StartLinking(pl, b, b2);
    LoadBucketsLink(pl, b, b2, s.buckets);
    var b3 := LoadBuckets(pl, true, b2, s.buckets);
    BeforeNext(pl, b, 0);
    AllLinked(pl, b, b3);
    NothingToPrune(b3, b3.idCount);
  }

  /** The saved records are those of the entries, in order. */
  ghost predicate RecordsOf(b: Book, s: Saved) {
    && |s.newRecords| == b.nNew && |s.triedRecords| == b.nTried && b.nNew + b.nTried == |Order(b)|
    && (forall k :: 0 <= k < |s.newRecords| ==> RecordAt(b, k, s.newRecords[k]))
    && (forall k :: 0 <= k < |s.triedRecords| ==> RecordAt(b, b.nNew + k, s.triedRecords[k]))
  }

  lemma RecordsAre(pl: Placing, b: Book)
    requires Consistent(pl, b)
    ensures Usable(Save(b, pl.key)) && RecordsOf(b, Save(b, pl.key))
  {
    hide Inv, NewOrder, TriedOrder, BucketIndexes;
    OrderLengths(pl, b);
    OrderMembership(pl, b);
    var news, trieds := NewOrder(b.info, b.idCount), TriedOrder(b.info, b.idCount);
    hide NewIds, TriedIds;
    forall k | 0 <= k < b.nNew
      ensures RecordAt(b, k, Save(b, pl.key).newRecords[k])
    {
      OrderSplit(pl, b, k);
      assert Order(b)[k] == news[k];
    }
    forall k | 0 <= k < b.nTried
      ensures RecordAt(b, b.nNew + k, Save(b, pl.key).triedRecords[k])
    {
      OrderSplit(pl, b, b.nNew + k);
      assert Order(b)[b.nNew + k] == trieds[k];
    }
  }

  lemma RecordsBack(pl: Placing, b: Book, s: Saved)
    requires Consistent(pl, b) && Usable(s) && RecordsOf(b, s)
    ensures var c := Reread(pl, s);
            && Rebuilt(pl, b, Order(b), c, |Order(b)|)
            && c.nNew == b.nNew && c.nTried == b.nTried && c.idCount == |Order(b)|
  {
    hide Inv, Usable, Order, LoadTried, LoadNew, RecordAt, Rebuilt;
    var b0 := EmptyBook.(nNew := |s.newRecords|, nTried := |s.triedRecords|);
    LoadNewRebuilds(pl, b, b0, s.newRecords);
    var c := LoadNew(pl, true, b0, s.newRecords);
    RebuiltRenamed(pl, b, c, |s.newRecords|, |s.newRecords|);
    LoadTriedRebuilds(pl, b, c.(idCount := |s.newRecords|), s.triedRecords);
  }

  lemma RebuiltRenamed(pl: Placing, b: Book, c: Book, m: int, n: int)
    requires Rebuilt(pl, b, Order(b), c, m)
    ensures Rebuilt(pl, b, Order(b), c.(idCount := n), m)
  {
    hide Order, Entries, RandomOk, IpOk, TriedOk;
  }

  // ----- the limits -----

  ghost function Row(bucket: nat, size: nat): (r: set<Slot>)
    ensures |r| == size && forall s :: s in r <==> s.bucket == bucket && s.pos < size
  {
    if size == 0 then {} else Row(bucket, size - 1) + {Slot(bucket, size - 1)}
  }

  ghost function Grid(count: nat): (g: set<Slot>)
    ensures |g| == count * BUCKET_SIZE && forall s :: s in g <==> s.bucket < count && s.pos < BUCKET_SIZE
  {
    if count == 0 then {}
    else
      assert Grid(count - 1) !! Row(count - 1, BUCKET_SIZE);
      Grid(count - 1) + Row(count - 1, BUCKET_SIZE)
  }

  lemma NewIdsFit(pl: Placing, b: Book)
    requires Consistent(pl, b)
    ensures |NewIds(b.info)| <= NEW_BUCKET_COUNT * BUCKET_SIZE
  {
    hide Inv, Placing.NewSlot, Grid;
    forall id | id in NewIds(b.info)
      ensures Held(b.newTable, b.newTable.Keys, id)
    {
      InvAt(pl, b, {}, {}, id);
      var s :| s in Refs(b.newTable, id);
    }
    hide Refs, Held;
    ValuesFit(b.newTable, b.newTable.Keys, NewIds(b.info));
    forall s | s in b.newTable
      ensures s in Grid(NEW_BUCKET_COUNT)
    {
      InvSlot(pl, b, {}, {}, s);
      NewSlotPosition(pl, b.info[b.newTable[s]].record.Service(), s.bucket);
    }
    SubsetSize(b.newTable.Keys, Grid(NEW_BUCKET_COUNT));
  }

  lemma TriedIdsFit(pl: Placing, b: Book)
    requires Consistent(pl, b)
    ensures |TriedIds(b.info)| <= TRIED_BUCKET_COUNT * BUCKET_SIZE
  {
    hide Inv, Placing.TriedSlot, Grid, Refs;
    forall id | id in TriedIds(b.info)
      ensures Held(b.triedTable, b.triedTable.Keys, id)
    {
      TriedHeld(pl, b, id);
    }
    hide Held;
    ValuesFit(b.triedTable, b.triedTable.Keys, TriedIds(b.info));
    forall s | s in b.triedTable
      ensures s in Grid(TRIED_BUCKET_COUNT)
    {
      Ops.TriedEntry(pl, b, {}, {}, s);
      TriedSlotInGrid(pl, b.info[b.triedTable[s]].record.Service());
    }
    SubsetSize(b.triedTable.Keys, Grid(TRIED_BUCKET_COUNT));
  }

  /** Consistent tables never exceed the limits that Unserialize enforces. */
  lemma WithinLimits(pl: Placing, b: Book)
    requires Consistent(pl, b)
    ensures 0 <= b.nNew <= NEW_BUCKET_COUNT * BUCKET_SIZE && 0 <= b.nTried <= TRIED_BUCKET_COUNT * BUCKET_SIZE
  {
    hide Inv, NewIds, TriedIds;
    CountersAreSets(pl, b);
    NewIdsFit(pl, b);
    TriedIdsFit(pl, b);
  }

  lemma CountersAreSets(pl: Placing, b: Book)
    requires Consistent(pl, b)
    ensures b.nNew == |NewIds(b.info)| && b.nTried == |TriedIds(b.info)|
  {
    hide IdsOk, RandomOk, IpOk, TriedOk, NewOk, RefsOk, StatsOk;
    assert NewIds(b.info) - {} == NewIds(b.info);
  }

  lemma TriedHeld(pl: Placing, b: Book, id: int)
    requires Consistent(pl, b) && id in TriedIds(b.info)
    ensures Held(b.triedTable, b.triedTable.Keys, id)
  {
    hide IdsOk, RandomOk, IpOk, CountsOk, NewOk, RefsOk, StatsOk, Placing.TriedSlot;
    TriedSlotHeld(pl, b.triedTable, b.info, id);
    assert pl.TriedSlot(b.info[id].record.Service()) in b.triedTable.Keys;
  }

  lemma TriedSlotInGrid(pl: Placing, s: Service)
    ensures pl.TriedSlot(s).bucket < TRIED_BUCKET_COUNT && pl.TriedSlot(s).pos < BUCKET_SIZE
  {
  }
}
