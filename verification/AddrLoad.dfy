/**
 Loading an arbitrary file (src/addrman.h, Unserialize): the file need not have been
 written by Serialize.  All indexes come out right except possibly two: the map from
 network addresses, which forgets one of two records with the same address, and the
 success times, which are taken as they are.
 */
module AddrLoad {
  import opened Prelude
  import opened AddrBook
  import opened AddrSave
  import Ops = AddrOps

  // ----- what is read -----

  /** The tried records that keep their slot: the first of those hashed to it. */
  function KeptTried(pl: Placing, recs: seq<Record>): seq<Record> {
    if recs == [] then []
    else
      var kept, r := KeptTried(pl, recs[..|recs| - 1]), recs[|recs| - 1];
      if Occupied(pl, kept, pl.TriedSlot(r.Service())) then kept else kept + [r]
  }

  predicate Occupied(pl: Placing, kept: seq<Record>, s: Slot) {
    exists i :: 0 <= i < |kept| && pl.TriedSlot(kept[i].Service()) == s
  }

  /** All records that become entries, by id. */
  function Read(pl: Placing, s: Saved): seq<Record> {
    s.newRecords + KeptTried(pl, s.triedRecords)
  }

  /** A new record for which a slot was found. */
  ghost predicate Placed(pl: Placing, s: Saved, k: int) {
    k in Filled(pl, s).newTable.Values
  }

  /** The records that are kept: all tried ones read, and the new ones with a slot. */
  ghost predicate Kept(pl: Placing, s: Saved, k: int) {
    0 <= k < |Read(pl, s)| && (k >= |s.newRecords| || Placed(pl, s, k))
  }

  /**
   A kept record has a plausible success time and shares its network address with no
   other record read, not even with one that is dropped.
   */
  ghost predicate FileSound(pl: Placing, s: Saved) {
    forall k :: Kept(pl, s, k) ==>
      && Read(pl, s)[k].lastSuccess >= (if k < |s.newRecords| then 0 else 1)
      && forall j :: 0 <= j < |Read(pl, s)| && j != k ==> Read(pl, s)[j].Ip() != Read(pl, s)[k].Ip()
  }

  // ----- what holds while records are read -----

  /** Every entry's address is filed, and filed addresses lead to an entry with that address. */
  ghost predicate IpKnown(byIp: map<NetAddr, int>, info: map<int, Info>) {
    && (forall id :: id in info ==> info[id].record.Ip() in byIp)
    && (forall ip :: ip in byIp ==> byIp[ip] in info && info[byIp[ip]].record.Ip() == ip)
  }

  /** Ids are positions among the records, the first `n` of them new. */
  ghost predicate Listed(info: map<int, Info>, recs: seq<Record>, n: int) {
    && (forall k :: k in info <==> 0 <= k < |recs|)
    && (forall k :: 0 <= k < |recs| ==> info[k].record == recs[k] && (info[k].inTried <==> n <= k))
  }

  ghost predicate Young(info: map<int, Info>) {
    forall k :: k in info ==> info[k].lastTry == 0 && info[k].refCount <= NEW_BUCKETS_PER_ADDRESS
  }

  /** The invariant apart from the two counters, the success times and the map of addresses. */
  ghost predicate Raw(pl: Placing, b: Book) {
    && RandomOk(b.random, b.info) && TriedOk(pl, b.triedTable, b.info) && NewOk(pl, b.newTable, b.info)
    && RefsOk(b.newTable, b.info, b.info.Keys) && Young(b.info)
  }

  // ----- one more entry -----

  function Entered(b: Book, id: int, r: Record, tried: bool, table: map<Slot, int>): Book {
    b.(info := b.info[id := Info(r, 0, 0, 0, tried, |b.random|)], byIp := b.byIp[r.Ip() := id],
       random := b.random + [id], triedTable := table)
  }

  lemma EnterKnown(byIp: map<NetAddr, int>, info: map<int, Info>, id: int, e: Info)
    requires IpKnown(byIp, info) && id !in info
    ensures IpKnown(byIp[e.record.Ip() := id], info[id := e])
  {
  }

  lemma EnterRefs(pl: Placing, table: map<Slot, int>, info: map<int, Info>, id: int, e: Info)
    requires NewOk(pl, table, info) && RefsOk(table, info, info.Keys) && id !in info && e.refCount == 0
    ensures NewOk(pl, table, info[id := e]) && RefsOk(table, info[id := e], info[id := e].Keys)
  {
    assert Refs(table, id) == {};
    hide Refs, Placing.NewSlot;
  }

  lemma EnterYoung(info: map<int, Info>, id: int, e: Info)
    requires Young(info) && e.lastTry == 0 && e.refCount == 0
    ensures Young(info[id := e])
  {
  }

  lemma EnterUntried(pl: Placing, table: map<Slot, int>, info: map<int, Info>, id: int, e: Info)
    requires TriedOk(pl, table, info) && id !in info && !e.inTried
    ensures TriedOk(pl, table, info[id := e])
  {
    hide Placing.TriedSlot;
  }

  lemma EnteredRaw(pl: Placing, b: Book, id: int, r: Record, tried: bool, table: map<Slot, int>)
    requires Raw(pl, b) && IpKnown(b.byIp, b.info) && id !in b.info
    requires TriedOk(pl, table, Entered(b, id, r, tried, table).info)
    ensures var c := Entered(b, id, r, tried, table); Raw(pl, c) && IpKnown(c.byIp, c.info)
  {
    hide RandomOk, TriedOk, NewOk, RefsOk, Young, IpKnown;
    var e := Info(r, 0, 0, 0, tried, |b.random|);
    CreateRandom(b.random, b.info, id, e);
    EnterKnown(b.byIp, b.info, id, e);
    EnterRefs(pl, b.newTable, b.info, id, e);
    EnterYoung(b.info, id, e);
  }

  // ----- one more slot -----

  lemma CountUp(byIp: map<NetAddr, int>, info: map<int, Info>, id: int, e: Info)
    requires Young(info) && IpKnown(byIp, info) && id in info && info[id].refCount < NEW_BUCKETS_PER_ADDRESS
    requires e == info[id].(refCount := info[id].refCount + 1)
    ensures Young(info[id := e]) && IpKnown(byIp, info[id := e]) && info[id := e].Keys == info.Keys
  {
  }

  lemma LinkRaw(pl: Placing, b: Book, t: Slot, id: int)
    requires Raw(pl, b) && IpKnown(b.byIp, b.info) && t !in b.newTable && id in b.info && !b.info[id].inTried
    requires b.info[id].refCount < NEW_BUCKETS_PER_ADDRESS
    requires t.bucket < NEW_BUCKET_COUNT && t == pl.NewSlot(b.info[id].record.Service(), t.bucket)
    ensures var c := Link(b, t, id);
            && Raw(pl, c) && IpKnown(c.byIp, c.info) && c.info.Keys == b.info.Keys
            && (forall k :: k in c.info ==> c.info[k].record == b.info[k].record && c.info[k].inTried == b.info[k].inTried)
  {
    hide RandomOk, TriedOk, NewOk, RefsOk, Young, IpKnown, Placing.NewSlot;
    var e := b.info[id].(refCount := b.info[id].refCount + 1);
    CountUp(b.byIp, b.info, id, e);
    UpdateRandom(b.random, b.info, id, e);
    UpdateTried(pl, b.triedTable, b.info, id, e);
    UpdateNew(pl, b.newTable, b.info, id, e);
    LinkNewTable(pl, b.newTable, b.info[id := e], t, id);
    LinkRefs(b.newTable, b.info, b.info.Keys, t, id);
  }

  // ----- the whole file -----

  /** The records `recs` are read, the first `n` as new ones. */
  ghost predicate Reading(pl: Placing, b: Book, recs: seq<Record>, n: int) {
    Raw(pl, b) && IpKnown(b.byIp, b.info) && Listed(b.info, recs, n)
  }

  lemma NothingRead(pl: Placing, b: Book)
    requires b == EmptyBook.(nNew := b.nNew, nTried := b.nTried)
    ensures Reading(pl, b, [], 0)
  {
  }

  lemma ReadNewKeeps(pl: Placing, usable: bool, b: Book, recs: seq<Record>, r: Record)
    requires Reading(pl, b, recs, |recs|)
    ensures Reading(pl, ReadNew(pl, usable, b, |recs|, r), recs + [r], |recs| + 1)
  {
    hide Raw, IpKnown, TriedOk, Ops.HomeSlot, Link;
    var n := |recs|;
    var c := Entered(b, n, r, false, b.triedTable);
    RawTried(pl, b);
    EnterUntried(pl, b.triedTable, b.info, n, Info(r, 0, 0, 0, false, |b.random|));
    EnteredRaw(pl, b, n, r, false, b.triedTable);
    var t := Ops.HomeSlot(pl, r);
    if !usable && t !in c.newTable {
      Ops.HomeSlotBucket(pl, r);
      LinkRaw(pl, c, t, n);
    }
  }

  lemma RawTried(pl: Placing, b: Book)
    requires Raw(pl, b)
    ensures TriedOk(pl, b.triedTable, b.info)
  {
  }

  lemma {:induction false} LoadNewReads(pl: Placing, usable: bool, b: Book, recs: seq<Record>)
    requires b == EmptyBook.(nNew := b.nNew, nTried := b.nTried)
    ensures Reading(pl, LoadNew(pl, usable, b, recs), recs, |recs|)
    ensures LoadNew(pl, usable, b, recs).nNew == b.nNew && LoadNew(pl, usable, b, recs).nTried == b.nTried
    ensures LoadNew(pl, usable, b, recs).triedTable == map[]
  {
    hide Reading;
    if recs == [] {
      NothingRead(pl, b);
    } else {
      var rest, r := recs[..|recs| - 1], recs[|recs| - 1];
      LoadNewReads(pl, usable, b, rest);
      ReadNewKeeps(pl, usable, LoadNew(pl, usable, b, rest), rest, r);
      assert rest + [r] == recs;
    }
  }

  /** The tried table holds exactly the slots of the tried records kept. */
  lemma SlotTaken(pl: Placing, b: Book, news: seq<Record>, kept: seq<Record>, s: Slot)
    requires TriedOk(pl, b.triedTable, b.info) && Listed(b.info, news + kept, |news|)
    ensures s in b.triedTable <==> Occupied(pl, kept, s)
  {
    hide Placing.TriedSlot;
    var all := news + kept;
    if s in b.triedTable {
      var k := b.triedTable[s];
      assert all[k] == kept[k - |news|];
    }
    if Occupied(pl, kept, s) {
      var i :| 0 <= i < |kept| && pl.TriedSlot(kept[i].Service()) == s;
      assert all[|news| + i] == kept[i] && b.info[|news| + i].inTried;
    }
  }

  lemma ReadTriedKeeps(pl: Placing, b: Book, news: seq<Record>, kept: seq<Record>, r: Record)
    requires Reading(pl, b, news + kept, |news|) && b.idCount == |news| + |kept|
    ensures var kept' := if Occupied(pl, kept, pl.TriedSlot(r.Service())) then kept else kept + [r];
            var c := ReadTried(pl, b, r);
            && Reading(pl, c, news + kept', |news|) && c.idCount == |news| + |kept'|
            && c.nTried - b.nTried == |kept'| - |kept| - 1 && c.nNew == b.nNew
  {
    hide Raw, IpKnown, TriedOk, Occupied, Placing.TriedSlot;
    var s := pl.TriedSlot(r.Service());
    RawTried(pl, b);
    SlotTaken(pl, b, news, kept, s);
    if s !in b.triedTable {
      CreateTried(pl, b.triedTable, b.info, b.idCount, Info(r, 0, 0, 0, true, |b.random|));
      EnteredRaw(pl, b, b.idCount, r, true, b.triedTable[s := b.idCount]);
      ReadingShift(pl, Entered(b, b.idCount, r, true, b.triedTable[s := b.idCount]), b.idCount + 1, b.nTried);
      assert news + (kept + [r]) == news + kept + [r];
    } else {
      ReadingShift(pl, b, b.idCount, b.nTried - 1);
    }
  }

  /** The counters play no part while records are read. */
  lemma ReadingShift(pl: Placing, b: Book, idCount: int, nTried: int)
    requires Raw(pl, b) && IpKnown(b.byIp, b.info)
    ensures Raw(pl, b.(idCount := idCount, nTried := nTried))
  {
    hide RandomOk, TriedOk, NewOk, RefsOk, Young, IpKnown;
  }

  lemma {:induction false} LoadTriedReads(pl: Placing, b: Book, news: seq<Record>, recs: seq<Record>)
    requires Reading(pl, b, news, |news|) && b.idCount == |news|
    ensures var kept := KeptTried(pl, recs);
            var c := LoadTried(pl, b, recs);
            && Reading(pl, c, news + kept, |news|) && c.idCount == |news| + |kept|
            && c.nTried == b.nTried + |kept| - |recs| && c.nNew == b.nNew
  {
    hide Reading, ReadTried, Occupied, Placing.TriedSlot;
    if recs == [] {
      assert news + [] == news;
    } else {
      var rest, r := recs[..|recs| - 1], recs[|recs| - 1];
      LoadTriedReads(pl, b, news, rest);
      ReadTriedKeeps(pl, LoadTried(pl, b, rest), news, KeptTried(pl, rest), r);
    }
  }

  lemma LoadIndexKeeps(pl: Placing, usable: bool, b: Book, recs: seq<Record>, bucket: nat, index: int)
    requires Reading(pl, b, recs, b.nNew) && (usable ==> bucket < NEW_BUCKET_COUNT)
    ensures var c := LoadIndex(pl, usable, b, bucket, index);
            && Reading(pl, c, recs, b.nNew) && c.nNew == b.nNew && c.nTried == b.nTried && c.idCount == b.idCount
  {
    hide Raw, IpKnown, Link, Placing.NewSlot;
    if 0 <= index < b.nNew && index in b.info {
      var t := pl.NewSlot(b.info[index].record.Service(), bucket);
      if usable && t !in b.newTable && b.info[index].refCount < NEW_BUCKETS_PER_ADDRESS {
        Ops.NewSlotBucket(pl, b.info[index].record.Service(), bucket);
        LinkRaw(pl, b, t, index);
        LinkCounters(b, t, index);
      }
    }
  }

  lemma LinkCounters(b: Book, t: Slot, id: int)
    ensures var c := Link(b, t, id); c.nNew == b.nNew && c.nTried == b.nTried && c.idCount == b.idCount
  {
  }

  lemma {:induction false} LoadBucketKeeps(pl: Placing, usable: bool, b: Book, recs: seq<Record>, bucket: nat, indexes: seq<int>)
    requires Reading(pl, b, recs, b.nNew) && (usable ==> bucket < NEW_BUCKET_COUNT)
    ensures var c := LoadBucket(pl, usable, b, bucket, indexes);
            && Reading(pl, c, recs, b.nNew) && c.nNew == b.nNew && c.nTried == b.nTried && c.idCount == b.idCount
  {
    hide Reading, LoadIndex;
    if indexes != [] {
      var rest := indexes[..|indexes| - 1];
      LoadBucketKeeps(pl, usable, b, recs, bucket, rest);
      LoadIndexKeeps(pl, usable, LoadBucket(pl, usable, b, bucket, rest), recs, bucket, indexes[|indexes| - 1]);
    }
  }

  lemma {:induction false} LoadBucketsKeeps(pl: Placing, usable: bool, b: Book, recs: seq<Record>, buckets: seq<seq<int>>)
    requires Reading(pl, b, recs, b.nNew) && (usable ==> |buckets| <= NEW_BUCKET_COUNT)
    ensures var c := LoadBuckets(pl, usable, b, buckets);
            && Reading(pl, c, recs, b.nNew) && c.nNew == b.nNew && c.nTried == b.nTried && c.idCount == b.idCount
  {
    hide Reading, LoadBucket;
    if buckets != [] {
      var n := |buckets| - 1;
      LoadBucketsKeeps(pl, usable, b, recs, buckets[..n]);
      LoadBucketKeeps(pl, usable, LoadBuckets(pl, usable, b, buckets[..n]), recs, n, buckets[n]);
    }
  }

  /** Before pruning: every record read is an entry under its position, and the counters are exact. */
  lemma FilledReads(pl: Placing, s: Saved)
    ensures var b := Filled(pl, s);
            && Reading(pl, b, Read(pl, s), |s.newRecords|) && |s.newRecords| <= |Read(pl, s)|
            && b.idCount == |Read(pl, s)| && b.nNew == |s.newRecords| && b.nTried == |Read(pl, s)| - |s.newRecords|
  {
    hide LoadNew, LoadTried, LoadBuckets, KeptTried, Raw, IpKnown;
    var b0 := EmptyBook.(nNew := |s.newRecords|, nTried := |s.triedRecords|);
    LoadNewReads(pl, Usable(s), b0, s.newRecords);
    var b1 := LoadNew(pl, Usable(s), b0, s.newRecords);
    ReadingShift(pl, b1, |s.newRecords|, b1.nTried);
    hide Reading;
    LoadTriedReads(pl, b1.(idCount := |s.newRecords|), s.newRecords, s.triedRecords);
    LoadBucketsKeeps(pl, Usable(s), Reread(pl, s), Read(pl, s), s.buckets);
  }

  // ----- pruning -----

  /** A new entry without a slot. */
  predicate Doomed(e: Info) {
    !e.inTried && e.refCount == 0
  }

  /** The addresses of the entries below id `n` that are dropped. */
  ghost function LostIps(info: map<int, Info>, n: int): set<NetAddr> {
    set k | k in info && k < n && Doomed(info[k]) :: info[k].record.Ip()
  }

  /** `c` is `b` without the doomed entries below `n`; their addresses are forgotten, whoever else has them. */
  ghost predicate Pruned(b: Book, c: Book, n: int) {
    && (forall k :: k in c.info <==> k in b.info && !(k < n && Doomed(b.info[k])))
    && (forall k :: k in c.info ==> Ops.SameEntry(b.info[k], c.info[k]))
    && c.byIp == b.byIp - LostIps(b.info, n)
    && c.idCount == b.idCount && c.triedTable == b.triedTable && c.newTable == b.newTable
  }

  lemma SameTables(pl: Placing, b: Book, c: Book)
    requires c.info.Keys == b.info.Keys && c.triedTable == b.triedTable && c.newTable == b.newTable
    requires forall k :: k in c.info ==> Ops.SameEntry(b.info[k], c.info[k])
    ensures forall k :: k in b.info <==> k in c.info
    ensures TriedOk(pl, b.triedTable, b.info) ==> TriedOk(pl, c.triedTable, c.info)
    ensures NewOk(pl, b.newTable, b.info) ==> NewOk(pl, c.newTable, c.info)
    ensures RefsOk(b.newTable, b.info, b.info.Keys) ==> RefsOk(c.newTable, c.info, c.info.Keys)
    ensures Young(b.info) ==> Young(c.info)
  {
    hide Placing.TriedSlot, Placing.NewSlot, Refs;
    SameBack(b, c);
  }

  lemma SameBack(b: Book, c: Book)
    requires c.info.Keys == b.info.Keys
    requires forall k :: k in c.info ==> Ops.SameEntry(b.info[k], c.info[k])
    ensures forall k :: k in b.info ==> k in c.info && Ops.SameEntry(b.info[k], c.info[k])
    ensures forall k :: k in c.info ==> k in b.info
  {
    forall k | k in b.info
      ensures k in c.info
    {
      assert k in b.info.Keys;
    }
    forall k | k in c.info
      ensures k in b.info
    {
      assert k in c.info.Keys;
    }
  }

  lemma SameCounts(b: Book, c: Book)
    requires c.info.Keys == b.info.Keys && (forall k :: k in c.info ==> Ops.SameEntry(b.info[k], c.info[k]))
    ensures TriedIds(c.info) == TriedIds(b.info) && NewIds(c.info) == NewIds(b.info)
  {
    SameBack(b, c);
  }

  lemma DropRefs(table: map<Slot, int>, info: map<int, Info>, id: int)
    requires RefsOk(table, info, info.Keys) && Young(info)
    ensures RefsOk(table, info - {id}, (info - {id}).Keys) && Young(info - {id})
  {
    hide Refs;
  }

  lemma DeleteRaw(pl: Placing, b: Book, id: int)
    requires Raw(pl, b) && CountsOk(b.nTried, b.nNew, b.info, {}) && id in b.info && Doomed(b.info[id])
    ensures var c := Delete(b, id); Raw(pl, c) && CountsOk(c.nTried, c.nNew, c.info, {})
  {
    assert Refs(b.newTable, id) == {};
    hide RandomOk, TriedOk, NewOk, RefsOk, Young, CountsOk, Delete, Refs;
    Ops.DeleteExact(b, id);
    var c := Delete(b, id);
    var d := b.(info := b.info - {id}, nNew := b.nNew - 1);
    DropTables(pl, b, id);
    DropRefs(b.newTable, b.info, id);
    DropCounts(b.nTried, b.nNew, b.info, {}, id);
    SameTables(pl, d, c);
    MovedCounts(d, c);
  }

  lemma MovedCounts(b: Book, c: Book)
    requires c.info.Keys == b.info.Keys && (forall k :: k in c.info ==> Ops.SameEntry(b.info[k], c.info[k]))
    requires CountsOk(b.nTried, b.nNew, b.info, {}) && c.nTried == b.nTried && c.nNew == b.nNew
    ensures CountsOk(c.nTried, c.nNew, c.info, {})
  {
    SameCounts(b, c);
  }

  lemma PrunedNext(b: Book, c: Book, d: Book, n: int)
    requires Pruned(b, c, n) && RandomOk(c.random, c.info)
    requires d == if n in c.info && Doomed(c.info[n]) then Delete(c, n) else c
    ensures Pruned(b, d, n + 1)
  {
    hide RandomOk, Delete;
    if n in c.info && Doomed(c.info[n]) {
      Ops.DeleteExact(c, n);
      assert LostIps(b.info, n + 1) == LostIps(b.info, n) + {c.info[n].record.Ip()};
      assert c.byIp - {c.info[n].record.Ip()} == b.byIp - LostIps(b.info, n + 1);
    } else {
      assert LostIps(b.info, n + 1) == LostIps(b.info, n);
    }
  }

  lemma NotYetPruned(b: Book, n: int)
    requires n <= 0 && forall k :: k in b.info ==> 0 <= k
    ensures Pruned(b, b, n)
  {
    assert LostIps(b.info, n) == {};
  }

  lemma RawRandom(pl: Placing, b: Book)
    requires Raw(pl, b)
    ensures RandomOk(b.random, b.info)
  {
  }

  lemma {:induction false} PruneIs(pl: Placing, b: Book, n: int)
    requires Raw(pl, b) && CountsOk(b.nTried, b.nNew, b.info, {}) && forall k :: k in b.info ==> 0 <= k
    ensures var c := Prune(b, n);
            && Pruned(b, c, n) && Raw(pl, c) && CountsOk(c.nTried, c.nNew, c.info, {})
    decreases n
  {
    hide Raw, CountsOk, Delete, Pruned;
    if n <= 0 {
      NotYetPruned(b, n);
    } else {
      PruneIs(pl, b, n - 1);
      var c := Prune(b, n - 1);
      RawRandom(pl, c);
      PrunedNext(b, c, Prune(b, n), n - 1);
      if n - 1 in c.info && Doomed(c.info[n - 1]) {
        DeleteRaw(pl, c, n - 1);
      }
    }
  }

  // ----- when the result is consistent -----

  /** No entry that stays shares its network address with another. */
  ghost predicate Alone(info: map<int, Info>) {
    forall j, k :: j in info && k in info && j != k && !Doomed(info[k]) ==> info[j].record.Ip() != info[k].record.Ip()
  }

  ghost predicate Plausible(info: map<int, Info>) {
    forall k :: k in info && !Doomed(info[k]) ==> info[k].record.lastSuccess >= if info[k].inTried then 1 else 0
  }

  lemma AloneFiled(b: Book, c: Book, n: int)
    requires Pruned(b, c, n) && IpKnown(b.byIp, b.info) && (forall k :: k in b.info ==> k < n) && Alone(b.info)
    ensures IpOk(c.byIp, c.info)
  {
    var lost := LostIps(b.info, n);
    forall k | k in c.info
      ensures c.info[k].record.Ip() in c.byIp && c.byIp[c.info[k].record.Ip()] == k
    {
      var ip := b.info[k].record.Ip();
      assert ip in b.byIp && b.byIp[ip] in b.info;
      assert ip !in lost;
    }
    forall ip | ip in c.byIp
      ensures c.byIp[ip] in c.info && c.info[c.byIp[ip]].record.Ip() == ip
    {
      var k := b.byIp[ip];
      assert Doomed(b.info[k]) ==> ip in lost;
    }
  }

  lemma FiledAlone(b: Book, c: Book, n: int)
    requires Pruned(b, c, n) && (forall k :: k in b.info ==> k < n) && IpOk(c.byIp, c.info)
    ensures Alone(b.info)
  {
    forall j, k | j in b.info && k in b.info && j != k && !Doomed(b.info[k])
      ensures b.info[j].record.Ip() != b.info[k].record.Ip()
    {
      assert k in c.info && c.info[k].record.Ip() in c.byIp && c.byIp[c.info[k].record.Ip()] == k;
      if Doomed(b.info[j]) {
        assert b.info[j].record.Ip() in LostIps(b.info, n);
      } else {
        assert j in c.info && c.byIp[c.info[j].record.Ip()] == j;
      }
    }
  }

  lemma PrunedStats(pl: Placing, b: Book, c: Book, n: int)
    requires Pruned(b, c, n) && (forall k :: k in b.info ==> k < n) && Raw(pl, b)
    ensures StatsOk(c.info) <==> Plausible(b.info)
  {
    hide LostIps, RandomOk, TriedOk, NewOk, RefsOk;
    if StatsOk(c.info) {
      forall k | k in b.info && !Doomed(b.info[k])
        ensures b.info[k].record.lastSuccess >= if b.info[k].inTried then 1 else 0
      {
        assert k in c.info && EntryStatsOk(c.info[k]);
      }
    }
  }

  lemma PrunedConsistent(pl: Placing, c: Book)
    requires Raw(pl, c) && CountsOk(c.nTried, c.nNew, c.info, {}) && IdsOk(c.idCount, c.info)
    requires forall k :: k in c.info ==> !Doomed(c.info[k])
    ensures Consistent(pl, c) <==> IpOk(c.byIp, c.info) && StatsOk(c.info)
  {
    hide RandomOk, TriedOk, NewOk, CountsOk, IdsOk, IpOk, StatsOk, Refs;
    forall k | k in c.info
      ensures c.info[k].inTried || 1 <= c.info[k].refCount <= NEW_BUCKETS_PER_ADDRESS
    {
      assert c.info[k].refCount == |Refs(c.newTable, k)|;
    }
    hide RefsOk;
    RefsTight(c.newTable, c.info);
  }

  lemma PlacedCounted(pl: Placing, b: Book, k: int)
    requires Raw(pl, b) && k in b.info
    ensures k in b.newTable.Values <==> b.info[k].refCount != 0
  {
    hide RandomOk, TriedOk, Placing.NewSlot;
    if k in b.newTable.Values {
      var t :| t in b.newTable && b.newTable[t] == k;
      assert t in Refs(b.newTable, k);
    } else {
      assert Refs(b.newTable, k) == {};
    }
  }

  lemma SoundIs(pl: Placing, s: Saved)
    requires var b := Filled(pl, s); Raw(pl, b) && Listed(b.info, Read(pl, s), |s.newRecords|)
    ensures FileSound(pl, s) <==> Alone(Filled(pl, s).info) && Plausible(Filled(pl, s).info)
  {
    hide Raw, Filled, Read;
    var b := Filled(pl, s);
    forall k | k in b.info
      ensures Kept(pl, s, k) <==> !Doomed(b.info[k])
    {
      PlacedCounted(pl, b, k);
      if b.info[k].inTried {
        RawTriedRefs(pl, b, k);
      }
    }
    hide Kept, Doomed;
    forall k
      ensures Kept(pl, s, k) ==> k in b.info
    {
      KeptRead(pl, s, k);
    }
  }

  lemma KeptRead(pl: Placing, s: Saved, k: int)
    ensures Kept(pl, s, k) ==> 0 <= k < |Read(pl, s)|
  {
  }

  lemma RawTriedRefs(pl: Placing, b: Book, k: int)
    requires Raw(pl, b) && k in b.info && b.info[k].inTried
    ensures b.info[k].refCount == 0
  {
    assert Refs(b.newTable, k) == {};
  }

  /**
   Loading any file at all: the tables are consistent exactly when each record kept has
   a plausible success time and an address that no other record read has.
   */
  lemma LoadConsistent(pl: Placing, s: Saved)
    ensures Consistent(pl, Load(pl, s)) <==> FileSound(pl, s)
  {
    hide Raw, CountsOk, Filled, Read, Prune, Alone, Plausible, StatsOk, IpOk, Inv, FileSound;
    FilledReads(pl, s);
    var b := Filled(pl, s);
    var n := b.idCount;
    CountRanges(b.info, |s.newRecords|, n);
    PruneIs(pl, b, n);
    var c := Prune(b, n);
    PrunedConsistent(pl, c);
    SoundIs(pl, s);
    PrunedStats(pl, b, c, n);
    if Alone(b.info) {
      AloneFiled(b, c, n);
    }
    if IpOk(c.byIp, c.info) {
      FiledAlone(b, c, n);
    }
  }

  ghost predicate DistinctIps(recs: seq<Record>) {
    forall i, j :: 0 <= i < j < |recs| ==> recs[i].Ip() != recs[j].Ip()
  }

  lemma {:induction false} KeptDistinct(pl: Placing, news: seq<Record>, recs: seq<Record>)
    requires DistinctIps(news + recs)
    ensures DistinctIps(news + KeptTried(pl, recs))
    ensures forall r :: r in KeptTried(pl, recs) ==> r in recs
  {
    hide Occupied, Placing.TriedSlot;
    if recs != [] {
      var rest, r := recs[..|recs| - 1], recs[|recs| - 1];
      assert news + recs == (news + rest) + [r];
      assert forall i :: 0 <= i < |news + rest| ==> (news + recs)[i] == (news + rest)[i];
      KeptDistinct(pl, news, rest);
      var kept := KeptTried(pl, rest);
      forall i | 0 <= i < |news + kept|
        ensures (news + kept)[i].Ip() != r.Ip()
      {
        assert (news + kept)[i] in news + rest;
        var j :| 0 <= j < |news + rest| && (news + rest)[j] == (news + kept)[i];
        assert (news + recs)[j].Ip() != (news + recs)[|news + rest|].Ip();
      }
      assert news + (kept + [r]) == (news + kept) + [r];
    }
  }

  /** A file without two records for one address and with plausible success times is loaded soundly. */
  lemma DistinctFileLoads(pl: Placing, s: Saved)
    requires DistinctIps(s.newRecords + s.triedRecords)
    requires forall r :: r in s.newRecords ==> r.lastSuccess >= 0
    requires forall r :: r in s.triedRecords ==> r.lastSuccess >= 1
    ensures Consistent(pl, Load(pl, s))
  {
    hide Inv, Load, KeptTried, Placed;
    KeptDistinct(pl, s.newRecords, s.triedRecords);
    var all, kept := Read(pl, s), KeptTried(pl, s.triedRecords);
    forall k | Kept(pl, s, k)
      ensures all[k].lastSuccess >= if k < |s.newRecords| then 0 else 1
    {
      if k < |s.newRecords| {
        assert all[k] in s.newRecords;
      } else {
        assert all[k] == kept[k - |s.newRecords|] && all[k] in kept;
      }
    }
    LoadConsistent(pl, s);
  }

  /** Hashes that spread services over the positions of bucket 0 by port. */
  const ByPort := Placing(Hashes((k: Key, s: Service) => 0, (k: Key, a: NetAddr, b: NetAddr) => 0,
                                (k: Key, new_: bool, bucket: nat, s: Service) => s.port), 1)

  /** Two new records for one address, on two ports. */
  function Twins(): Saved {
    Saved(0, 32, 1, [Twin(0), Twin(1)], [], [])
  }

  function Twin(port: nat): Record {
    Record(Address(Service(7, port), 1, {}), 0, 0, 0)
  }

  /** Two kept records for one address leave the map of addresses short of one. */
  lemma TwinsBreak()
    ensures !Consistent(ByPort, Load(ByPort, Twins()))
  {
    hide Inv, Load;
    TwinPlaced();
    LoadConsistent(ByPort, Twins());
    var all := Read(ByPort, Twins());
    assert all == [Twin(0), Twin(1)];
    assert Kept(ByPort, Twins(), 1) && all[0].Ip() == all[1].Ip();
  }

  lemma TwinPlaced()
    ensures Placed(ByPort, Twins(), 1)
  {
    hide Placing.TriedSlot;
    var recs := Twins().newRecords;
    var b0 := EmptyBook.(nNew := 2, nTried := 0);
    assert recs[..1] == [Twin(0)] && recs[..1][..0] == [];
    var b1 := ReadNew(ByPort, false, b0, 0, Twin(0));
    assert LoadNew(ByPort, false, b0, recs[..1]) == b1;
    assert b1.newTable == map[Slot(0, 0) := 0];
    var b2 := ReadNew(ByPort, false, b1, 1, Twin(1));
    assert LoadNew(ByPort, false, b0, recs) == b2;
    assert b2.newTable[Slot(0, 1)] == 1;
    assert !Usable(Twins()) && Filled(ByPort, Twins()).newTable == b2.newTable;
  }
}
