/**
 The address manager's tables (src/addrman.h, src/addrman.cpp) as one value, its
 consistency invariant, and what each elementary update does to it.

 Five indexes describe the same set of addresses: `info` by id, `byIp` by network
 address, `random` in arbitrary order, and the "new" and "tried" slot tables whose
 slots are fixed by hashing.  A table slot without an entry stands for -1.
 */
module AddrBook {
  import opened Prelude

  const TRIED_BUCKET_COUNT := 256
  const NEW_BUCKET_COUNT := 1024
  const BUCKET_SIZE := 64
  const NEW_BUCKETS_PER_ADDRESS := 8

  type NetAddr = nat
  type Key = nat

  datatype Service = Service(ip: NetAddr, port: nat)

  /** Service flags, as the set of the bits that are set. */
  type Services = set<nat>

  datatype Address = Address(service: Service, time: int, services: Services)

  /** The part of an entry that is written to disk. */
  datatype Record = Record(addr: Address, source: NetAddr, lastSuccess: int, attempts: int) {
    function Service(): Service { addr.service }
    function Ip(): NetAddr { addr.service.ip }
  }

  datatype Info = Info(record: Record, lastTry: int, lastCountAttempt: int,
                       refCount: int, inTried: bool, randomPos: int)

  datatype Slot = Slot(bucket: nat, pos: nat)

  /** The keyed hash functions that decide where an entry may live. */
  datatype Hashes = Hashes(tried: (Key, Service) -> nat,
                           bucket: (Key, NetAddr, NetAddr) -> nat,
                           position: (Key, bool, nat, Service) -> nat)

  datatype Placing = Placing(h: Hashes, key: Key) {
    function TriedSlot(s: Service): Slot {
      var bucket := h.tried(key, s) % TRIED_BUCKET_COUNT;
      Slot(bucket, h.position(key, false, bucket, s) % BUCKET_SIZE)
    }

    function NewBucket(s: Service, source: NetAddr): (bucket: nat)
      ensures bucket < NEW_BUCKET_COUNT
    {
      h.bucket(key, s.ip, source) % NEW_BUCKET_COUNT
    }

    function NewSlot(s: Service, bucket: nat): Slot {
      Slot(bucket, h.position(key, true, bucket, s) % BUCKET_SIZE)
    }
  }

  datatype Book = Book(idCount: int, info: map<int, Info>, byIp: map<NetAddr, int>, random: seq<int>,
                       nTried: int, triedTable: map<Slot, int>, nNew: int, newTable: map<Slot, int>)

  const EmptyBook := Book(0, map[], map[], [], 0, map[], 0, map[])

  // ----- the invariant -----

  ghost function Refs(table: map<Slot, int>, id: int): set<Slot> {
    set s | s in table && table[s] == id
  }

  ghost function TriedIds(info: map<int, Info>): set<int> {
    set id | id in info && info[id].inTried
  }

  ghost function NewIds(info: map<int, Info>): set<int> {
    set id | id in info && !info[id].inTried
  }

  ghost predicate IdsOk(idCount: int, info: map<int, Info>) {
    0 <= idCount && forall id :: id in info ==> 0 <= id < idCount
  }

  /** `random` lists every id once, and each entry knows its own place in it. */
  ghost predicate RandomOk(random: seq<int>, info: map<int, Info>) {
    && |random| == |info|
    && (forall i :: 0 <= i < |random| ==> random[i] in info && info[random[i]].randomPos == i)
    && (forall id :: id in info ==> 0 <= info[id].randomPos < |random| && random[info[id].randomPos] == id)
  }

  ghost predicate IpOk(byIp: map<NetAddr, int>, info: map<int, Info>) {
    && (forall id :: id in info ==> info[id].record.Ip() in byIp && byIp[info[id].record.Ip()] == id)
    && (forall ip :: ip in byIp ==> byIp[ip] in info && info[byIp[ip]].record.Ip() == ip)
  }

  /** The tried table holds exactly the tried entries, each in its hashed slot. */
  ghost predicate TriedOk(pl: Placing, table: map<Slot, int>, info: map<int, Info>) {
    && (forall s :: s in table ==>
          table[s] in info && info[table[s]].inTried && s == pl.TriedSlot(info[table[s]].record.Service()))
    && (forall id :: id in info && info[id].inTried ==>
          var s := pl.TriedSlot(info[id].record.Service()); s in table && table[s] == id)
  }

  /** Every slot of the new table holds an untried entry hashed to that slot. */
  ghost predicate NewOk(pl: Placing, table: map<Slot, int>, info: map<int, Info>) {
    forall s :: s in table ==>
      && s.bucket < NEW_BUCKET_COUNT && table[s] in info && !info[table[s]].inTried
      && s == pl.NewSlot(info[table[s]].record.Service(), s.bucket)
  }

  /** Reference counts count new-table slots; only `loose` entries may have none. */
  ghost predicate RefsOk(table: map<Slot, int>, info: map<int, Info>, loose: set<int>) {
    forall id :: id in info ==>
      && info[id].refCount == |Refs(table, id)|
      && (!info[id].inTried && id !in loose ==> 1 <= info[id].refCount <= NEW_BUCKETS_PER_ADDRESS)
  }

  /** The two counters, with the entries `out` left out of the count of new ones. */
  ghost predicate CountsOk(nTried: int, nNew: int, info: map<int, Info>, out: set<int>) {
    nTried == |TriedIds(info)| && nNew == |NewIds(info) - out|
  }

  predicate EntryStatsOk(e: Info) {
    && e.lastTry >= 0 && e.record.lastSuccess >= 0
    && (e.inTried ==> e.record.lastSuccess > 0)
  }

  ghost predicate StatsOk(info: map<int, Info>) {
    forall id :: id in info ==> EntryStatsOk(info[id])
  }

  ghost predicate Inv(pl: Placing, b: Book, loose: set<int>, out: set<int>) {
    && IdsOk(b.idCount, b.info) && RandomOk(b.random, b.info) && IpOk(b.byIp, b.info)
    && TriedOk(pl, b.triedTable, b.info) && NewOk(pl, b.newTable, b.info)
    && RefsOk(b.newTable, b.info, loose) && CountsOk(b.nTried, b.nNew, b.info, out) && StatsOk(b.info)
  }

  /** The state between two public calls. */
  ghost predicate Consistent(pl: Placing, b: Book) {
    Inv(pl, b, {}, {})
  }

  lemma InvRandom(pl: Placing, b: Book, loose: set<int>, out: set<int>)
    requires Inv(pl, b, loose, out)
    ensures RandomOk(b.random, b.info)
  {
  }

  // ----- rewriting one entry in place -----

  /** Two versions of an entry that every index places alike. */
  predicate SamePlace(e: Info, f: Info) {
    e.record.Service() == f.record.Service() && e.inTried == f.inTried
  }

  lemma UpdateIndexes(pl: Placing, b: Book, id: int, e: Info)
    requires id in b.info && SamePlace(b.info[id], e)
    ensures IdsOk(b.idCount, b.info) ==> IdsOk(b.idCount, b.info[id := e])
    ensures IpOk(b.byIp, b.info) ==> IpOk(b.byIp, b.info[id := e])
  {
  }

  lemma UpdateTried(pl: Placing, table: map<Slot, int>, info: map<int, Info>, id: int, e: Info)
    requires id in info && SamePlace(info[id], e) && TriedOk(pl, table, info)
    ensures TriedOk(pl, table, info[id := e])
  {
    hide Placing.TriedSlot;
  }

  lemma UpdateNew(pl: Placing, table: map<Slot, int>, info: map<int, Info>, id: int, e: Info)
    requires id in info && SamePlace(info[id], e) && NewOk(pl, table, info)
    ensures NewOk(pl, table, info[id := e])
  {
    hide Placing.NewSlot;
  }

  lemma UpdateCounts(nTried: int, nNew: int, info: map<int, Info>, out: set<int>, id: int, e: Info)
    requires id in info && info[id].inTried == e.inTried && CountsOk(nTried, nNew, info, out)
    ensures CountsOk(nTried, nNew, info[id := e], out)
  {
    assert TriedIds(info[id := e]) == TriedIds(info);
    assert NewIds(info[id := e]) == NewIds(info);
  }

  lemma UpdateRandom(random: seq<int>, info: map<int, Info>, id: int, e: Info)
    requires id in info && info[id].randomPos == e.randomPos && RandomOk(random, info)
    ensures RandomOk(random, info[id := e])
  {
    assert info[id := e].Keys == info.Keys;
  }

  lemma UpdateRefs(table: map<Slot, int>, info: map<int, Info>, id: int, e: Info, loose: set<int>)
    requires id in info && info[id].inTried == e.inTried && info[id].refCount == e.refCount
    requires RefsOk(table, info, loose)
    ensures RefsOk(table, info[id := e], loose)
  {
    hide Refs;
  }

  /** All of the invariant but the random order and the reference counts. */
  ghost predicate Rest(pl: Placing, b: Book, out: set<int>) {
    && IdsOk(b.idCount, b.info) && IpOk(b.byIp, b.info) && TriedOk(pl, b.triedTable, b.info)
    && NewOk(pl, b.newTable, b.info) && CountsOk(b.nTried, b.nNew, b.info, out) && StatsOk(b.info)
  }

  lemma UpdateRest(pl: Placing, b: Book, id: int, e: Info, out: set<int>)
    requires Rest(pl, b, out)
    requires id in b.info && SamePlace(b.info[id], e) && EntryStatsOk(e)
    ensures Rest(pl, b.(info := b.info[id := e]), out)
  {
    hide IdsOk, IpOk, TriedOk, NewOk, CountsOk;
    UpdateIndexes(pl, b, id, e);
    UpdateTried(pl, b.triedTable, b.info, id, e);
    UpdateNew(pl, b.newTable, b.info, id, e);
    UpdateCounts(b.nTried, b.nNew, b.info, out, id, e);
  }

  /** Statistics, times and service bits may change freely. */
  lemma UpdateEntry(pl: Placing, b: Book, id: int, e: Info, loose: set<int>, out: set<int>)
    requires Inv(pl, b, loose, out) && id in b.info
    requires SamePlace(b.info[id], e) && EntryStatsOk(e)
    requires e.refCount == b.info[id].refCount && e.randomPos == b.info[id].randomPos
    ensures Inv(pl, b.(info := b.info[id := e]), loose, out)
  {
    hide IdsOk, IpOk, TriedOk, NewOk, CountsOk, StatsOk, RandomOk, RefsOk;
    UpdateRest(pl, b, id, e, out);
    UpdateRandom(b.random, b.info, id, e);
    UpdateRefs(b.newTable, b.info, id, e, loose);
  }

  // ----- Find, Create -----

  function Find(b: Book, ip: NetAddr): Option<int> {
    if ip in b.byIp && b.byIp[ip] in b.info then Some(b.byIp[ip]) else None
  }

  function Create(b: Book, addr: Address, source: NetAddr): Book {
    var entry := Info(Record(addr, source, 0, 0), 0, 0, 0, false, |b.random|);
    b.(idCount := b.idCount + 1, info := b.info[b.idCount := entry],
       byIp := b.byIp[addr.service.ip := b.idCount], random := b.random + [b.idCount])
  }

  lemma CreateTables(pl: Placing, b: Book, addr: Address, source: NetAddr)
    requires b.idCount !in b.info
    ensures TriedOk(pl, b.triedTable, b.info) ==> TriedOk(pl, b.triedTable, Create(b, addr, source).info)
    ensures NewOk(pl, b.newTable, b.info) ==> NewOk(pl, b.newTable, Create(b, addr, source).info)
  {
    hide Placing.TriedSlot, Placing.NewSlot;
  }

  lemma CreateRandom(random: seq<int>, info: map<int, Info>, id: int, e: Info)
    requires RandomOk(random, info) && id !in info && e.randomPos == |random|
    ensures RandomOk(random + [id], info[id := e])
  {
    assert info[id := e].Keys == info.Keys + {id};
    assert id !in random;
  }

  lemma CreateIp(byIp: map<NetAddr, int>, info: map<int, Info>, id: int, e: Info)
    requires IpOk(byIp, info) && id !in info && e.record.Ip() !in byIp
    ensures IpOk(byIp[e.record.Ip() := id], info[id := e])
  {
  }

  lemma CreateRefs(pl: Placing, table: map<Slot, int>, info: map<int, Info>, id: int, e: Info)
    requires NewOk(pl, table, info) && RefsOk(table, info, {}) && id !in info && e.refCount == 0
    ensures RefsOk(table, info[id := e], {id})
  {
    assert Refs(table, id) == {};
    hide NewOk, Refs;
  }

  lemma CreateCounts(nTried: int, nNew: int, info: map<int, Info>, id: int, e: Info)
    requires CountsOk(nTried, nNew, info, {}) && id !in info && !e.inTried
    ensures CountsOk(nTried, nNew, info[id := e], {id})
  {
    assert TriedIds(info[id := e]) == TriedIds(info);
    assert NewIds(info[id := e]) - {id} == NewIds(info) - {};
  }

  lemma CreateKeeps(pl: Placing, b: Book, addr: Address, source: NetAddr)
    requires Consistent(pl, b) && addr.service.ip !in b.byIp
    ensures Inv(pl, Create(b, addr, source), {b.idCount}, {b.idCount})
  {
    hide TriedOk, NewOk, RandomOk, IpOk, RefsOk, CountsOk;
    CreateTables(pl, b, addr, source);
    var e := Create(b, addr, source).info[b.idCount];
    CreateRandom(b.random, b.info, b.idCount, e);
    CreateIp(b.byIp, b.info, b.idCount, e);
    CreateRefs(pl, b.newTable, b.info, b.idCount, e);
    CreateCounts(b.nTried, b.nNew, b.info, b.idCount, e);
  }

  // ----- SwapRandom, Delete -----

  predicate Swappable(b: Book, i: int, j: int) {
    0 <= i < |b.random| && 0 <= j < |b.random| && b.random[i] in b.info && b.random[j] in b.info
  }

  function SwapRandom(b: Book, i: int, j: int): Book {
    if i == j || !Swappable(b, i, j) then b
    else
      var id1, id2 := b.random[i], b.random[j];
      var info1 := b.info[id1 := b.info[id1].(randomPos := j)];
      b.(info := info1[id2 := info1[id2].(randomPos := i)], random := b.random[i := id2][j := id1])
  }

  lemma SwapRandomOrder(b: Book, i: nat, j: nat)
    requires RandomOk(b.random, b.info) && i < |b.random| && j < |b.random|
    ensures RandomOk(SwapRandom(b, i, j).random, SwapRandom(b, i, j).info)
  {
    assert SwapRandom(b, i, j).info.Keys == b.info.Keys;
    if i != j {
      assert b.random[i] != b.random[j];
    }
  }

  /** A swap at or after position `n` keeps the first `n` ids and all entries but for their places. */
  lemma SwapRandomSame(b: Book, n: nat, pos: nat)
    requires RandomOk(b.random, b.info) && n <= pos < |b.random|
    ensures Swappable(b, n, pos)
    ensures var c := SwapRandom(b, n, pos);
            && c.info.Keys == b.info.Keys && |c.random| == |b.random| && c.random[..n] == b.random[..n]
            && c.random[n] in c.info
            && (forall id :: id in c.info ==> c.info[id] == b.info[id].(randomPos := c.info[id].randomPos))
    ensures forall id :: id in b.random[..n] ==> id in b.info
  {
  }

  lemma SwapRandomKeeps(pl: Placing, b: Book, i: nat, j: nat, loose: set<int>, out: set<int>)
    requires Inv(pl, b, loose, out) && i < |b.random| && j < |b.random|
    ensures Inv(pl, SwapRandom(b, i, j), loose, out)
  {
    SwapRandomOrder(b, i, j);
    if i != j {
      var id1, id2 := b.random[i], b.random[j];
      assert id1 in b.info && id2 in b.info;
      var e1 := b.info[id1].(randomPos := j);
      var b1 := b.(info := b.info[id1 := e1]);
      var e2 := b1.info[id2].(randomPos := i);
      assert EntryStatsOk(e1) && EntryStatsOk(e2);
      hide IdsOk, IpOk, TriedOk, NewOk, CountsOk, RandomOk, RefsOk, StatsOk;
      UpdateRest(pl, b, id1, e1, out);
      UpdateRefs(b.newTable, b.info, id1, e1, loose);
      UpdateRest(pl, b1, id2, e2, out);
      UpdateRefs(b1.newTable, b1.info, id2, e2, loose);
    }
  }

  function Delete(b: Book, id: int): Book {
    if id !in b.info || b.random == [] then b
    else Dropped(SwapRandom(b, b.info[id].randomPos, |b.random| - 1), id)
  }

  /** The last id of the random order leaves every index. */
  function Dropped(b: Book, id: int): Book
    requires id in b.info && b.random != []
  {
    b.(random := b.random[..|b.random| - 1], byIp := b.byIp - {b.info[id].record.Ip()},
       info := b.info - {id}, nNew := b.nNew - 1)
  }

  lemma DropRandom(random: seq<int>, info: map<int, Info>, id: int)
    requires RandomOk(random, info) && id in info && info[id].randomPos == |random| - 1
    ensures RandomOk(random[..|random| - 1], info - {id})
  {
    var rest, shorter := info - {id}, random[..|random| - 1];
    assert rest.Keys == info.Keys - {id};
    forall i | 0 <= i < |shorter|
      ensures shorter[i] in rest && rest[shorter[i]].randomPos == i
    {
      assert random[i] in info && info[random[i]].randomPos == i;
    }
    forall k | k in rest
      ensures 0 <= rest[k].randomPos < |shorter| && shorter[rest[k].randomPos] == k
    {
      assert random[info[k].randomPos] == k && random[info[id].randomPos] == id;
    }
  }

  lemma DropIp(byIp: map<NetAddr, int>, info: map<int, Info>, id: int)
    requires IpOk(byIp, info) && id in info
    ensures IpOk(byIp - {info[id].record.Ip()}, info - {id})
  {
  }

  /** An entry with no references is in no slot of either table. */
  lemma DropTables(pl: Placing, b: Book, id: int)
    requires TriedOk(pl, b.triedTable, b.info) && NewOk(pl, b.newTable, b.info)
    requires id in b.info && !b.info[id].inTried && Refs(b.newTable, id) == {}
    ensures TriedOk(pl, b.triedTable, b.info - {id}) && NewOk(pl, b.newTable, b.info - {id})
  {
    hide Placing.TriedSlot, Placing.NewSlot;
    forall s | s in b.newTable
      ensures b.newTable[s] != id
    {
      assert s !in Refs(b.newTable, id);
    }
  }

  lemma DropCounts(nTried: int, nNew: int, info: map<int, Info>, out: set<int>, id: int)
    requires CountsOk(nTried, nNew, info, out) && id in info && !info[id].inTried && id !in out
    ensures CountsOk(nTried, nNew - 1, info - {id}, out)
  {
    assert TriedIds(info - {id}) == TriedIds(info);
    assert NewIds(info - {id}) - out == (NewIds(info) - out) - {id};
    assert id in NewIds(info) - out;
  }

  lemma DropRest(pl: Placing, b: Book, id: int, loose: set<int>)
    requires RefsOk(b.newTable, b.info, loose) && IdsOk(b.idCount, b.info) && StatsOk(b.info)
    ensures RefsOk(b.newTable, b.info - {id}, loose - {id})
    ensures IdsOk(b.idCount, b.info - {id}) && StatsOk(b.info - {id})
  {
    hide Refs, EntryStatsOk;
  }

  lemma DroppedKeeps(pl: Placing, b: Book, id: int, loose: set<int>, out: set<int>)
    requires Inv(pl, b, loose, out)
    requires id in b.info && b.info[id].randomPos == |b.random| - 1
    requires !b.info[id].inTried && b.info[id].refCount == 0 && id !in out
    ensures b.random != [] && Inv(pl, Dropped(b, id), loose - {id}, out)
  {
    assert Refs(b.newTable, id) == {};
    assert b.random != [];
    hide IdsOk, IpOk, TriedOk, NewOk, CountsOk, RandomOk, RefsOk, StatsOk, Refs;
    DropRandom(b.random, b.info, id);
    DropIp(b.byIp, b.info, id);
    DropTables(pl, b, id);
    DropCounts(b.nTried, b.nNew, b.info, out, id);
    DropRest(pl, b, id, loose);
  }

  lemma SwapToLast(b: Book, id: int)
    requires RandomOk(b.random, b.info) && id in b.info
    ensures Swappable(b, b.info[id].randomPos, |b.random| - 1)
    ensures var c := SwapRandom(b, b.info[id].randomPos, |b.random| - 1);
            && c.info.Keys == b.info.Keys && |c.random| == |b.random|
            && c.info[id] == b.info[id].(randomPos := |b.random| - 1)
  {
    assert b.random[b.info[id].randomPos] == id;
  }

  /** Deleting an unreferenced entry removes it from every index. */
  lemma DeleteKeeps(pl: Placing, b: Book, id: int, loose: set<int>, out: set<int>)
    requires Inv(pl, b, loose, out)
    requires id in b.info && !b.info[id].inTried && b.info[id].refCount == 0 && id !in out
    ensures Inv(pl, Delete(b, id), loose - {id}, out)
    ensures Delete(b, id).info.Keys == b.info.Keys - {id}
  {
    hide Inv, SwapRandom, RandomOk;
    InvRandom(pl, b, loose, out);
    SwapToLast(b, id);
    SwapRandomKeeps(pl, b, b.info[id].randomPos, |b.random| - 1, loose, out);
    DroppedKeeps(pl, SwapRandom(b, b.info[id].randomPos, |b.random| - 1), id, loose, out);
  }

  /** Deleting any entry keeps the random order right, whatever the other indexes say. */
  lemma DeleteRandom(b: Book, id: int)
    requires RandomOk(b.random, b.info) && id in b.info
    ensures RandomOk(Delete(b, id).random, Delete(b, id).info)
    ensures Delete(b, id).info.Keys == b.info.Keys - {id}
  {
    hide RandomOk, SwapRandom;
    SwapToLast(b, id);
    SwapRandomOrder(b, b.info[id].randomPos, |b.random| - 1);
    DropRandom(SwapRandom(b, b.info[id].randomPos, |b.random| - 1).random,
               SwapRandom(b, b.info[id].randomPos, |b.random| - 1).info, id);
  }

  // ----- slots of the new table -----

  /** Empties one slot of the new table. */
  function Unlink(b: Book, s: Slot): Book {
    if s !in b.newTable || b.newTable[s] !in b.info then b
    else
      var id := b.newTable[s];
      b.(newTable := b.newTable - {s}, info := b.info[id := b.info[id].(refCount := b.info[id].refCount - 1)])
  }

  lemma UnlinkRefs(table: map<Slot, int>, info: map<int, Info>, loose: set<int>, s: Slot)
    requires RefsOk(table, info, loose) && s in table && table[s] in info && table[s] in loose
    ensures info[table[s]].refCount >= 1
    ensures RefsOk(table - {s}, info[table[s] := info[table[s]].(refCount := info[table[s]].refCount - 1)], loose)
  {
    var id := table[s];
    assert Refs(table - {s}, id) == Refs(table, id) - {s} && s in Refs(table, id);
    forall k | k in info && k != id
      ensures Refs(table - {s}, k) == Refs(table, k)
    {
    }
    hide Refs;
  }

  lemma TightenRefs(table: map<Slot, int>, info: map<int, Info>, loose: set<int>, id: int)
    requires RefsOk(table, info, loose + {id})
    requires id in info ==> 1 <= info[id].refCount <= NEW_BUCKETS_PER_ADDRESS || info[id].inTried
    ensures RefsOk(table, info, loose - {id})
  {
    hide Refs;
  }

  lemma LoosenRefs(table: map<Slot, int>, info: map<int, Info>, loose: set<int>, id: int)
    requires RefsOk(table, info, loose)
    ensures RefsOk(table, info, loose + {id})
  {
    hide Refs;
  }

  lemma UnlinkNewTable(pl: Placing, table: map<Slot, int>, info: map<int, Info>, s: Slot)
    requires NewOk(pl, table, info)
    ensures NewOk(pl, table - {s}, info)
  {
    hide Placing.NewSlot;
  }

  lemma InvAt(pl: Placing, b: Book, loose: set<int>, out: set<int>, id: int)
    requires Inv(pl, b, loose, out) && id in b.info
    ensures EntryStatsOk(b.info[id])
    ensures b.info[id].refCount == |Refs(b.newTable, id)|
    ensures !b.info[id].inTried && id !in loose ==> 1 <= b.info[id].refCount <= NEW_BUCKETS_PER_ADDRESS
    ensures b.info[id].inTried ==> b.info[id].refCount == 0
  {
    if b.info[id].inTried {
      assert Refs(b.newTable, id) == {};
    }
  }

  lemma InvSlot(pl: Placing, b: Book, loose: set<int>, out: set<int>, s: Slot)
    requires Inv(pl, b, loose, out) && s in b.newTable
    ensures s.bucket < NEW_BUCKET_COUNT && b.newTable[s] in b.info && !b.info[b.newTable[s]].inTried
    ensures s == pl.NewSlot(b.info[b.newTable[s]].record.Service(), s.bucket)
    ensures b.info[b.newTable[s]].refCount >= 1
  {
    InvAt(pl, b, loose, out, b.newTable[s]);
    assert s in Refs(b.newTable, b.newTable[s]);
  }

  /** Emptying a slot lowers the count of its entry, which may become loose. */
  lemma UnlinkKeeps(pl: Placing, b: Book, s: Slot, loose: set<int>, out: set<int>)
    requires Inv(pl, b, loose, out) && s in b.newTable
    ensures b.newTable[s] in b.info && Inv(pl, Unlink(b, s), loose + {b.newTable[s]}, out)
  {
    InvSlot(pl, b, loose, out, s);
    var id := b.newTable[s];
    var e := b.info[id].(refCount := b.info[id].refCount - 1);
    InvAt(pl, b, loose, out, id);
    hide IdsOk, IpOk, TriedOk, NewOk, CountsOk, RandomOk, RefsOk, StatsOk, Refs;
    LoosenRefs(b.newTable, b.info, loose, id);
    UnlinkRefs(b.newTable, b.info, loose + {id}, s);
    UpdateRest(pl, b, id, e, out);
    UpdateRandom(b.random, b.info, id, e);
    UnlinkNewTable(pl, b.newTable, b.info[id := e], s);
  }

  /** Fills an empty slot of the new table. */
  function Link(b: Book, s: Slot, id: int): Book {
    if id !in b.info then b
    else b.(newTable := b.newTable[s := id], info := b.info[id := b.info[id].(refCount := b.info[id].refCount + 1)])
  }

  lemma LinkRefs(table: map<Slot, int>, info: map<int, Info>, loose: set<int>, s: Slot, id: int)
    requires RefsOk(table, info, loose) && s !in table && id in info && id in loose
    ensures RefsOk(table[s := id], info[id := info[id].(refCount := info[id].refCount + 1)], loose)
  {
    assert Refs(table[s := id], id) == Refs(table, id) + {s};
    forall k | k in info && k != id
      ensures Refs(table[s := id], k) == Refs(table, k)
    {
    }
    hide Refs;
  }

  lemma LinkNewTable(pl: Placing, table: map<Slot, int>, info: map<int, Info>, s: Slot, id: int)
    requires NewOk(pl, table, info) && id in info && !info[id].inTried
    requires s.bucket < NEW_BUCKET_COUNT && s == pl.NewSlot(info[id].record.Service(), s.bucket)
    ensures NewOk(pl, table[s := id], info)
  {
    hide Placing.NewSlot;
  }

  lemma LinkKeeps(pl: Placing, b: Book, s: Slot, id: int, loose: set<int>, out: set<int>)
    requires Inv(pl, b, loose, out) && s !in b.newTable && id in b.info && !b.info[id].inTried
    requires b.info[id].refCount < NEW_BUCKETS_PER_ADDRESS
    requires s.bucket < NEW_BUCKET_COUNT && s == pl.NewSlot(b.info[id].record.Service(), s.bucket)
    ensures Inv(pl, Link(b, s, id), loose - {id}, out)
  {
    hide Placing.NewSlot, IdsOk, IpOk, TriedOk, NewOk, CountsOk, RandomOk, RefsOk, StatsOk, Refs;
    var e := b.info[id].(refCount := b.info[id].refCount + 1);
    InvAt(pl, b, loose, out, id);
    assert SamePlace(b.info[id], e) && EntryStatsOk(e);
    assert Link(b, s, id) == b.(newTable := b.newTable[s := id], info := b.info[id := e]);
    hide Link, SamePlace, EntryStatsOk;
    LoosenRefs(b.newTable, b.info, loose, id);
    LinkRefs(b.newTable, b.info, loose + {id}, s, id);
    TightenRefs(b.newTable[s := id], b.info[id := e], loose, id);
    UpdateRest(pl, b, id, e, out);
    UpdateRandom(b.random, b.info, id, e);
    LinkNewTable(pl, b.newTable, b.info[id := e], s, id);
  }

  // ----- ClearNew -----

  function ClearNew(b: Book, s: Slot): Book {
    if s !in b.newTable || b.newTable[s] !in b.info then b
    else
      var id := b.newTable[s];
      var c := Unlink(b, s);
      if c.info[id].refCount == 0 then Delete(c, id) else c
  }

  /** What a cleared slot leaves alone: the tried table and every entry but the slot's own. */
  ghost predicate OthersKept(b: Book, c: Book, s: Slot) {
    && c.newTable == b.newTable - {s} && c.triedTable == b.triedTable && c.idCount == b.idCount
    && c.nTried == b.nTried
    && forall id :: id in b.info && (s in b.newTable ==> id != b.newTable[s]) ==>
         id in c.info && c.info[id] == b.info[id].(randomPos := c.info[id].randomPos)
  }

  lemma ClearNewOthers(b: Book, s: Slot)
    requires s in b.newTable ==> b.newTable[s] in b.info
    ensures OthersKept(b, ClearNew(b, s), s)
  {
    if s !in b.newTable {
      assert b.newTable - {s} == b.newTable;
    }
  }

  lemma ClearNewKeeps(pl: Placing, b: Book, s: Slot, loose: set<int>, out: set<int>)
    requires Inv(pl, b, loose, out) && (s in b.newTable ==> b.newTable[s] !in loose && b.newTable[s] !in out)
    ensures Inv(pl, ClearNew(b, s), loose, out)
  {
    hide Inv, Delete, Refs;
    if s in b.newTable {
      var id := b.newTable[s];
      InvSlot(pl, b, loose, out, s);
      InvAt(pl, b, loose, out, id);
      UnlinkKeeps(pl, b, s, loose, out);
      var c := Unlink(b, s);
      hide Unlink;
      if c.info[id].refCount == 0 {
        DeleteKeeps(pl, c, id, loose + {id}, out);
        assert loose + {id} - {id} == loose;
      } else {
        Tighten(pl, c, id, loose, out);
        assert loose - {id} == loose;
      }
    }
  }

  lemma Tighten(pl: Placing, b: Book, id: int, loose: set<int>, out: set<int>)
    requires Inv(pl, b, loose + {id}, out)
    requires id in b.info ==> 1 <= b.info[id].refCount <= NEW_BUCKETS_PER_ADDRESS || b.info[id].inTried
    ensures Inv(pl, b, loose - {id}, out)
  {
    hide IdsOk, IpOk, TriedOk, NewOk, CountsOk, RandomOk, RefsOk, StatsOk, Refs;
    TightenRefs(b.newTable, b.info, loose, id);
  }

  // ----- taking an entry out of all its new slots -----

  function UnlinkBuckets(pl: Placing, b: Book, id: int, count: nat): (c: Book)
    requires id in b.info
    ensures id in c.info
    ensures c == b.(newTable := c.newTable, info := b.info[id := b.info[id].(refCount := c.info[id].refCount)])
    ensures c.newTable.Keys <= b.newTable.Keys
    ensures forall s :: s in c.newTable ==> c.newTable[s] == b.newTable[s]
  {
    if count == 0 then
      assert b.info == b.info[id := b.info[id].(refCount := b.info[id].refCount)];
      b
    else
      var c := UnlinkBuckets(pl, b, id, count - 1);
      var s := pl.NewSlot(b.info[id].record.Service(), count - 1);
      if s in c.newTable && c.newTable[s] == id then Unlink(c, s) else c
  }

  lemma UnlinkNone(pl: Placing, b: Book, id: int)
    requires id in b.info
    ensures UnlinkBuckets(pl, b, id, 0) == b
  {
  }

  /** What one more bucket does. */
  lemma UnlinkNext(pl: Placing, b: Book, id: int, count: nat)
    requires id in b.info
    ensures var c := UnlinkBuckets(pl, b, id, count);
            var s := pl.NewSlot(b.info[id].record.Service(), count);
            UnlinkBuckets(pl, b, id, count + 1) ==
            if s in c.newTable && c.newTable[s] == id
            then c.(newTable := c.newTable - {s}, info := c.info[id := c.info[id].(refCount := c.info[id].refCount - 1)])
            else c
  {
    hide Placing.NewSlot;
  }

  lemma {:induction false} UnlinkBucketsKeeps(pl: Placing, b: Book, id: int, count: nat, loose: set<int>, out: set<int>)
    requires Inv(pl, b, loose, out) && id in b.info && id in loose
    ensures Inv(pl, UnlinkBuckets(pl, b, id, count), loose, out)
    ensures forall s :: s in UnlinkBuckets(pl, b, id, count).newTable && s.bucket < count ==>
              UnlinkBuckets(pl, b, id, count).newTable[s] != id
  {
    hide Inv, Placing.NewSlot;
    if count > 0 {
      UnlinkBucketsKeeps(pl, b, id, count - 1, loose, out);
      var c := UnlinkBuckets(pl, b, id, count - 1);
      var t := pl.NewSlot(b.info[id].record.Service(), count - 1);
      if t in c.newTable && c.newTable[t] == id {
        UnlinkKeeps(pl, c, t, loose, out);
        assert loose + {id} == loose;
      }
      forall s | s in c.newTable && s.bucket == count - 1 && c.newTable[s] == id
        ensures s == t
      {
        InvSlot(pl, c, loose, out, s);
      }
    }
  }

  /** Walking all buckets finds every slot, so the count ends at zero. */
  lemma UnlinkAll(pl: Placing, b: Book, id: int, loose: set<int>, out: set<int>)
    requires Inv(pl, b, loose, out) && id in b.info && id in loose
    ensures var c := UnlinkBuckets(pl, b, id, NEW_BUCKET_COUNT);
            Inv(pl, c, loose, out) && c.info[id].refCount == 0
  {
    hide Inv, UnlinkBuckets;
    UnlinkBucketsKeeps(pl, b, id, NEW_BUCKET_COUNT, loose, out);
    var c := UnlinkBuckets(pl, b, id, NEW_BUCKET_COUNT);
    forall s | s in c.newTable
      ensures c.newTable[s] != id
    {
      InvSlot(pl, c, loose, out, s);
    }
    assert Refs(c.newTable, id) == {};
    InvAt(pl, c, loose, out, id);
  }

  // ----- moving entries between the tables -----

  /** Takes an entry out of the tried table; it is then counted nowhere. */
  function Evict(b: Book, s: Slot): Book {
    if s !in b.triedTable || b.triedTable[s] !in b.info then b
    else
      var id := b.triedTable[s];
      b.(triedTable := b.triedTable - {s}, nTried := b.nTried - 1, info := b.info[id := b.info[id].(inTried := false)])
  }

  lemma EvictTables(pl: Placing, b: Book, s: Slot)
    requires TriedOk(pl, b.triedTable, b.info) && NewOk(pl, b.newTable, b.info) && s in b.triedTable
    ensures TriedOk(pl, Evict(b, s).triedTable, Evict(b, s).info)
    ensures NewOk(pl, b.newTable, Evict(b, s).info)
  {
    hide Placing.TriedSlot, Placing.NewSlot;
  }

  lemma EvictCounts(nTried: int, nNew: int, info: map<int, Info>, out: set<int>, id: int)
    requires CountsOk(nTried, nNew, info, out) && id in info && info[id].inTried
    ensures CountsOk(nTried - 1, nNew, info[id := info[id].(inTried := false)], out + {id})
  {
    var info' := info[id := info[id].(inTried := false)];
    assert TriedIds(info') == TriedIds(info) - {id} && id in TriedIds(info);
    assert NewIds(info') - (out + {id}) == NewIds(info) - out;
  }

  /** The indexes that do not look at the tried flag. */
  lemma FlagIndexes(b: Book, id: int, e: Info, loose: set<int>)
    requires IdsOk(b.idCount, b.info) && IpOk(b.byIp, b.info) && RandomOk(b.random, b.info)
    requires RefsOk(b.newTable, b.info, loose) && StatsOk(b.info)
    requires id in b.info && e == b.info[id].(inTried := e.inTried) && id in loose && EntryStatsOk(e)
    ensures IdsOk(b.idCount, b.info[id := e]) && IpOk(b.byIp, b.info[id := e])
    ensures RandomOk(b.random, b.info[id := e])
    ensures RefsOk(b.newTable, b.info[id := e], loose) && StatsOk(b.info[id := e])
  {
    hide Refs;
    UpdateRandom(b.random, b.info, id, e);
    hide RandomOk;
  }

  lemma EvictKeeps(pl: Placing, b: Book, s: Slot, loose: set<int>, out: set<int>)
    requires Inv(pl, b, loose, out) && s in b.triedTable
    ensures b.triedTable[s] in b.info && b.triedTable[s] in Evict(b, s).info
    ensures Inv(pl, Evict(b, s), loose + {b.triedTable[s]}, out + {b.triedTable[s]})
    ensures Evict(b, s).info[b.triedTable[s]].refCount == 0 && s == pl.TriedSlot(b.info[b.triedTable[s]].record.Service())
  {
    var id := b.triedTable[s];
    assert id in b.info && b.info[id].inTried && s == pl.TriedSlot(b.info[id].record.Service());
    InvAt(pl, b, loose, out, id);
    hide Placing.TriedSlot, IdsOk, IpOk, TriedOk, NewOk, CountsOk, RandomOk, RefsOk, StatsOk, Refs;
    EvictTables(pl, b, s);
    EvictCounts(b.nTried, b.nNew, b.info, out, id);
    LoosenRefs(b.newTable, b.info, loose, id);
    FlagIndexes(b, id, b.info[id].(inTried := false), loose + {id});
  }

  /** Enters an uncounted, unreferenced entry into its tried slot. */
  function Promote(b: Book, s: Slot, id: int): Book {
    if id !in b.info then b
    else b.(triedTable := b.triedTable[s := id], nTried := b.nTried + 1, info := b.info[id := b.info[id].(inTried := true)])
  }

  lemma PromoteTables(pl: Placing, b: Book, s: Slot, id: int)
    requires TriedOk(pl, b.triedTable, b.info) && NewOk(pl, b.newTable, b.info)
    requires id in b.info && !b.info[id].inTried && Refs(b.newTable, id) == {}
    requires s !in b.triedTable && s == pl.TriedSlot(b.info[id].record.Service())
    ensures TriedOk(pl, Promote(b, s, id).triedTable, Promote(b, s, id).info)
    ensures NewOk(pl, b.newTable, Promote(b, s, id).info)
  {
    hide Placing.TriedSlot, Placing.NewSlot;
    forall t | t in b.newTable
      ensures b.newTable[t] != id
    {
      assert t !in Refs(b.newTable, id);
    }
    forall t | t in b.triedTable
      ensures b.triedTable[t] != id
    {
    }
  }

  lemma PromoteCounts(nTried: int, nNew: int, info: map<int, Info>, out: set<int>, id: int)
    requires CountsOk(nTried, nNew, info, out) && id in info && !info[id].inTried && id in out
    ensures CountsOk(nTried + 1, nNew, info[id := info[id].(inTried := true)], out - {id})
  {
    var info' := info[id := info[id].(inTried := true)];
    assert TriedIds(info') == TriedIds(info) + {id} && id !in TriedIds(info);
    assert NewIds(info') - (out - {id}) == NewIds(info) - out;
  }

  lemma PromoteKeeps(pl: Placing, b: Book, s: Slot, id: int, loose: set<int>, out: set<int>)
    requires Inv(pl, b, loose, out) && id in b.info && id in out && id in loose
    requires !b.info[id].inTried && b.info[id].refCount == 0 && b.info[id].record.lastSuccess > 0
    requires s !in b.triedTable && s == pl.TriedSlot(b.info[id].record.Service())
    ensures Inv(pl, Promote(b, s, id), loose - {id}, out - {id})
  {
    InvAt(pl, b, loose, out, id);
    hide Placing.TriedSlot, IdsOk, IpOk, TriedOk, NewOk, CountsOk, RandomOk, RefsOk, StatsOk, Refs;
    assert Refs(b.newTable, id) == {};
    var e := b.info[id].(inTried := true);
    PromoteTables(pl, b, s, id);
    PromoteCounts(b.nTried, b.nNew, b.info, out, id);
    FlagIndexes(b, id, e, loose);
    assert loose + {id} == loose;
    TightenRefs(b.newTable, b.info[id := e], loose, id);
  }

  /** Counting an entry among the new ones, or no longer. */
  lemma CountIn(pl: Placing, b: Book, id: int, loose: set<int>, out: set<int>)
    requires Inv(pl, b, loose, out) && id in b.info && !b.info[id].inTried && id in out
    ensures Inv(pl, b.(nNew := b.nNew + 1), loose, out - {id})
  {
    assert NewIds(b.info) - (out - {id}) == (NewIds(b.info) - out) + {id};
    hide IdsOk, IpOk, TriedOk, NewOk, RandomOk, RefsOk, StatsOk;
  }

  lemma CountOut(pl: Placing, b: Book, id: int, loose: set<int>, out: set<int>)
    requires Inv(pl, b, loose, out) && id in b.info && !b.info[id].inTried && id !in out
    ensures Inv(pl, b.(nNew := b.nNew - 1), loose, out + {id})
  {
    assert NewIds(b.info) - (out + {id}) == (NewIds(b.info) - out) - {id};
    assert id in NewIds(b.info) - out;
    hide IdsOk, IpOk, TriedOk, NewOk, RandomOk, RefsOk, StatsOk;
  }

  lemma Loosen(pl: Placing, b: Book, id: int, loose: set<int>, out: set<int>)
    requires Inv(pl, b, loose, out)
    ensures Inv(pl, b, loose + {id}, out)
  {
    hide IdsOk, IpOk, TriedOk, NewOk, CountsOk, RandomOk, RefsOk, StatsOk;
    LoosenRefs(b.newTable, b.info, loose, id);
  }
}
