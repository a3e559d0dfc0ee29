/**
 The address manager object (src/addrman.h, src/addrman.cpp): the same operations
 carried out step by step on its fields, with every assertion of the source proved.
 */
module AddrManager {
  import opened Prelude
  import opened AddrBook
  import Ops = AddrOps
  import Disk = AddrSave
  import AddrLoad

  class AddrMan {
    const h: Hashes
    const isRoutable: NetAddr -> bool
    var nKey: Key
    var nIdCount: int
    var mapInfo: map<int, Info>
    var mapAddr: map<NetAddr, int>
    var vRandom: seq<int>
    var nTried: int
    var vvTried: map<Slot, int>
    var nNew: int
    var vvNew: map<Slot, int>
    var nLastGood: int

    ghost function Pl(): Placing
      reads this`nKey
    {
      Placing(h, nKey)
    }

    ghost function Tables(): Book
      reads this
    {
      Book(nIdCount, mapInfo, mapAddr, vRandom, nTried, vvTried, nNew, vvNew)
    }

    ghost predicate Valid()
      reads this
    {
      Consistent(Pl(), Tables())
    }

    constructor (h: Hashes, isRoutable: NetAddr -> bool, key: Key)
      ensures Valid() && Tables() == EmptyBook && nKey == key && this.h == h && this.isRoutable == isRoutable
    {
      this.h, this.isRoutable := h, isRoutable;
      nKey, nIdCount, mapInfo, mapAddr, vRandom := key, 0, map[], map[], [];
      nTried, vvTried, nNew, vvNew, nLastGood := 0, map[], 0, map[], 1;
      new;
      assert TriedIds(mapInfo) == {} && NewIds(mapInfo) - {} == {};
    }

    method Find(ip: NetAddr) returns (found: bool, id: int)
      ensures found <==> AddrBook.Find(Tables(), ip).Some?
      ensures found ==> id == AddrBook.Find(Tables(), ip).value
    {
      id := -1;
      if ip !in mapAddr {
        return false, id;
      }
      id := mapAddr[ip];
      found := id in mapInfo;
    }

    method Create(addr: Address, source: NetAddr) returns (id: int)
      modifies this`nIdCount, this`mapInfo, this`mapAddr, this`vRandom
      ensures id == old(nIdCount) && Tables() == AddrBook.Create(old(Tables()), addr, source)
    {
      id := nIdCount;
      nIdCount := nIdCount + 1;
      mapInfo := mapInfo[id := Info(Record(addr, source, 0, 0), 0, 0, 0, false, -1)];
      mapAddr := mapAddr[addr.service.ip := id];
      mapInfo := mapInfo[id := mapInfo[id].(randomPos := |vRandom|)];
      vRandom := vRandom + [id];
      assert mapInfo == AddrBook.Create(old(Tables()), addr, source).info;
    }

    /** The source's assertions are the precondition. */
    method SwapRandom(pos1: int, pos2: int)
      requires pos1 == pos2 || Swappable(Tables(), pos1, pos2)
      modifies this`mapInfo, this`vRandom
      ensures Tables() == AddrBook.SwapRandom(old(Tables()), pos1, pos2)
    {
      if pos1 == pos2 {
        return;
      }
      var id1, id2 := vRandom[pos1], vRandom[pos2];
      mapInfo := mapInfo[id1 := mapInfo[id1].(randomPos := pos2)];
      mapInfo := mapInfo[id2 := mapInfo[id2].(randomPos := pos1)];
      vRandom := vRandom[pos1 := id2];
      vRandom := vRandom[pos2 := id1];
    }

    /** Only unreferenced new entries may be deleted. */
    method Delete(id: int)
      requires id in mapInfo && !mapInfo[id].inTried && mapInfo[id].refCount == 0
      requires Swappable(Tables(), mapInfo[id].randomPos, |vRandom| - 1)
      modifies this`mapInfo, this`mapAddr, this`vRandom, this`nNew
      ensures Tables() == AddrBook.Delete(old(Tables()), id)
    {
      SwapRandom(mapInfo[id].randomPos, |vRandom| - 1);
      vRandom := vRandom[..|vRandom| - 1];
      mapAddr := mapAddr - {mapInfo[id].record.Ip()};
      mapInfo := mapInfo - {id};
      nNew := nNew - 1;
    }

    method ClearNew(s: Slot, ghost loose: set<int>, ghost out: set<int>)
      requires Inv(Pl(), Tables(), loose, out)
      modifies this`mapInfo, this`mapAddr, this`vRandom, this`nNew, this`vvNew
      ensures s !in vvNew && Tables() == AddrBook.ClearNew(old(Tables()), s)
    {
      hide Inv;
      if s in vvNew {
        InvSlot(Pl(), Tables(), loose, out, s);
        UnlinkKeeps(Pl(), Tables(), s, loose, out);
        var id := vvNew[s];
        assert mapInfo[id].refCount > 0;
        mapInfo := mapInfo[id := mapInfo[id].(refCount := mapInfo[id].refCount - 1)];
        vvNew := vvNew - {s};
        assert Tables() == Unlink(old(Tables()), s);
        InvRandom(Pl(), Tables(), loose + {id}, out);
        SwapToLast(Tables(), id);
        if mapInfo[id].refCount == 0 {
          Delete(id);
        }
      }
    }

    /** Empties every new slot that holds `id`. */
    method LeaveNew(id: int)
      requires id in mapInfo
      modifies this`mapInfo, this`vvNew
      ensures Tables() == UnlinkBuckets(Pl(), old(Tables()), id, NEW_BUCKET_COUNT)
    {
      hide UnlinkBuckets, Placing.NewSlot;
      ghost var pl, b := Pl(), Tables();
      var service := mapInfo[id].record.Service();
      UnlinkNone(pl, b, id);
      for bucket := 0 to NEW_BUCKET_COUNT
        invariant Pl() == pl && Tables() == UnlinkBuckets(pl, b, id, bucket)
      {
        UnlinkNext(pl, b, id, bucket);
        var s := Placing(h, nKey).NewSlot(service, bucket);
        if s in vvNew && vvNew[s] == id {
          vvNew := vvNew - {s};
          mapInfo := mapInfo[id := mapInfo[id].(refCount := mapInfo[id].refCount - 1)];
        }
      }
    }

    /** Moves a new entry to the tried table; each assertion of the source holds on the way. */
    method MakeTried(id: int)
      requires Valid() && id in mapInfo && !mapInfo[id].inTried && mapInfo[id].record.lastSuccess > 0
      modifies this`mapInfo, this`mapAddr, this`vRandom, this`nNew, this`vvNew, this`nTried, this`vvTried
      ensures Valid() && Tables() == Ops.MakeTried(Pl(), old(Tables()), id)
    {
      hide Inv, UnlinkBuckets, Ops.MakeRoom, Placing.TriedSlot;
      Ops.MakeTriedKeeps(Pl(), Tables(), id);
      Unlinked(Tables(), id);
      var s := Placing(h, nKey).TriedSlot(mapInfo[id].record.Service());
      LeaveNew(id);
      nNew := nNew - 1;
      assert mapInfo[id].refCount == 0;
      Ops.MakeRoomKeeps(Pl(), Tables(), s, id);
      EvictOccupant(s, id);
      assert s !in vvTried;
      vvTried := vvTried[s := id];
      nTried := nTried + 1;
      mapInfo := mapInfo[id := mapInfo[id].(inTried := true)];
    }

    /** The tables after the bucket walk of MakeTried. */
    lemma Unlinked(b: Book, id: int)
      requires Consistent(Pl(), b) && id in b.info && !b.info[id].inTried
      ensures var c := UnlinkBuckets(Pl(), b, id, NEW_BUCKET_COUNT);
              c.info[id].refCount == 0 && Inv(Pl(), c.(nNew := c.nNew - 1), {id}, {id})
    {
      hide Inv, UnlinkBuckets;
      var none: set<int> := {};
      assert none + {id} == {id};
      Loosen(Pl(), b, id, none, none);
      UnlinkAll(Pl(), b, id, {id}, none);
      CountOut(Pl(), UnlinkBuckets(Pl(), b, id, NEW_BUCKET_COUNT), id, {id}, none);
    }

    /** The occupant of a tried slot, if there is one, goes back to the new table. */
    method EvictOccupant(s: Slot, ghost id: int)
      requires Inv(Pl(), Tables(), {id}, {id})
      modifies this`mapInfo, this`mapAddr, this`vRandom, this`nNew, this`vvNew, this`nTried, this`vvTried
      ensures Tables() == Ops.MakeRoom(Pl(), old(Tables()), s)
    {
      hide Inv, AddrBook.ClearNew, Placing.NewSlot, Placing.TriedSlot;
      if s !in vvTried {
        return;
      }
      ghost var b := Tables();
      EvictKeeps(Pl(), b, s, {id}, {id});
      var evicted := vvTried[s];
      mapInfo := mapInfo[evicted := mapInfo[evicted].(inTried := false)];
      vvTried := vvTried - {s};
      nTried := nTried - 1;
      ghost var c := Tables();
      assert c == Evict(b, s);

      var r := mapInfo[evicted].record;
      var t := Placing(h, nKey).NewSlot(r.Service(), Placing(h, nKey).NewBucket(r.Service(), r.source));
      if t in vvNew {
        InvSlot(Pl(), c, {id} + {evicted}, {id} + {evicted}, t);
      }
      ClearNewOthers(c, t);
      ClearNew(t, {id} + {evicted}, {id} + {evicted});
      mapInfo := mapInfo[evicted := mapInfo[evicted].(refCount := 1)];
      vvNew := vvNew[t := evicted];
      nNew := nNew + 1;
    }

    /** Marks an address good, moving it from "new" to "tried"; `start` is the random first bucket. */
    method Good(addr: Service, time: int, start: nat)
      requires Valid() && time > 0
      modifies this
      ensures nKey == old(nKey) && nLastGood == time
      ensures Valid() && Tables() == Ops.Good(Pl(), old(Tables()), addr, time)
    {
      hide Inv, Ops.MakeTried;
      nLastGood := time;
      ghost var b := Tables();
      var found, id := Find(addr.ip);
      if !found || mapInfo[id].record.Service() != addr {
        return;
      }
      Ops.GoodKeeps(Pl(), b, addr, time);
      var e := mapInfo[id];
      e := e.(record := e.record.(lastSuccess := time, attempts := 0), lastTry := time);
      UpdateEntry(Pl(), b, id, e, {}, {});
      mapInfo := mapInfo[id := e];
      if e.inTried {
        return;
      }
      var bucket := FindBucket(id, start);
      assert bucket != -1;
      MakeTried(id);
    }

    /** A consistent new entry is always in some bucket, so the search cannot fail. */
    method FindBucket(id: int, start: nat) returns (bucket: int)
      requires Valid() && id in mapInfo && !mapInfo[id].inTried
      ensures 0 <= bucket < NEW_BUCKET_COUNT
      ensures var s := Pl().NewSlot(mapInfo[id].record.Service(), bucket); s in vvNew && vvNew[s] == id
    {
      hide Inv, Placing.NewSlot;
      ghost var home := InSomeBucket(id);
      ghost var turn := (home.bucket + NEW_BUCKET_COUNT - start % NEW_BUCKET_COUNT) % NEW_BUCKET_COUNT;
      assert Visited(turn, start) == home.bucket;
      var service := mapInfo[id].record.Service();
      for n := 0 to NEW_BUCKET_COUNT
        invariant forall k :: 0 <= k < n ==> Visited(k, start) != home.bucket
      {
        var nB := (n + start) % NEW_BUCKET_COUNT;
        var s := Placing(h, nKey).NewSlot(service, nB);
        if s in vvNew && vvNew[s] == id {
          return nB;
        }
        assert Visited(n, start) == nB;
      }
      assert false;
    }

    function Visited(n: int, start: nat): int {
      (n + start) % NEW_BUCKET_COUNT
    }

    lemma InSomeBucket(id: int) returns (s: Slot)
      requires Valid() && id in mapInfo && !mapInfo[id].inTried
      ensures s.bucket < NEW_BUCKET_COUNT && s in vvNew && vvNew[s] == id
      ensures s == Pl().NewSlot(mapInfo[id].record.Service(), s.bucket)
    {
      hide Inv;
      InvAt(Pl(), Tables(), {}, {}, id);
      s :| s in Refs(vvNew, id);
      InvSlot(Pl(), Tables(), {}, {}, s);
    }

    /** True when the address was not known before; it may still have found no slot. */
    method Add(addr: Address, source: NetAddr, timePenalty: int, now: int, dice: nat) returns (fNew: bool)
      requires Valid()
      modifies this
      ensures nKey == old(nKey) && nLastGood == old(nLastGood) && Valid()
      ensures fNew <==> isRoutable(addr.service.ip) && AddrBook.Find(old(Tables()), addr.service.ip).None?
      ensures Tables() == if isRoutable(addr.service.ip)
                          then Ops.Add(Pl(), old(Tables()), addr, source, timePenalty, now, dice) else old(Tables())
    {
      hide Inv, Ops.Place, Ops.Odds, Ops.Refreshed;
      if !isRoutable(addr.service.ip) {
        return false;
      }
      Ops.AddKeeps(Pl(), Tables(), addr, source, timePenalty, now, dice);
      var penalty := if addr.service.ip == source then 0 else timePenalty;
      var found, id := Find(addr.service.ip);
      if found {
        var retry := Refresh(id, addr, penalty, now, dice);
        if retry {
          PlaceEntry(id, source, now);
        }
        fNew := false;
      } else {
        UnknownEntry(addr, penalty, source);
        id := Create(addr, source);
        ghost var first := addr.(time := Max(0, addr.time - penalty));
        var e := mapInfo[id];
        mapInfo := mapInfo[id := e.(record := e.record.(addr := e.record.addr.(time := Max(0, addr.time - penalty))))];
        assert mapInfo == AddrBook.Create(old(Tables()), first, source).info;
        nNew := nNew + 1;
        fNew := true;
        PlaceEntry(id, source, now);
      }
    }

    /** The first half of Add_ for a known address: new time and services, and the early exits. */
    method Refresh(id: int, addr: Address, penalty: int, now: int, dice: nat) returns (retry: bool)
      requires Valid() && id in mapInfo
      modifies this`mapInfo
      ensures mapInfo == old(mapInfo)[id := Ops.Refreshed(old(mapInfo)[id], addr, penalty, now)]
      ensures Inv(Pl(), Tables(), {id}, {})
      ensures retry <==> Ops.Retry(mapInfo[id], addr, dice)
    {
      hide Inv, Ops.Odds, Ops.HeardAgain;
      Ops.HeardAgainSame(mapInfo[id].record.addr, addr, penalty, now);
      var e := mapInfo[id];
      var known := HeardAgain(e.record.addr, addr, penalty, now);
      e := e.(record := e.record.(addr := known));
      KnownEntry(id, e);
      mapInfo := mapInfo[id := e];
      if addr.time == 0 || (e.record.addr.time != 0 && addr.time <= e.record.addr.time) {
        return false;
      }
      if e.inTried {
        return false;
      }
      if e.refCount == NEW_BUCKETS_PER_ADDRESS {
        return false;
      }
      var nFactor := Factor(e.refCount);
      return !(nFactor > 1 && dice % nFactor != 0);
    }

    /** The address of a known entry takes a newer time and all service bits heard of. */
    method HeardAgain(known: Address, addr: Address, penalty: int, now: int) returns (r: Address)
      ensures r == Ops.HeardAgain(known, addr, penalty, now)
    {
      r := known;
      var fCurrentlyOnline := now - addr.time < 24 * 60 * 60;
      var nUpdateInterval := if fCurrentlyOnline then 60 * 60 else 24 * 60 * 60;
      if addr.time != 0 && (r.time == 0 || r.time < addr.time - nUpdateInterval - penalty) {
        r := r.(time := Max(0, addr.time - penalty));
      }
      r := r.(services := r.services + addr.services);
    }

    method Factor(refCount: int) returns (nFactor: int)
      requires refCount >= 0
      ensures nFactor == Ops.Odds(refCount)
    {
      nFactor := 1;
      for n := 0 to refCount
        invariant nFactor == Ops.Odds(n)
      {
        nFactor := nFactor * 2;
      }
    }

    lemma KnownEntry(id: int, e: Info)
      requires Valid() && id in mapInfo && EntryStatsOk(mapInfo[id]) ==> EntryStatsOk(e)
      requires Valid() && id in mapInfo && SamePlace(mapInfo[id], e)
      requires e.refCount == mapInfo[id].refCount && e.randomPos == mapInfo[id].randomPos
      ensures 0 <= e.refCount <= NEW_BUCKETS_PER_ADDRESS
      ensures Inv(Pl(), Ops.Touched(Tables(), id, e), {id}, {})
    {
      hide Inv;
      var none: set<int> := {};
      InvAt(Pl(), Tables(), none, none, id);
      UpdateEntry(Pl(), Tables(), id, e, none, none);
      Loosen(Pl(), Ops.Touched(Tables(), id, e), id, none, none);
      assert none + {id} == {id};
    }

    lemma UnknownEntry(addr: Address, penalty: int, source: NetAddr)
      requires Valid() && AddrBook.Find(Tables(), addr.service.ip).None?
      ensures var c := AddrBook.Create(Tables(), addr.(time := Max(0, addr.time - penalty)), source);
              Inv(Pl(), c.(nNew := c.nNew + 1), {nIdCount}, {})
    {
      hide Inv;
      Ops.FindNone(Pl(), Tables(), addr.service.ip);
      var first := addr.(time := Max(0, addr.time - penalty));
      CreateKeeps(Pl(), Tables(), first, source);
      CountIn(Pl(), AddrBook.Create(Tables(), first, source), nIdCount, {nIdCount}, {nIdCount});
      var none: set<int> := {};
      assert {nIdCount} - {nIdCount} == none;
    }

    /** The second half of Add_: a slot for the entry, or its deletion when it has none at all. */
    method PlaceEntry(id: int, source: NetAddr, now: int)
      requires Inv(Pl(), Tables(), {id}, {}) && id in mapInfo && !mapInfo[id].inTried
      modifies this`mapInfo, this`mapAddr, this`vRandom, this`nNew, this`vvNew
      ensures Tables() == Ops.Place(Pl(), old(Tables()), id, source, now)
    {
      hide Inv, AddrBook.ClearNew, AddrBook.Delete, Placing.NewSlot, Ops.IsTerrible;
      var service := mapInfo[id].record.Service();
      var t := Placing(h, nKey).NewSlot(service, Placing(h, nKey).NewBucket(service, source));
      if t in vvNew {
        InvSlot(Pl(), Tables(), {id}, {}, t);
      }
      if t !in vvNew || vvNew[t] != id {
        var fInsert := t !in vvNew;
        if !fInsert {
          var existing := mapInfo[vvNew[t]];
          if Ops.IsTerrible(existing, now) || (existing.refCount > 1 && mapInfo[id].refCount == 0) {
            fInsert := true;
          }
        }
        if fInsert {
          ClearNewOthers(Tables(), t);
          ClearNew(t, {id}, {});
          mapInfo := mapInfo[id := mapInfo[id].(refCount := mapInfo[id].refCount + 1)];
          vvNew := vvNew[t := id];
        } else if mapInfo[id].refCount == 0 {
          InvRandom(Pl(), Tables(), {id}, {});
          SwapToLast(Tables(), id);
          Delete(id);
        }
      }
    }

    method Attempt(addr: Service, fCountFailure: bool, time: int)
      requires Valid() && time >= 0
      modifies this`mapInfo
      ensures Valid() && Tables() == Ops.Attempt(old(Tables()), addr, fCountFailure, time, nLastGood)
    {
      hide Inv;
      Ops.StatsOnlyKeep(Pl(), Tables(), addr, fCountFailure, time, nLastGood, {});
      var found, id := Find(addr.ip);
      if !found || mapInfo[id].record.Service() != addr {
        return;
      }
      var e := mapInfo[id].(lastTry := time);
      if fCountFailure && e.lastCountAttempt < nLastGood {
        e := e.(lastCountAttempt := time, record := e.record.(attempts := e.record.attempts + 1));
      }
      mapInfo := mapInfo[id := e];
    }

    method Connected(addr: Service, time: int)
      requires Valid() && time >= 0
      modifies this`mapInfo
      ensures Valid() && Tables() == Ops.Connected(old(Tables()), addr, time)
    {
      hide Inv;
      Ops.StatsOnlyKeep(Pl(), Tables(), addr, false, time, 0, {});
      var found, id := Find(addr.ip);
      if !found || mapInfo[id].record.Service() != addr {
        return;
      }
      var e := mapInfo[id];
      if time - e.record.addr.time > 20 * 60 {
        mapInfo := mapInfo[id := e.(record := e.record.(addr := e.record.addr.(time := time)))];
      }
    }

    method SetServices(addr: Service, services: Services)
      requires Valid()
      modifies this`mapInfo
      ensures Valid() && Tables() == Ops.SetServices(old(Tables()), addr, services)
    {
      hide Inv;
      Ops.StatsOnlyKeep(Pl(), Tables(), addr, false, 0, 0, services);
      var found, id := Find(addr.ip);
      if !found || mapInfo[id].record.Service() != addr {
        return;
      }
      var e := mapInfo[id];
      mapInfo := mapInfo[id := e.(record := e.record.(addr := e.record.addr.(services := services)))];
    }

    /**
     A random sample of good addresses, each at most once; the entries are only
     reordered.  `pick(n)` is the n-th random draw.
     */
    method GetAddr(pick: nat -> nat, now: int) returns (vAddr: seq<Address>)
      requires Valid()
      modifies this`mapInfo, this`vRandom
      ensures Valid() && mapInfo.Keys == old(mapInfo).Keys
      ensures forall id :: id in mapInfo ==> Ops.SameEntry(old(mapInfo)[id], mapInfo[id])
      ensures |vAddr| <= Min(Ops.GETADDR_MAX, Ops.GETADDR_MAX_PCT * |vRandom| / 100)
      ensures forall k :: 0 <= k < |vAddr| ==>
                Ops.Offers(mapInfo, vAddr[k], now)
      ensures forall j, k :: 0 <= j < k < |vAddr| ==> vAddr[j].service.ip != vAddr[k].service.ip
      ensures |vAddr| == Min(Ops.GETADDR_MAX, Ops.GETADDR_MAX_PCT * |vRandom| / 100) ||
              forall id :: id in mapInfo && !Ops.IsTerrible(mapInfo[id], now) ==> mapInfo[id].record.addr in vAddr
    {
      hide Inv, Ops.IsTerrible, Ops.Offers, Ops.Worthy, Ops.SameEntry;
      var nNodes := Ops.GETADDR_MAX_PCT * |vRandom| / 100;
      if nNodes > Ops.GETADDR_MAX {
        nNodes := Ops.GETADDR_MAX;
      }
      vAddr := [];
      var n := 0;
      Ops.WorthyNone(mapInfo, now);
      Ops.SameSelf(mapInfo);
      assert vRandom[..0] == [];
      while n < |vRandom|
        invariant 0 <= n <= |vRandom| == |old(vRandom)| && Valid() && mapInfo.Keys == old(mapInfo).Keys
        invariant forall id :: id in mapInfo ==> Ops.SameEntry(old(mapInfo)[id], mapInfo[id])
        invariant vAddr == Ops.Worthy(mapInfo, vRandom[..n], now) && |vAddr| <= nNodes
      {
        if |vAddr| >= nNodes {
          break;
        }
        var nRndPos := pick(n) % (|vRandom| - n) + n;
        ghost var before := mapInfo;
        Shuffle(n, nRndPos, now);
        Ops.SameAgain(old(mapInfo), before, mapInfo);
        assert vRandom[..n + 1] == vRandom[..n] + [vRandom[n]];
        Ops.WorthyNext(mapInfo, vRandom[..n], vRandom[n], now);
        if !Ops.IsTerrible(mapInfo[vRandom[n]], now) {
          vAddr := vAddr + [mapInfo[vRandom[n]].record.addr];
        }
        n := n + 1;
      }
      Sampled(vRandom[..n], now);
      if n == |vRandom| {
        assert vRandom[..n] == vRandom;
        NoneLeft(now);
      }
    }

    /** The whole random order yields every entry worth handing out. */
    lemma NoneLeft(now: int)
      requires Valid()
      ensures forall id :: id in mapInfo && !Ops.IsTerrible(mapInfo[id], now) ==>
                mapInfo[id].record.addr in Ops.Worthy(mapInfo, vRandom, now)
    {
      hide Inv, Ops.IsTerrible, Ops.Worthy;
      InvRandom(Pl(), Tables(), {}, {});
      forall id | id in mapInfo && !Ops.IsTerrible(mapInfo[id], now)
        ensures mapInfo[id].record.addr in Ops.Worthy(mapInfo, vRandom, now)
      {
        Ops.WorthyComplete(mapInfo, vRandom, now, mapInfo[id].randomPos);
      }
    }

    /** One draw: swaps a position not yet handed out to the front. */
    method Shuffle(n: nat, pos: nat, ghost now: int)
      requires Valid() && n <= pos < |vRandom|
      modifies this`mapInfo, this`vRandom
      ensures Valid() && mapInfo.Keys == old(mapInfo).Keys && |vRandom| == |old(vRandom)| && vRandom[n] in mapInfo
      ensures forall id :: id in mapInfo ==> Ops.SameEntry(old(mapInfo)[id], mapInfo[id])
      ensures Ops.Worthy(mapInfo, vRandom[..n], now) == Ops.Worthy(old(mapInfo), old(vRandom[..n]), now)
    {
      hide Inv, RandomOk, AddrBook.SwapRandom, Ops.Worthy, Ops.SameEntry;
      InvRandom(Pl(), Tables(), {}, {});
      SwapRandomKeeps(Pl(), Tables(), n, pos, {}, {});
      Ops.ShuffleSame(Tables(), n, pos, now);
      SwapRandom(n, pos);
    }

    lemma Sampled(ids: seq<int>, now: int)
      requires Valid() && ids <= vRandom
      ensures var vAddr := Ops.Worthy(mapInfo, ids, now);
              && (forall k :: 0 <= k < |vAddr| ==>
                    Ops.Offers(mapInfo, vAddr[k], now))
              && (forall j, k :: 0 <= j < k < |vAddr| ==> vAddr[j].service.ip != vAddr[k].service.ip)
    {
      hide Ops.IsTerrible, Ops.Worthy, Ops.Offers, TriedOk, NewOk, RefsOk, CountsOk, StatsOk, IdsOk;
      var vAddr := Ops.Worthy(mapInfo, ids, now);
      forall k | 0 <= k < |vAddr|
        ensures Ops.Offers(mapInfo, vAddr[k], now)
      {
        Ops.WorthyOffers(mapInfo, ids, now, k);
      }
      assert forall m, n :: 0 <= m < n < |ids| ==> ids[m] != ids[n];
      forall j, k | 0 <= j < k < |vAddr|
        ensures vAddr[j].service.ip != vAddr[k].service.ip
      {
        Ops.WorthyDistinct(mapAddr, mapInfo, ids, now, j, k);
      }
    }

    /** Writes the records in id order, then the new buckets by running number. */
    method Serialize() returns (s: Disk.Saved)
      requires Valid()
      ensures s == Disk.Save(Tables(), nKey)
    {
      hide Inv, Disk.NewOrder, Disk.TriedOrder, Disk.BucketIndexes;
      var newIds, mapUnkIds := NewInOrder();
      var triedIds := TriedInOrder();
      forall t | t in vvNew
        ensures vvNew[t] in mapInfo && 0 <= vvNew[t] < nIdCount
      {
        InvSlot(Pl(), Tables(), {}, {}, t);
        Disk.IdInRange(Pl(), Tables(), vvNew[t]);
      }
      var buckets := SaveBuckets(mapUnkIds);
      s := Disk.Saved(1, 32, nKey, Disk.Records(mapInfo, newIds), Disk.Records(mapInfo, triedIds), buckets);
      assert buckets == Disk.Save(Tables(), nKey).buckets;
    }

    /** The new entries in id order, and their running numbers; nNew is never exceeded. */
    method NewInOrder() returns (newIds: seq<int>, mapUnkIds: map<int, int>)
      requires Valid()
      ensures newIds == Disk.NewOrder(mapInfo, nIdCount)
      ensures forall k :: k in mapUnkIds <==> k in mapInfo && 0 <= k < nIdCount
      ensures forall k :: k in mapUnkIds ==> mapUnkIds[k] == Disk.Index(mapInfo, k)
    {
      hide Inv;
      newIds, mapUnkIds := [], map[];
      for id := 0 to Ends()
        invariant newIds == Disk.NewOrder(mapInfo, id)
        invariant forall k :: k in mapUnkIds <==> k in mapInfo && 0 <= k < id
        invariant forall k :: k in mapUnkIds ==> mapUnkIds[k] == Disk.Index(mapInfo, k)
      {
        if id in mapInfo {
          mapUnkIds := mapUnkIds[id := |newIds|];
          if mapInfo[id].refCount != 0 {
            NotYetAll(id);
            assert |newIds| != nNew;
            newIds := newIds + [id];
          }
        }
      }
    }

    method TriedInOrder() returns (triedIds: seq<int>)
      requires Valid()
      ensures triedIds == Disk.TriedOrder(mapInfo, nIdCount)
    {
      hide Inv;
      triedIds := [];
      for id := 0 to Ends()
        invariant triedIds == Disk.TriedOrder(mapInfo, id)
      {
        if id in mapInfo && mapInfo[id].inTried {
          NotYetAll(id);
          assert |triedIds| != nTried;
          triedIds := triedIds + [id];
        }
      }
    }

    /** One past the largest id in use. */
    function Ends(): (n: nat)
      reads this
      ensures n == Max(0, nIdCount)
    {
      if nIdCount < 0 then 0 else nIdCount
    }

    lemma NotYetAll(id: int)
      requires Valid() && id in mapInfo
      ensures mapInfo[id].refCount != 0 ==> |Disk.NewOrder(mapInfo, id)| < nNew
      ensures mapInfo[id].inTried ==> |Disk.TriedOrder(mapInfo, id)| < nTried
    {
      hide Inv;
      Disk.OrderLengths(Pl(), Tables());
      Disk.IdInRange(Pl(), Tables(), id);
      Disk.OrderGrows(mapInfo, id, nIdCount);
    }

    method SaveBuckets(mapUnkIds: map<int, int>) returns (buckets: seq<seq<int>>)
      requires forall s :: s in vvNew ==> vvNew[s] in mapUnkIds && mapUnkIds[vvNew[s]] == Disk.Index(mapInfo, vvNew[s])
      ensures |buckets| == NEW_BUCKET_COUNT
      ensures forall k :: 0 <= k < NEW_BUCKET_COUNT ==> buckets[k] == Disk.BucketIndexes(Tables(), k, BUCKET_SIZE)
    {
      buckets := [];
      for bucket := 0 to NEW_BUCKET_COUNT
        invariant |buckets| == bucket
        invariant forall k :: 0 <= k < bucket ==> buckets[k] == Disk.BucketIndexes(Tables(), k, BUCKET_SIZE)
      {
        var indexes: seq<int> := [];
        for i := 0 to BUCKET_SIZE
          invariant indexes == Disk.BucketIndexes(Tables(), bucket, i)
        {
          if Slot(bucket, i) in vvNew {
            indexes := indexes + [mapUnkIds[vvNew[Slot(bucket, i)]]];
          }
        }
        buckets := buckets + [indexes];
      }
    }

    method Clear(key: Key)
      modifies this
      ensures Tables() == EmptyBook && nKey == key && nLastGood == 1
    {
      nKey, nIdCount, mapInfo, mapAddr, vRandom := key, 0, map[], map[], [];
      nTried, vvTried, nNew, vvNew, nLastGood := 0, map[], 0, map[], 1;
    }

    /** Rebuilds everything from the saved fields; false stands for the stream failures. */
    method Unserialize(s: Disk.Saved, randomKey: Key) returns (ok: bool)
      modifies this
      ensures ok <==> s.keySize == 32 && |s.newRecords| <= NEW_BUCKET_COUNT * BUCKET_SIZE
                      && |s.triedRecords| <= TRIED_BUCKET_COUNT * BUCKET_SIZE
      ensures ok ==> nKey == s.key && Tables() == Disk.Load(Pl(), s)
      ensures ok ==> (Valid() <==> AddrLoad.FileSound(Pl(), s))
    {
      hide Inv, AddrLoad.FileSound, Disk.LoadNew, Disk.LoadTried, Disk.LoadBuckets, Disk.Prune;
      Clear(randomKey);
      if s.keySize != 32 {
        return false;
      }
      nKey, nNew, nTried := s.key, |s.newRecords|, |s.triedRecords|;
      if nNew > NEW_BUCKET_COUNT * BUCKET_SIZE || nTried > TRIED_BUCKET_COUNT * BUCKET_SIZE {
        return false;
      }
      LoadNewRecords(s.newRecords, Disk.Usable(s));
      nIdCount := nNew;
      LoadTriedRecords(s.triedRecords);
      LoadBuckets(s.buckets, Disk.Usable(s));
      PruneUnreferenced();
      AddrLoad.LoadConsistent(Pl(), s);
      ok := true;
    }

    ghost predicate Loading()
      reads this`vRandom, this`mapInfo, this`nIdCount
    {
      RandomOk(vRandom, mapInfo) && 0 <= nIdCount && forall k :: k in mapInfo ==> 0 <= k < nIdCount
    }

    /** The records with ids below `n` are read. */
    ghost predicate Loaded(n: int)
      reads this`vRandom, this`mapInfo
    {
      RandomOk(vRandom, mapInfo) && forall k :: k in mapInfo ==> 0 <= k < n
    }

    method ReadNew(n: nat, r: Record, usable: bool)
      requires Loaded(n)
      modifies this`mapInfo, this`mapAddr, this`vRandom, this`vvNew
      ensures Loaded(n + 1) && Tables() == Disk.ReadNew(Pl(), usable, old(Tables()), n, r)
    {
      hide RandomOk, Ops.HomeSlot;
      CreateRandom(vRandom, mapInfo, n, Info(r, 0, 0, 0, false, |vRandom|));
      mapInfo := mapInfo[n := Info(r, 0, 0, 0, false, |vRandom|)];
      mapAddr := mapAddr[r.Ip() := n];
      vRandom := vRandom + [n];
      if !usable {
        var t := Ops.HomeSlot(Placing(h, nKey), r);
        if t !in vvNew {
          UpdateRandom(vRandom, mapInfo, n, mapInfo[n].(refCount := mapInfo[n].refCount + 1));
          vvNew := vvNew[t := n];
          mapInfo := mapInfo[n := mapInfo[n].(refCount := mapInfo[n].refCount + 1)];
        }
      }
    }

    method LoadNewRecords(recs: seq<Record>, usable: bool)
      requires mapInfo == map[] && vRandom == []
      modifies this`mapInfo, this`mapAddr, this`vRandom, this`vvNew
      ensures Tables() == Disk.LoadNew(Pl(), usable, old(Tables()), recs)
      ensures Loaded(|recs|)
    {
      hide Loaded, RandomOk, Disk.ReadNew, Disk.LoadNew;
      ghost var pl, start := Pl(), Tables();
      NoRecords(pl, usable, recs);
      for n := 0 to |recs|
        invariant Loaded(n) && Pl() == pl && Tables() == Disk.LoadNew(pl, usable, start, recs[..n])
      {
        Disk.LoadNewNext(pl, usable, start, recs, n);
        ReadNew(n, recs[n], usable);
      }
      assert recs[..|recs|] == recs;
    }

    lemma NoRecords(pl: Placing, usable: bool, recs: seq<Record>)
      requires mapInfo == map[] && vRandom == []
      ensures Loaded(0) && Tables() == Disk.LoadNew(pl, usable, Tables(), recs[..0])
    {
    }

    method ReadTried(r: Record) returns (lost: bool)
      requires Loading()
      modifies this`mapInfo, this`mapAddr, this`vRandom, this`vvTried, this`nIdCount
      ensures Loading()
      ensures Tables().(nTried := if lost then nTried - 1 else nTried) == Disk.ReadTried(Pl(), old(Tables()), r)
    {
      hide RandomOk, Placing.TriedSlot;
      var t := Placing(h, nKey).TriedSlot(r.Service());
      if t in vvTried {
        return true;
      }
      var e := Info(r, 0, 0, 0, true, |vRandom|);
      CreateRandom(vRandom, mapInfo, nIdCount, e);
      vRandom := vRandom + [nIdCount];
      mapInfo := mapInfo[nIdCount := e];
      mapAddr := mapAddr[r.Ip() := nIdCount];
      vvTried := vvTried[t := nIdCount];
      nIdCount := nIdCount + 1;
      lost := false;
    }

    method LoadTriedRecords(recs: seq<Record>)
      requires Loading()
      modifies this`mapInfo, this`mapAddr, this`vRandom, this`vvTried, this`nIdCount, this`nTried
      ensures Loading() && Tables() == Disk.LoadTried(Pl(), old(Tables()), recs)
    {
      hide Loading, Disk.ReadTried;
      var nLost := 0;
      for n := 0 to |recs|
        invariant Loading() && nTried == old(nTried)
        invariant Tables().(nTried := nTried - nLost) == Disk.LoadTried(Pl(), old(Tables()), recs[..n])
      {
        assert recs[..n + 1][..n] == recs[..n];
        Disk.ReadTriedShift(Pl(), Tables(), recs[n], nTried - nLost);
        var lost := ReadTried(recs[n]);
        nLost := if lost then nLost + 1 else nLost;
      }
      assert recs[..|recs|] == recs;
      nTried := nTried - nLost;
    }

    method LoadBuckets(buckets: seq<seq<int>>, usable: bool)
      requires Loading()
      modifies this`mapInfo, this`vvNew
      ensures Loading() && Tables() == Disk.LoadBuckets(Pl(), usable, old(Tables()), buckets)
    {
      for bucket := 0 to |buckets|
        invariant Loading() && Tables() == Disk.LoadBuckets(Pl(), usable, old(Tables()), buckets[..bucket])
      {
        assert buckets[..bucket + 1][..bucket] == buckets[..bucket];
        LoadBucket(bucket, buckets[bucket], usable);
      }
      assert buckets[..|buckets|] == buckets;
    }

    method ReadIndex(bucket: nat, nIndex: int, usable: bool)
      requires Loading()
      modifies this`mapInfo, this`vvNew
      ensures Loading() && Tables() == Disk.LoadIndex(Pl(), usable, old(Tables()), bucket, nIndex)
    {
      hide RandomOk, Placing.NewSlot;
      if 0 <= nIndex < nNew && nIndex in mapInfo {
        var t := Placing(h, nKey).NewSlot(mapInfo[nIndex].record.Service(), bucket);
        if usable && t !in vvNew && mapInfo[nIndex].refCount < NEW_BUCKETS_PER_ADDRESS {
          UpdateRandom(vRandom, mapInfo, nIndex, mapInfo[nIndex].(refCount := mapInfo[nIndex].refCount + 1));
          mapInfo := mapInfo[nIndex := mapInfo[nIndex].(refCount := mapInfo[nIndex].refCount + 1)];
          vvNew := vvNew[t := nIndex];
        }
      }
    }

    method LoadBucket(bucket: nat, indexes: seq<int>, usable: bool)
      requires Loading()
      modifies this`mapInfo, this`vvNew
      ensures Loading() && Tables() == Disk.LoadBucket(Pl(), usable, old(Tables()), bucket, indexes)
    {
      hide Loading, Disk.LoadIndex;
      for n := 0 to |indexes|
        invariant Loading() && Tables() == Disk.LoadBucket(Pl(), usable, old(Tables()), bucket, indexes[..n])
      {
        assert indexes[..n + 1][..n] == indexes[..n];
        ReadIndex(bucket, indexes[n], usable);
      }
      assert indexes[..|indexes|] == indexes;
    }

    lemma LoadingCount()
      requires Loading()
      ensures 0 <= nIdCount
    {
    }

    method PruneUnreferenced()
      requires Loading()
      modifies this`mapInfo, this`mapAddr, this`vRandom, this`nNew
      ensures Tables() == Disk.Prune(old(Tables()), nIdCount)
    {
      hide Loading, AddrBook.Delete;
      LoadingCount();
      ghost var b := Tables();
      for id := 0 to nIdCount
        invariant Loading() && nIdCount == b.idCount && Tables() == Disk.Prune(b, id)
      {
        if id in mapInfo && !mapInfo[id].inTried && mapInfo[id].refCount == 0 {
          PruneOne(id);
        }
      }
    }

    method PruneOne(id: int)
      requires Loading() && id in mapInfo && !mapInfo[id].inTried && mapInfo[id].refCount == 0
      modifies this`mapInfo, this`mapAddr, this`vRandom, this`nNew
      ensures Loading() && Tables() == AddrBook.Delete(old(Tables()), id)
    {
      hide RandomOk, AddrBook.Delete;
      DeleteRandom(Tables(), id);
      SwapToLast(Tables(), id);
      Delete(id);
    }

    /** Loading what another manager saved gives its tables back, ids renumbered. */
    method LoadFrom(other: AddrMan)
      requires other != this && other.Valid() && other.h == h
      modifies this
      ensures Valid() && nKey == other.nKey
      ensures Disk.Renumbered(other.Tables(), Tables(), Disk.Order(other.Tables()))
    {
      hide Inv, Disk.Load, Disk.NewOrder, Disk.TriedOrder, Disk.BucketIndexes, Disk.Order, Disk.Renumbered;
      var s := other.Serialize();
      Disk.OrderLengths(other.Pl(), other.Tables());
      Disk.WithinLimits(other.Pl(), other.Tables());
      Disk.RoundTrip(other.Pl(), other.Tables());
      var ok := Unserialize(s, 0);
    }
  }
}
