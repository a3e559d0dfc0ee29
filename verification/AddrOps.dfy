/**
 The address manager's operations (src/addrman.cpp): how entries are added, promoted
 to the tried table, evicted back, and handed out.  Each operation is a function on
 the tables, proved to keep them consistent, and a method that carries it out step
 by step.  Random choices and the clock are parameters.
 */
module AddrOps {
  import opened Prelude
  import opened AddrBook

  const HORIZON_DAYS := 30
  const RETRIES := 3
  const MAX_FAILURES := 10
  const MIN_FAIL_DAYS := 7
  const GETADDR_MAX_PCT := 23
  const GETADDR_MAX := 2500
  const DAY := 24 * 60 * 60

  predicate IsTerrible(e: Info, now: int) {
    if e.lastTry != 0 && e.lastTry >= now - 60 then false
    else
      || e.record.addr.time > now + 10 * 60
      || e.record.addr.time == 0 || now - e.record.addr.time > HORIZON_DAYS * DAY
      || (e.record.lastSuccess == 0 && e.record.attempts >= RETRIES)
      || (now - e.record.lastSuccess > MIN_FAIL_DAYS * DAY && e.record.attempts >= MAX_FAILURES)
  }

  /** An entry tried within a minute is spared; otherwise it goes for any of five reasons. */
  lemma TerribleIs(e: Info, now: int)
    ensures IsTerrible(e, now) <==>
            && (e.lastTry == 0 || now - e.lastTry > 60)
            && (|| e.record.addr.time - now > 600
                || e.record.addr.time == 0
                || now - e.record.addr.time > 2592000
                || (e.record.lastSuccess == 0 && e.record.attempts >= 3)
                || (now - e.record.lastSuccess > 604800 && e.record.attempts >= 10))
  {
  }

  // ----- MakeTried, Good_ -----

  /** The new slot an entry falls back to: the one of its own source. */
  function HomeSlot(pl: Placing, r: Record): Slot {
    pl.NewSlot(r.Service(), pl.NewBucket(r.Service(), r.source))
  }

  /** Gives an evicted entry its single new slot and counts it as new again. */
  function Reenter(b: Book, t: Slot, id: int): Book {
    if id !in b.info then b
    else b.(newTable := b.newTable[t := id], info := b.info[id := b.info[id].(refCount := 1)], nNew := b.nNew + 1)
  }

  /** Moves the occupant of a tried slot, if any, back to the new table. */
  function MakeRoom(pl: Placing, b: Book, s: Slot): Book {
    if s !in b.triedTable || b.triedTable[s] !in b.info then b
    else
      var id := b.triedTable[s];
      var t := HomeSlot(pl, b.info[id].record);
      Reenter(ClearNew(Evict(b, s), t), t, id)
  }

  function MakeTried(pl: Placing, b: Book, id: int): Book {
    if id !in b.info then b
    else
      var c := UnlinkBuckets(pl, b, id, NEW_BUCKET_COUNT);
      var s := pl.TriedSlot(b.info[id].record.Service());
      Promote(MakeRoom(pl, c.(nNew := c.nNew - 1), s), s, id)
  }

  lemma ReenterKeeps(pl: Placing, b: Book, t: Slot, id: int, loose: set<int>, out: set<int>)
    requires Inv(pl, b, loose, out) && id in b.info && id in loose && id in out
    requires b.info[id].refCount == 0 && !b.info[id].inTried && t !in b.newTable
    requires t == HomeSlot(pl, b.info[id].record)
    ensures Inv(pl, Reenter(b, t, id), loose - {id}, out - {id})
  {
    hide Inv, Placing.NewSlot, Placing.NewBucket;
    assert t.bucket < NEW_BUCKET_COUNT && t == pl.NewSlot(b.info[id].record.Service(), t.bucket) by {
      HomeSlotBucket(pl, b.info[id].record);
    }
    LinkKeeps(pl, b, t, id, loose, out);
    CountIn(pl, Link(b, t, id), id, loose - {id}, out);
  }

  lemma HomeSlotBucket(pl: Placing, r: Record)
    ensures HomeSlot(pl, r).bucket < NEW_BUCKET_COUNT
    ensures HomeSlot(pl, r) == pl.NewSlot(r.Service(), HomeSlot(pl, r).bucket)
  {
  }

  /** With `id` already unlinked, making room keeps it untouched and frees the slot. */
  lemma MakeRoomKeeps(pl: Placing, b: Book, s: Slot, id: int)
    requires Inv(pl, b, {id}, {id}) && id in b.info && !b.info[id].inTried && b.info[id].refCount == 0
    ensures Inv(pl, MakeRoom(pl, b, s), {id}, {id})
    ensures s !in MakeRoom(pl, b, s).triedTable
    ensures id in MakeRoom(pl, b, s).info
    ensures MakeRoom(pl, b, s).info[id] == b.info[id].(randomPos := MakeRoom(pl, b, s).info[id].randomPos)
  {
    hide Inv, ClearNew, HomeSlot, Placing.TriedSlot, Refs;
    if s in b.triedTable {
      EvictKeeps(pl, b, s, {id}, {id});
      var old_ := b.triedTable[s];
      TriedEntry(pl, b, {id}, {id}, s);
      var c := Evict(b, s);
      var t := HomeSlot(pl, b.info[old_].record);
      assert {id} + {old_} == {id, old_};
      if t in c.newTable {
        InvSlot(pl, c, {id, old_}, {id, old_}, t);
      }
      ClearNewKeeps(pl, c, t, {id, old_}, {id, old_});
      ClearNewOthers(c, t);
      var d := ClearNew(c, t);
      ReenterKeeps(pl, d, t, old_, {id, old_}, {id, old_});
      assert {id, old_} - {old_} == {id};
    }
  }

  lemma TriedEntry(pl: Placing, b: Book, loose: set<int>, out: set<int>, s: Slot)
    requires Inv(pl, b, loose, out) && s in b.triedTable
    ensures b.triedTable[s] in b.info && b.info[b.triedTable[s]].inTried
    ensures s == pl.TriedSlot(b.info[b.triedTable[s]].record.Service())
  {
  }

  /** Promoting a new entry keeps all indexes consistent. */
  lemma MakeTriedKeeps(pl: Placing, b: Book, id: int)
    requires Consistent(pl, b) && id in b.info && !b.info[id].inTried && b.info[id].record.lastSuccess > 0
    ensures Consistent(pl, MakeTried(pl, b, id))
    ensures id in MakeTried(pl, b, id).info
    ensures var e := MakeTried(pl, b, id).info[id]; e == b.info[id].(inTried := true, refCount := 0, randomPos := e.randomPos)
  {
    hide Inv, UnlinkBuckets, MakeRoom, Placing.TriedSlot;
    Loosen(pl, b, id, {}, {});
    assert {} + {id} == {id};
    UnlinkAll(pl, b, id, {id}, {});
    var c := UnlinkBuckets(pl, b, id, NEW_BUCKET_COUNT);
    CountOut(pl, c, id, {id}, {});
    var c1 := c.(nNew := c.nNew - 1);
    var s := pl.TriedSlot(b.info[id].record.Service());
    MakeRoomKeeps(pl, c1, s, id);
    PromoteKeeps(pl, MakeRoom(pl, c1, s), s, id, {id}, {id});
    assert {id} - {id} == {};
  }

  /** Two versions of an entry that differ at most in their place in the random order. */
  predicate SameEntry(e: Info, f: Info) {
    f == e.(randomPos := f.randomPos)
  }

  /**
   What promotion does: the entry takes its tried slot and leaves the new table; the
   former occupant falls back to exactly one new slot; and apart from those two and
   the entry displaced from that slot, nothing changes.
   */
  lemma MakeTriedMoves(pl: Placing, b: Book, id: int)
    requires Consistent(pl, b) && id in b.info && !b.info[id].inTried
    ensures var c := MakeTried(pl, b, id);
            var s := pl.TriedSlot(b.info[id].record.Service());
            && c.triedTable == b.triedTable[s := id]
            && id in c.info && c.info[id].inTried && c.info[id].refCount == 0 && c.info[id].record == b.info[id].record
            && (s !in b.triedTable ==> forall k :: k in b.info && k != id ==> k in c.info && SameEntry(b.info[k], c.info[k]))
            && (s in b.triedTable ==>
                  var evicted := b.triedTable[s];
                  && evicted in b.info && evicted in c.info
                  && var t := HomeSlot(pl, b.info[evicted].record);
                     && SameEntry(b.info[evicted].(inTried := false, refCount := 1), c.info[evicted])
                     && t in c.newTable && c.newTable[t] == evicted
                     && forall k :: k in b.info && k != id && k != evicted && (t in b.newTable ==> k != b.newTable[t]) ==>
                          k in c.info && SameEntry(b.info[k], c.info[k]))
  {
    hide Inv, UnlinkBuckets, ClearNew, HomeSlot, Placing.TriedSlot;
    Loosen(pl, b, id, {}, {});
    assert {} + {id} == {id};
    UnlinkAll(pl, b, id, {id}, {});
    var c := UnlinkBuckets(pl, b, id, NEW_BUCKET_COUNT);
    var c1 := c.(nNew := c.nNew - 1);
    CountOut(pl, c, id, {id}, {});
    var s := pl.TriedSlot(b.info[id].record.Service());
    if s in c1.triedTable {
      TriedEntry(pl, c1, {id}, {id}, s);
      var evicted := c1.triedTable[s];
      var t := HomeSlot(pl, c1.info[evicted].record);
      EvictKeeps(pl, c1, s, {id}, {id});
      var d := Evict(c1, s);
      if t in d.newTable {
        InvSlot(pl, d, {id} + {evicted}, {id} + {evicted}, t);
      }
      ClearNewOthers(d, t);
    }
  }

  /** Deleting an entry leaves all others but for their places in the random order. */
  lemma DeleteExact(b: Book, id: int)
    requires RandomOk(b.random, b.info) && id in b.info
    ensures var c := Delete(b, id);
            && c.info.Keys == b.info.Keys - {id} && RandomOk(c.random, c.info)
            && (forall k :: k in c.info ==> SameEntry(b.info[k], c.info[k]))
            && c == b.(info := c.info, random := c.random, byIp := b.byIp - {b.info[id].record.Ip()}, nNew := b.nNew - 1)
  {
    hide RandomOk, SwapRandom;
    var pos := b.info[id].randomPos;
    HasPosition(b, id);
    DeleteRandom(b, id);
    SwapRandomSame(b, pos, |b.random| - 1);
    SwapOnly(b, pos, |b.random| - 1);
  }

  lemma HasPosition(b: Book, id: int)
    requires RandomOk(b.random, b.info) && id in b.info
    ensures 0 <= b.info[id].randomPos < |b.random|
  {
  }

  lemma SwapOnly(b: Book, i: int, j: int)
    ensures SwapRandom(b, i, j) == b.(info := SwapRandom(b, i, j).info, random := SwapRandom(b, i, j).random)
  {
  }

  function Touched(b: Book, id: int, e: Info): Book {
    b.(info := b.info[id := e])
  }

  /** The entry for exactly this address and port. */
  function FindService(b: Book, s: Service): Option<int> {
    match Find(b, s.ip)
    case None => None
    case Some(id) => if id in b.info && b.info[id].record.Service() == s then Some(id) else None
  }

  function Good(pl: Placing, b: Book, s: Service, time: int): Book {
    match FindService(b, s)
    case None => b
    case Some(id) =>
      if id !in b.info then b
      else
        var e := b.info[id];
        var c := Touched(b, id, e.(record := e.record.(lastSuccess := time, attempts := 0), lastTry := time));
        if e.inTried then c else MakeTried(pl, c, id)
  }

  lemma GoodKeeps(pl: Placing, b: Book, s: Service, time: int)
    requires Consistent(pl, b) && time > 0
    ensures Consistent(pl, Good(pl, b, s, time))
    ensures FindService(b, s).Some? ==>
              var id := FindService(b, s).value;
              && id in Good(pl, b, s, time).info && Good(pl, b, s, time).info[id].inTried
              && Good(pl, b, s, time).info[id].record == b.info[id].record.(lastSuccess := time, attempts := 0)
              && Good(pl, b, s, time).info[id].lastTry == time
  {
    hide Inv, MakeTried;
    var found := FindService(b, s);
    if found.Some? && found.value in b.info {
      var id := found.value;
      var e := b.info[id];
      var f := e.(record := e.record.(lastSuccess := time, attempts := 0), lastTry := time);
      UpdateEntry(pl, b, id, f, {}, {});
      if !e.inTried {
        MakeTriedKeeps(pl, Touched(b, id, f), id);
      }
    }
  }

  // ----- Add_ -----

  /** Puts `id` into the slot its source selects, if the slot is free or its holder may go. */
  function Place(pl: Placing, b: Book, id: int, source: NetAddr, now: int): Book {
    if id !in b.info then b
    else
      var service := b.info[id].record.Service();
      var t := pl.NewSlot(service, pl.NewBucket(service, source));
      if t in b.newTable && b.newTable[t] == id then b
      else if CanTake(b, t, id, now) then Link(ClearNew(b, t), t, id)
      else if b.info[id].refCount == 0 then Delete(b, id)
      else b
  }

  predicate CanTake(b: Book, t: Slot, id: int, now: int)
    requires id in b.info
  {
    t in b.newTable && b.newTable[t] in b.info ==>
      || IsTerrible(b.info[b.newTable[t]], now)
      || (b.info[b.newTable[t]].refCount > 1 && b.info[id].refCount == 0)
  }

  lemma PlaceKeeps(pl: Placing, b: Book, id: int, source: NetAddr, now: int)
    requires Inv(pl, b, {id}, {}) && id in b.info && !b.info[id].inTried
    requires b.info[id].refCount < NEW_BUCKETS_PER_ADDRESS
    ensures Consistent(pl, Place(pl, b, id, source, now))
  {
    hide Inv, ClearNew, Delete, Placing.NewSlot, Refs, IsTerrible;
    var service := b.info[id].record.Service();
    var t := pl.NewSlot(service, pl.NewBucket(service, source));
    assert t.bucket < NEW_BUCKET_COUNT && t == pl.NewSlot(service, t.bucket) by {
      NewSlotBucket(pl, service, pl.NewBucket(service, source));
    }
    var none: set<int> := {};
    assert none + {id} == {id} && {id} - {id} == none && none - {id} == none;
    InvAt(pl, b, {id}, {}, id);
    if t in b.newTable {
      InvSlot(pl, b, {id}, {}, t);
    }
    if t in b.newTable && b.newTable[t] == id {
      Tighten(pl, b, id, {}, {});
    } else if CanTake(b, t, id, now) {
      ClearNewKeeps(pl, b, t, {id}, {});
      ClearNewOthers(b, t);
      LinkKeeps(pl, ClearNew(b, t), t, id, {id}, {});
    } else if b.info[id].refCount == 0 {
      DeleteKeeps(pl, b, id, {id}, {});
    } else {
      Tighten(pl, b, id, {}, {});
    }
  }

  lemma NewSlotBucket(pl: Placing, s: Service, bucket: nat)
    ensures pl.NewSlot(s, bucket).bucket == bucket
  {
  }

  /** A new reference to a known address is taken with a chance of one in this. */
  function Odds(n: int): (p: int)
    ensures p >= 1
  {
    if n <= 0 then 1 else 2 * Odds(n - 1)
  }

  /** Time and service bits of a known address after hearing of it again. */
  function HeardAgain(known: Address, addr: Address, penalty: int, now: int): Address {
    var interval := if now - addr.time < DAY then 60 * 60 else DAY;
    var time := if addr.time != 0 && (known.time == 0 || known.time < addr.time - interval - penalty)
                then Max(0, addr.time - penalty) else known.time;
    known.(time := time, services := known.services + addr.services)
  }

  lemma HeardAgainSame(known: Address, addr: Address, penalty: int, now: int)
    ensures HeardAgain(known, addr, penalty, now).service == known.service
  {
  }

  function Refreshed(e: Info, addr: Address, penalty: int, now: int): Info {
    e.(record := e.record.(addr := HeardAgain(e.record.addr, addr, penalty, now)))
  }

  /** Whether Add_ goes on to look for another slot for a known entry. */
  predicate Retry(e: Info, addr: Address, dice: nat) {
    && addr.time != 0 && (e.record.addr.time == 0 || addr.time > e.record.addr.time)
    && !e.inTried && e.refCount != NEW_BUCKETS_PER_ADDRESS
    && dice % Odds(e.refCount) == 0
  }

  function Add(pl: Placing, b: Book, addr: Address, source: NetAddr, timePenalty: int, now: int, dice: nat): Book {
    var penalty := if addr.service.ip == source then 0 else timePenalty;
    match Find(b, addr.service.ip)
    case Some(id) =>
      if id !in b.info then b
      else
        var e := Refreshed(b.info[id], addr, penalty, now);
        if Retry(e, addr, dice) then Place(pl, Touched(b, id, e), id, source, now) else Touched(b, id, e)
    case None =>
      var c := Create(b, addr.(time := Max(0, addr.time - penalty)), source);
      Place(pl, c.(nNew := c.nNew + 1), b.idCount, source, now)
  }

  lemma AddKeeps(pl: Placing, b: Book, addr: Address, source: NetAddr, timePenalty: int, now: int, dice: nat)
    requires Consistent(pl, b)
    ensures Consistent(pl, Add(pl, b, addr, source, timePenalty, now, dice))
  {
    hide Inv, Place, Odds, Refs;
    var penalty := if addr.service.ip == source then 0 else timePenalty;
    assert {} + {b.idCount} == {b.idCount} && {b.idCount} - {b.idCount} == {};
    match Find(b, addr.service.ip)
    case Some(id) =>
      var e := Refreshed(b.info[id], addr, penalty, now);
      InvAt(pl, b, {}, {}, id);
      UpdateEntry(pl, b, id, e, {}, {});
      if Retry(e, addr, dice) {
        Loosen(pl, Touched(b, id, e), id, {}, {});
        assert {} + {id} == {id};
        PlaceKeeps(pl, Touched(b, id, e), id, source, now);
      }
    case None =>
      FindNone(pl, b, addr.service.ip);
      var first := addr.(time := Max(0, addr.time - penalty));
      CreateKeeps(pl, b, first, source);
      var c := Create(b, first, source);
      CountIn(pl, c, b.idCount, {b.idCount}, {b.idCount});
      PlaceKeeps(pl, c.(nNew := c.nNew + 1), b.idCount, source, now);
  }

  /** The slot in which Add_ tries to enter an address. */
  function AddSlot(pl: Placing, addr: Address, source: NetAddr): Slot {
    pl.NewSlot(addr.service, pl.NewBucket(addr.service, source))
  }

  /**
   After Add_ the address is known exactly when it was known before or the slot chosen
   for it was free, terrible, or held by an entry with other references.
   */
  lemma AddKnows(pl: Placing, b: Book, addr: Address, source: NetAddr, timePenalty: int, now: int, dice: nat)
    requires Consistent(pl, b)
    ensures var t := AddSlot(pl, addr, source);
            addr.service.ip in Add(pl, b, addr, source, timePenalty, now, dice).byIp <==>
            addr.service.ip in b.byIp || t !in b.newTable ||
            (b.newTable[t] in b.info &&
             (IsTerrible(b.info[b.newTable[t]], now) || b.info[b.newTable[t]].refCount > 1))
  {
    hide Inv, Add, Placing.NewSlot, IsTerrible, Refs;
    if AddSlot(pl, addr, source) in b.newTable {
      InvSlot(pl, b, {}, {}, AddSlot(pl, addr, source));
    }
    if Find(b, addr.service.ip).Some? {
      KnownStays(pl, b, addr, source, timePenalty, now, dice);
    } else {
      UnknownPlaced(pl, b, addr, source, timePenalty, now, dice);
    }
  }

  lemma UnknownPlaced(pl: Placing, b: Book, addr: Address, source: NetAddr, timePenalty: int, now: int, dice: nat)
    requires Consistent(pl, b) && Find(b, addr.service.ip).None?
    requires AddSlot(pl, addr, source) in b.newTable ==> b.newTable[AddSlot(pl, addr, source)] in b.info
    ensures var t := AddSlot(pl, addr, source);
            addr.service.ip in Add(pl, b, addr, source, timePenalty, now, dice).byIp <==>
            (t in b.newTable ==>
               IsTerrible(b.info[b.newTable[t]], now) || b.info[b.newTable[t]].refCount > 1)
    ensures addr.service.ip !in b.byIp
  {
    hide Inv, Link, ClearNew, Delete, Placing.NewSlot, IsTerrible;
    FindNone(pl, b, addr.service.ip);
    AddKeeps(pl, b, addr, source, timePenalty, now, dice);
    FreshId(pl, b);
    var t := AddSlot(pl, addr, source);
    var penalty := if addr.service.ip == source then 0 else timePenalty;
    var first := addr.(time := Max(0, addr.time - penalty));
    var d := Create(b, first, source);
    var e := d.(nNew := d.nNew + 1);
    CreateKeeps(pl, b, first, source);
    InvRandom(pl, d, {b.idCount}, {b.idCount});
    if CanTake(e, t, b.idCount, now) {
      LinkedIsKnown(pl, e, t, b.idCount);
    } else {
      DeletedIsUnknown(e, b.idCount);
    }
  }

  lemma LinkedIsKnown(pl: Placing, b: Book, t: Slot, id: int)
    requires id in b.info && (t in b.newTable ==> b.newTable[t] in b.info && b.newTable[t] != id)
    requires Consistent(pl, Link(ClearNew(b, t), t, id))
    ensures b.info[id].record.Ip() in Link(ClearNew(b, t), t, id).byIp
  {
    hide Inv, ClearNew;
    ClearNewOthers(b, t);
    KnownIp(pl, Link(ClearNew(b, t), t, id), id);
  }

  lemma DeletedIsUnknown(b: Book, id: int)
    requires RandomOk(b.random, b.info) && id in b.info
    ensures b.info[id].record.Ip() !in Delete(b, id).byIp
  {
    SwapToLast(b, id);
    hide SwapRandom;
    SwapKeepsIps(b, b.info[id].randomPos, |b.random| - 1);
  }

  lemma SwapKeepsIps(b: Book, i: int, j: int)
    ensures SwapRandom(b, i, j).byIp == b.byIp
  {
  }

  lemma FreshId(pl: Placing, b: Book)
    requires Consistent(pl, b)
    ensures b.idCount !in b.info && forall s :: s in b.newTable ==> b.newTable[s] != b.idCount
  {
  }

  lemma KnownIp(pl: Placing, b: Book, id: int)
    requires Consistent(pl, b) && id in b.info
    ensures b.info[id].record.Ip() in b.byIp
  {
  }

  lemma KnownStays(pl: Placing, b: Book, addr: Address, source: NetAddr, timePenalty: int, now: int, dice: nat)
    requires Consistent(pl, b) && Find(b, addr.service.ip).Some?
    ensures addr.service.ip in Add(pl, b, addr, source, timePenalty, now, dice).byIp
  {
    hide Inv, ClearNew, Delete, Placing.NewSlot, IsTerrible, Odds, Refs;
    var ip, id := addr.service.ip, Find(b, addr.service.ip).value;
    var c := Add(pl, b, addr, source, timePenalty, now, dice);
    AddKeeps(pl, b, addr, source, timePenalty, now, dice);
    FindSame(pl, b, ip);
    InvAt(pl, b, {}, {}, id);
    var penalty := if ip == source then 0 else timePenalty;
    var e := Refreshed(b.info[id], addr, penalty, now);
    var d := Touched(b, id, e);
    if Retry(e, addr, dice) {
      var t := pl.NewSlot(e.record.Service(), pl.NewBucket(e.record.Service(), source));
      UpdateEntry(pl, b, id, e, {}, {});
      if t in d.newTable {
        InvSlot(pl, d, {}, {}, t);
      }
      ClearNewOthers(d, t);
    }
    KnownIp(pl, c, id);
  }

  lemma FindSame(pl: Placing, b: Book, ip: NetAddr)
    requires Consistent(pl, b) && Find(b, ip).Some?
    ensures b.info[Find(b, ip).value].record.Ip() == ip
  {
  }

  lemma FindNone(pl: Placing, b: Book, ip: NetAddr)
    requires Consistent(pl, b) && Find(b, ip).None?
    ensures ip !in b.byIp
  {
  }

  // ----- Attempt_, Connected_, SetServices_ -----

  function Attempt(b: Book, s: Service, countFailure: bool, time: int, lastGood: int): Book {
    match FindService(b, s)
    case None => b
    case Some(id) =>
      if id !in b.info then b
      else
        var e := b.info[id].(lastTry := time);
        if countFailure && e.lastCountAttempt < lastGood
        then Touched(b, id, e.(lastCountAttempt := time, record := e.record.(attempts := e.record.attempts + 1)))
        else Touched(b, id, e)
  }

  function SetAddress(b: Book, id: int, addr: Address): Book {
    if id !in b.info then b
    else Touched(b, id, b.info[id].(record := b.info[id].record.(addr := addr)))
  }

  function Connected(b: Book, s: Service, time: int): Book {
    match FindService(b, s)
    case None => b
    case Some(id) =>
      if id in b.info && time - b.info[id].record.addr.time > 20 * 60
      then SetAddress(b, id, b.info[id].record.addr.(time := time)) else b
  }

  function SetServices(b: Book, s: Service, services: Services): Book {
    match FindService(b, s)
    case None => b
    case Some(id) => if id in b.info then SetAddress(b, id, b.info[id].record.addr.(services := services)) else b
  }

  lemma StatsOnlyKeep(pl: Placing, b: Book, s: Service, countFailure: bool, time: int, lastGood: int, services: Services)
    requires Consistent(pl, b) && time >= 0
    ensures Consistent(pl, Attempt(b, s, countFailure, time, lastGood))
    ensures Consistent(pl, Connected(b, s, time)) && Consistent(pl, SetServices(b, s, services))
  {
    hide Inv, Refs;
    var found := FindService(b, s);
    if found.Some? && found.value in b.info {
      var id := found.value;
      var e := b.info[id];
      InvAt(pl, b, {}, {}, id);
      UpdateEntry(pl, b, id, Attempt(b, s, countFailure, time, lastGood).info[id], {}, {});
      UpdateEntry(pl, b, id, e.(record := e.record.(addr := e.record.addr.(time := time))), {}, {});
      UpdateEntry(pl, b, id, e.(record := e.record.(addr := e.record.addr.(services := services))), {}, {});
    }
  }

  // ----- GetAddr_ -----

  /** The addresses of the entries worth handing out, in the order of `ids`. */
  function Worthy(info: map<int, Info>, ids: seq<int>, now: int): seq<Address> {
    if ids == [] then []
    else
      var last := ids[|ids| - 1];
      Worthy(info, ids[..|ids| - 1], now)
      + (if last in info && !IsTerrible(info[last], now) then [info[last].record.addr] else [])
  }

  lemma WorthyNone(info: map<int, Info>, now: int)
    ensures Worthy(info, [], now) == []
  {
  }

  lemma WorthyNext(info: map<int, Info>, ids: seq<int>, id: int, now: int)
    requires id in info
    ensures Worthy(info, ids + [id], now) ==
            Worthy(info, ids, now) + if IsTerrible(info[id], now) then [] else [info[id].record.addr]
  {
    assert (ids + [id])[..|ids|] == ids;
  }

  lemma SameSelf(a: map<int, Info>)
    ensures forall id :: id in a ==> SameEntry(a[id], a[id])
  {
  }

  /** Entries that stay the same twice stay the same. */
  lemma SameAgain(a: map<int, Info>, b: map<int, Info>, c: map<int, Info>)
    requires a.Keys == b.Keys == c.Keys
    requires forall id :: id in b ==> SameEntry(a[id], b[id])
    requires forall id :: id in c ==> SameEntry(b[id], c[id])
    ensures forall id :: id in c ==> SameEntry(a[id], c[id])
  {
  }

  lemma {:induction false} WorthySame(info: map<int, Info>, info': map<int, Info>, ids: seq<int>, now: int)
    requires forall id :: id in ids ==> id in info && id in info' && SameEntry(info[id], info'[id])
    ensures Worthy(info', ids, now) == Worthy(info, ids, now)
  {
    if ids != [] {
      WorthySame(info, info', ids[..|ids| - 1], now);
      assert ids[|ids| - 1] in ids;
    }
  }

  /** One draw: a swap at or after position `n` leaves what the first `n` ids yield. */
  lemma ShuffleSame(b: Book, n: nat, pos: nat, now: int)
    requires RandomOk(b.random, b.info) && n <= pos < |b.random|
    ensures Swappable(b, n, pos)
    ensures var c := SwapRandom(b, n, pos);
            && c.info.Keys == b.info.Keys && |c.random| == |b.random| && c.random[n] in c.info
            && (forall id :: id in c.info ==> SameEntry(b.info[id], c.info[id]))
            && Worthy(c.info, c.random[..n], now) == Worthy(b.info, b.random[..n], now)
  {
    hide RandomOk, SwapRandom, Worthy;
    SwapRandomSame(b, n, pos);
    WorthySame(b.info, SwapRandom(b, n, pos).info, b.random[..n], now);
  }

  lemma {:induction false} WorthySource(info: map<int, Info>, ids: seq<int>, now: int, k: nat) returns (i: nat)
    requires k < |Worthy(info, ids, now)|
    ensures i < |ids| && ids[i] in info && !IsTerrible(info[ids[i]], now)
    ensures info[ids[i]].record.addr == Worthy(info, ids, now)[k]
  {
    var rest := ids[..|ids| - 1];
    if k < |Worthy(info, rest, now)| {
      i := WorthySource(info, rest, now, k);
    } else {
      i := |ids| - 1;
    }
  }

  /** Some entry not considered terrible has this address. */
  ghost predicate Offers(info: map<int, Info>, addr: Address, now: int) {
    exists id :: id in info && info[id].record.addr == addr && !IsTerrible(info[id], now)
  }

  lemma WorthyOffers(info: map<int, Info>, ids: seq<int>, now: int, k: nat)
    requires k < |Worthy(info, ids, now)|
    ensures Offers(info, Worthy(info, ids, now)[k], now)
  {
    var i := WorthySource(info, ids, now, k);
    assert ids[i] in info;
  }

  /** Every entry worth handing out is there. */
  lemma {:induction false} WorthyComplete(info: map<int, Info>, ids: seq<int>, now: int, i: nat)
    requires i < |ids| && ids[i] in info && !IsTerrible(info[ids[i]], now)
    ensures info[ids[i]].record.addr in Worthy(info, ids, now)
  {
    hide IsTerrible;
    if i < |ids| - 1 {
      WorthyComplete(info, ids[..|ids| - 1], now, i);
    }
  }

  /** No address is handed out twice. */
  lemma {:induction false} WorthyDistinct(byIp: map<NetAddr, int>, info: map<int, Info>, ids: seq<int>, now: int, j: nat, k: nat)
    requires IpOk(byIp, info)
    requires forall m, n :: 0 <= m < n < |ids| ==> ids[m] != ids[n]
    requires j < k < |Worthy(info, ids, now)|
    ensures Worthy(info, ids, now)[j].service.ip != Worthy(info, ids, now)[k].service.ip
  {
    var rest := ids[..|ids| - 1];
    if k < |Worthy(info, rest, now)| {
      WorthyDistinct(byIp, info, rest, now, j, k);
    } else {
      var i := WorthySource(info, rest, now, j);
      assert ids[i] != ids[|ids| - 1];
      assert byIp[info[ids[i]].record.Ip()] == ids[i];
    }
  }

  // ----- every run -----

  datatype Op =
    | AddOp(addr: Address, source: NetAddr, timePenalty: int, now: int, dice: nat)
    | GoodOp(service: Service, time: int)
    | AttemptOp(service: Service, countFailure: bool, time: int, lastGood: int)
    | ConnectedOp(service: Service, time: int)
    | SetServicesOp(service: Service, services: Services)
    | ShuffleOp(i: nat, j: nat)

  predicate Legal(o: Op) {
    match o
    case GoodOp(_, time) => time > 0
    case AttemptOp(_, _, time, _) => time >= 0
    case ConnectedOp(_, time) => time >= 0
    case _ => true
  }

  function Apply(pl: Placing, b: Book, o: Op): Book {
    match o
    case AddOp(addr, source, timePenalty, now, dice) => Add(pl, b, addr, source, timePenalty, now, dice)
    case GoodOp(service, time) => Good(pl, b, service, time)
    case AttemptOp(service, countFailure, time, lastGood) => Attempt(b, service, countFailure, time, lastGood)
    case ConnectedOp(service, time) => Connected(b, service, time)
    case SetServicesOp(service, services) => SetServices(b, service, services)
    case ShuffleOp(i, j) => SwapRandom(b, i, j)
  }

  function ApplyAll(pl: Placing, b: Book, ops: seq<Op>): Book {
    if ops == [] then b else Apply(pl, ApplyAll(pl, b, ops[..|ops| - 1]), ops[|ops| - 1])
  }

  /** Every run of public operations, from empty tables, ends with consistent tables. */
  lemma {:induction false} EveryRunConsistent(pl: Placing, ops: seq<Op>)
    requires forall i :: 0 <= i < |ops| ==> Legal(ops[i])
    ensures Consistent(pl, ApplyAll(pl, EmptyBook, ops))
  {
    if ops == [] {
      var none: map<int, Info> := map[];
      assert TriedIds(none) == {} && NewIds(none) - {} == {};
    } else {
      var rest, o := ops[..|ops| - 1], ops[|ops| - 1];
      EveryRunConsistent(pl, rest);
      StepConsistent(pl, ApplyAll(pl, EmptyBook, rest), o);
    }
  }

  lemma StepConsistent(pl: Placing, b: Book, o: Op)
    requires Consistent(pl, b) && Legal(o)
    ensures Consistent(pl, Apply(pl, b, o))
  {
    hide Inv, Add, Good, Attempt, Connected, SetServices;
    match o
    case AddOp(addr, source, timePenalty, now, dice) => AddKeeps(pl, b, addr, source, timePenalty, now, dice);
    case GoodOp(service, time) => GoodKeeps(pl, b, service, time);
    case AttemptOp(service, countFailure, time, lastGood) => StatsOnlyKeep(pl, b, service, countFailure, time, lastGood, {});
    case ConnectedOp(service, time) => StatsOnlyKeep(pl, b, service, false, time, 0, {});
    case SetServicesOp(service, services) => StatsOnlyKeep(pl, b, service, false, 0, 0, services);
    case ShuffleOp(i, j) =>
      if i < |b.random| && j < |b.random| {
        SwapRandomKeeps(pl, b, i, j, {}, {});
      }
  }

  // ----- Check_ -----

  /** What the source's consistency check asks of one entry. */
  ghost predicate EntryChecks(b: Book, id: int, e: Info) {
    && (if e.inTried then e.record.lastSuccess != 0 && e.refCount == 0
        else 0 < e.refCount <= NEW_BUCKETS_PER_ADDRESS)
    && e.record.Ip() in b.byIp && b.byIp[e.record.Ip()] == id
    && 0 <= e.randomPos < |b.random| && b.random[e.randomPos] == id
    && e.lastTry >= 0 && e.record.lastSuccess >= 0
  }

  /** Each tried entry is crossed off once, in the slot it hashes to. */
  ghost predicate TriedChecks(pl: Placing, b: Book) {
    && (forall s :: s in b.triedTable ==>
          b.triedTable[s] in TriedIds(b.info) && s == pl.TriedSlot(b.info[b.triedTable[s]].record.Service()))
    && (forall s, t :: s in b.triedTable && t in b.triedTable && s != t ==> b.triedTable[s] != b.triedTable[t])
    && (forall id :: id in TriedIds(b.info) ==> id in b.triedTable.Values)
  }

  /** Each new entry is crossed off as often as it has references, in slots it hashes to. */
  ghost predicate NewChecks(pl: Placing, b: Book) {
    && (forall s :: s in b.newTable ==>
          b.newTable[s] in NewIds(b.info) && s == pl.NewSlot(b.info[b.newTable[s]].record.Service(), s.bucket))
    && (forall id :: id in NewIds(b.info) ==> |Refs(b.newTable, id)| == b.info[id].refCount)
  }

  /** The source's consistency check returns zero. */
  ghost predicate CheckPasses(pl: Placing, b: Book) {
    && |b.random| == b.nTried + b.nNew
    && (forall id :: id in b.info ==> EntryChecks(b, id, b.info[id]))
    && |TriedIds(b.info)| == b.nTried && |NewIds(b.info)| == b.nNew
    && TriedChecks(pl, b) && NewChecks(pl, b) && pl.key != 0
  }

  lemma EntryPasses(pl: Placing, b: Book, id: int)
    requires Consistent(pl, b) && id in b.info
    ensures EntryChecks(b, id, b.info[id])
  {
    InvAt(pl, b, {}, {}, id);
    hide TriedOk, NewOk, RefsOk, CountsOk, StatsOk, IdsOk, Refs;
  }

  lemma TriedPasses(pl: Placing, b: Book)
    requires TriedOk(pl, b.triedTable, b.info)
    ensures TriedChecks(pl, b)
  {
    hide Placing.TriedSlot;
    forall id | id in TriedIds(b.info)
      ensures id in b.triedTable.Values
    {
      assert b.triedTable[pl.TriedSlot(b.info[id].record.Service())] == id;
    }
  }

  lemma NewPasses(pl: Placing, b: Book)
    requires NewOk(pl, b.newTable, b.info) && RefsOk(b.newTable, b.info, {})
    ensures NewChecks(pl, b)
  {
    hide Placing.NewSlot, Refs;
  }

  lemma SizePasses(pl: Placing, b: Book)
    requires Consistent(pl, b)
    ensures |b.random| == b.nTried + b.nNew && |TriedIds(b.info)| == b.nTried && |NewIds(b.info)| == b.nNew
  {
    hide IdsOk, IpOk, TriedOk, NewOk, RefsOk, StatsOk;
    assert NewIds(b.info) - {} == NewIds(b.info);
    assert TriedIds(b.info) + NewIds(b.info) == b.info.Keys && TriedIds(b.info) !! NewIds(b.info);
  }

  /** On consistent tables the check can only object to a null key. */
  lemma CheckIs(pl: Placing, b: Book)
    requires Consistent(pl, b)
    ensures CheckPasses(pl, b) <==> pl.key != 0
  {
    SizePasses(pl, b);
    TriedPasses(pl, b);
    NewPasses(pl, b);
    hide Inv, EntryChecks, TriedChecks, NewChecks, TriedIds, NewIds;
    forall id | id in b.info
      ensures EntryChecks(b, id, b.info[id])
    {
      EntryPasses(pl, b, id);
    }
  }

  /** The source's own consistency check passes after every run, given a key that is not null. */
  lemma EveryRunPasses(pl: Placing, ops: seq<Op>)
    requires forall i :: 0 <= i < |ops| ==> Legal(ops[i])
    ensures CheckPasses(pl, ApplyAll(pl, EmptyBook, ops)) <==> pl.key != 0
  {
    hide Inv, ApplyAll, CheckPasses;
    EveryRunConsistent(pl, ops);
    CheckIs(pl, ApplyAll(pl, EmptyBook, ops));
  }
}
