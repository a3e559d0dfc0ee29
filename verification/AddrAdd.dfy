/**
 What hearing of an address does (src/addrman.cpp, Add_), told from the tables before and
 after: the fields of the entry, its slots, the occupant it displaces, and that nothing
 else changes.  The updates of statistics are told in the same way.
 */
module AddrAdd {
  import opened Nat
  import opened Prelude
  import opened AddrBook
  import Ops = AddrOps

  // ----- a slot changes hands -----

  /** What becomes of the holder of a slot that is cleared: it loses a reference, and goes with the last. */
  lemma ClearedHolder(pl: Placing, b: Book, s: Slot, loose: set<int>, out: set<int>)
    requires Inv(pl, b, loose, out) && s in b.newTable
    ensures var o, c := b.newTable[s], ClearNew(b, s);
            && o in b.info && c.info.Keys <= b.info.Keys
            && if b.info[o].refCount == 1 then o !in c.info
               else o in c.info && Ops.SameEntry(b.info[o].(refCount := b.info[o].refCount - 1), c.info[o])
  {
    hide Inv, Delete;
    InvSlot(pl, b, loose, out, s);
    UnlinkKeeps(pl, b, s, loose, out);
    var o := b.newTable[s];
    var c := Unlink(b, s);
    InvRandom(pl, c, loose + {o}, out);
    hide RandomOk;
    DeleteRandom(c, o);
  }

  /** The slot `t` goes to `id` if `taken`; nothing but `id` and the former holder is affected. */
  ghost predicate OnlySlot(b: Book, c: Book, t: Slot, id: int, taken: bool) {
    && c.triedTable == b.triedTable && c.nTried == b.nTried
    && c.newTable == (if taken then b.newTable[t := id] else b.newTable)
    && (forall k :: k in b.info && k != id && !(taken && t in b.newTable && k == b.newTable[t]) ==>
          k in c.info && Ops.SameEntry(b.info[k], c.info[k]))
    && (forall k :: k in c.info && k != id ==> k in b.info)
    && (taken && t in b.newTable ==>
          var o := b.newTable[t];
          && o in b.info
          && if b.info[o].refCount == 1 then o !in c.info
             else o in c.info && Ops.SameEntry(b.info[o].(refCount := b.info[o].refCount - 1), c.info[o]))
  }

  /** When the slot chosen for an entry is its to take. */
  ghost predicate Takes(b: Book, t: Slot, id: int, refs: int, now: int) {
    t in b.newTable ==>
      && b.newTable[t] != id && b.newTable[t] in b.info
      && (Ops.IsTerrible(b.info[b.newTable[t]], now) || (refs == 0 && b.info[b.newTable[t]].refCount > 1))
  }

  /** The second half of Add_: the entry gets the slot, or nothing changes, or it goes for want of any. */
  lemma PlaceIs(pl: Placing, b: Book, id: int, source: NetAddr, now: int)
    requires Inv(pl, b, {id}, {}) && id in b.info && !b.info[id].inTried
    ensures var e, c := b.info[id], Ops.Place(pl, b, id, source, now);
            var t := pl.NewSlot(e.record.Service(), pl.NewBucket(e.record.Service(), source));
            var taken := Takes(b, t, id, e.refCount, now);
            && OnlySlot(b, c, t, id, taken)
            && (taken ==> id in c.info && Ops.SameEntry(e.(refCount := e.refCount + 1), c.info[id]))
            && (!taken && e.refCount > 0 ==> c == b)
            && (!taken && e.refCount == 0 ==> id !in c.info)
  {
    hide Inv, ClearNew, Delete, Placing.NewSlot, Placing.NewBucket, Ops.IsTerrible, OnlySlot, Ops.SameEntry;
    var e := b.info[id];
    var t := pl.NewSlot(e.record.Service(), pl.NewBucket(e.record.Service(), source));
    InvAt(pl, b, {id}, {}, id);
    if t in b.newTable {
      InvSlot(pl, b, {id}, {}, t);
    }
    if t in b.newTable && b.newTable[t] == id {
      NothingMoves(b, t, id);
    } else if Ops.CanTake(b, t, id, now) {
      TakenSlot(pl, b, t, id);
    } else if e.refCount == 0 {
      GoneEntry(pl, b, t, id);
    } else {
      NothingMoves(b, t, id);
    }
  }

  lemma NothingMoves(b: Book, t: Slot, id: int)
    ensures OnlySlot(b, b, t, id, false)
  {
  }

  lemma TakenSlot(pl: Placing, b: Book, t: Slot, id: int)
    requires Inv(pl, b, {id}, {}) && id in b.info && (t in b.newTable ==> b.newTable[t] != id)
    ensures var c := Link(ClearNew(b, t), t, id);
            && OnlySlot(b, c, t, id, true) && id in c.info
            && Ops.SameEntry(b.info[id].(refCount := b.info[id].refCount + 1), c.info[id])
  {
    hide Inv, ClearNew;
    if t in b.newTable {
      InvSlot(pl, b, {id}, {}, t);
      ClearedHolder(pl, b, t, {id}, {});
    } else {
      Untouched(b, t);
    }
    ClearNewOthers(b, t);
    assert (b.newTable - {t})[t := id] == b.newTable[t := id];
  }

  lemma Untouched(b: Book, t: Slot)
    requires t !in b.newTable
    ensures ClearNew(b, t) == b
  {
  }

  lemma GoneEntry(pl: Placing, b: Book, t: Slot, id: int)
    requires Inv(pl, b, {id}, {}) && id in b.info
    ensures var c := Delete(b, id); OnlySlot(b, c, t, id, false) && id !in c.info
  {
    hide Inv, RandomOk, Delete, Ops.SameEntry;
    InvRandom(pl, b, {id}, {});
    Ops.DeleteExact(b, id);
  }

  // ----- a known address -----

  /** The time kept for an address that is heard of again. */
  function KeptTime(known: int, heard: int, penalty: int, now: int): int {
    var interval := if now - heard < 24 * 60 * 60 then 60 * 60 else 24 * 60 * 60;
    if heard != 0 && (known == 0 || known < heard - interval - penalty) then Max(0, heard - penalty) else known
  }

  lemma {:induction false} OddsArePowers(n: nat)
    ensures Ops.Odds(n) == Pow2(n)
  {
    if n > 0 {
      OddsArePowers(n - 1);
    }
  }

  /**
   Hearing of a known address: the service bits are joined, the time is renewed when the
   stored one is missing or old, and the entry gets one more slot exactly when the news is
   newer, the entry is untried with fewer than eight references, the draw from 2^references
   is zero, and the slot of this source is free or its holder terrible.
   */
  lemma AddKnown(pl: Placing, b: Book, addr: Address, source: NetAddr, timePenalty: int, now: int, dice: nat, id: int)
    requires Consistent(pl, b) && id in b.info && b.info[id].record.Ip() == addr.service.ip
    ensures var c := Ops.Add(pl, b, addr, source, timePenalty, now, dice);
            var e := b.info[id];
            var known, penalty := e.record.addr, if addr.service.ip == source then 0 else timePenalty;
            var time := KeptTime(known.time, addr.time, penalty, now);
            var t := pl.NewSlot(known.service, pl.NewBucket(known.service, source));
            var more := && addr.time != 0 && (time == 0 || addr.time > time) && !e.inTried
                        && 0 < e.refCount < 8 && dice % Pow2(e.refCount) == 0
                        && (t in b.newTable ==> b.newTable[t] != id && b.newTable[t] in b.info
                                                && Ops.IsTerrible(b.info[b.newTable[t]], now));
            && id in c.info
            && Ops.SameEntry(e.(record := e.record.(addr := Address(known.service, time, known.services + addr.services)),
                                refCount := e.refCount + if more then 1 else 0), c.info[id])
            && OnlySlot(b, c, t, id, more)
  {
    hide Inv, Ops.Place, Ops.Odds, Placing.NewSlot, Placing.NewBucket, Ops.IsTerrible, OnlySlot, Refs;
    FoundByIp(pl, b, id);
    InvAt(pl, b, {}, {}, id);
    var e := b.info[id];
    var penalty := if addr.service.ip == source then 0 else timePenalty;
    var f := Ops.Refreshed(e, addr, penalty, now);
    var d := Ops.Touched(b, id, f);
    var t := pl.NewSlot(f.record.Service(), pl.NewBucket(f.record.Service(), source));
    if e.refCount >= 0 {
      OddsArePowers(e.refCount);
    }
    if Ops.Retry(f, addr, dice) {
      UpdateEntry(pl, b, id, f, {}, {});
      Loosen(pl, d, id, {}, {});
      assert {} + {id} == {id};
      PlaceIs(pl, d, id, source, now);
      TouchedSlot(b, Ops.Place(pl, d, id, source, now), t, id, f, Takes(d, t, id, f.refCount, now));
      TakesSame(b, t, id, f, now);
    } else {
      NothingMoves(d, t, id);
      TouchedSlot(b, d, t, id, f, false);
    }
  }

  lemma FoundByIp(pl: Placing, b: Book, id: int)
    requires Consistent(pl, b) && id in b.info
    ensures Find(b, b.info[id].record.Ip()) == Some(id)
  {
    hide RandomOk, TriedOk, NewOk, RefsOk, CountsOk, StatsOk;
  }

  /** A change of the entry's own fields is no change to the others. */
  lemma TouchedSlot(b: Book, c: Book, t: Slot, id: int, f: Info, taken: bool)
    requires id in b.info && OnlySlot(Ops.Touched(b, id, f), c, t, id, taken) && (taken && t in b.newTable ==> b.newTable[t] != id)
    ensures OnlySlot(b, c, t, id, taken)
  {
    hide Ops.SameEntry;
  }

  lemma TakesSame(b: Book, t: Slot, id: int, f: Info, now: int)
    requires id in b.info
    ensures Takes(Ops.Touched(b, id, f), t, id, f.refCount, now) <==> Takes(b, t, id, f.refCount, now)
  {
    hide Ops.IsTerrible;
  }

  // ----- an unknown address -----

  /**
   Hearing of a new address: it is entered with the reduced time, the given source and clean
   statistics, exactly when the slot of this source is free, or its holder terrible or
   referenced elsewhere; otherwise nothing changes but the running number.
   */
  lemma AddUnknown(pl: Placing, b: Book, addr: Address, source: NetAddr, timePenalty: int, now: int, dice: nat)
    requires Consistent(pl, b) && addr.service.ip !in b.byIp
    ensures var c := Ops.Add(pl, b, addr, source, timePenalty, now, dice);
            var penalty := if addr.service.ip == source then 0 else timePenalty;
            var t := pl.NewSlot(addr.service, pl.NewBucket(addr.service, source));
            var taken := t in b.newTable ==>
                           && b.newTable[t] in b.info
                           && (Ops.IsTerrible(b.info[b.newTable[t]], now) || b.info[b.newTable[t]].refCount > 1);
            var entry := Info(Record(Address(addr.service, Max(0, addr.time - penalty), addr.services), source, 0, 0), 0, 0, 1, false, 0);
            && OnlySlot(b, c, t, b.idCount, taken)
            && (taken <==> b.idCount in c.info) && (taken ==> Ops.SameEntry(entry, c.info[b.idCount]))
  {
    hide Inv, Ops.Place, Placing.NewSlot, Placing.NewBucket, Ops.IsTerrible, OnlySlot;
    var penalty := if addr.service.ip == source then 0 else timePenalty;
    var first := addr.(time := Max(0, addr.time - penalty));
    var id, d := b.idCount, Create(b, first, source);
    var none: set<int> := {};
    assert {id} - {id} == none;
    Ops.FreshId(pl, b);
    CreateKeeps(pl, b, first, source);
    CountIn(pl, d, id, {id}, {id});
    PlaceIs(pl, d.(nNew := d.nNew + 1), id, source, now);
    var t := pl.NewSlot(addr.service, pl.NewBucket(addr.service, source));
    if t in b.newTable {
      InvSlot(pl, b, {}, {}, t);
    }
    assert Takes(d, t, id, 0, now) <==> Takes(b, t, id, 0, now);
    CreatedSlot(b, Ops.Add(pl, b, addr, source, timePenalty, now, dice), first, source, t, Takes(d, t, id, 0, now));
  }

  lemma CreatedSlot(b: Book, c: Book, addr: Address, source: NetAddr, t: Slot, taken: bool)
    requires b.idCount !in b.info && (taken && t in b.newTable ==> b.newTable[t] != b.idCount)
    requires var d := Create(b, addr, source); OnlySlot(d.(nNew := d.nNew + 1), c, t, b.idCount, taken)
    ensures OnlySlot(b, c, t, b.idCount, taken)
  {
    hide Ops.SameEntry;
  }

  // ----- a good connection -----

  /**
   Marking an address good: without an entry for exactly this address and port nothing changes;
   otherwise that entry gets the time as last success and last try and no failed attempts,
   and if it was new it takes its tried slot, whose holder falls back to one new slot.
   Apart from these two and the entry displaced from that slot nothing changes.
   */
  lemma GoodIs(pl: Placing, b: Book, s: Service, time: int)
    requires Consistent(pl, b) && time > 0
    ensures var c := Ops.Good(pl, b, s, time);
            && ((forall id :: id in b.info ==> b.info[id].record.Service() != s) ==> c == b)
            && forall id :: id in b.info && b.info[id].record.Service() == s ==> Promoted(pl, b, c, id, time)
  {
    hide Inv, Ops.FindService, Promoted, Ops.MakeTried;
    ServiceKnown(b, s);
    if Ops.FindService(b, s).Some? {
      ServiceFound(pl, b, s, Ops.FindService(b, s).value);
    }
    forall id | id in b.info && b.info[id].record.Service() == s
      ensures Promoted(pl, b, Ops.Good(pl, b, s, time), id, time)
    {
      ServiceFound(pl, b, s, id);
      PromotedIs(pl, b, s, id, time);
    }
  }

  /** What becomes of the entry `id` and of the others. */
  ghost predicate Promoted(pl: Placing, b: Book, c: Book, id: int, time: int)
    requires id in b.info
  {
    var e := b.info[id];
    var slot := pl.TriedSlot(e.record.Service());
    && id in c.info
    && Ops.SameEntry(e.(record := e.record.(lastSuccess := time, attempts := 0), lastTry := time, inTried := true, refCount := 0),
                     c.info[id])
    && (e.inTried ==> c == b.(info := b.info[id := c.info[id]]))
    && (!e.inTried ==> c.triedTable == b.triedTable[slot := id])
    && (!e.inTried && slot !in b.triedTable ==>
          forall k :: k in b.info && k != id ==> k in c.info && Ops.SameEntry(b.info[k], c.info[k]))
    && (!e.inTried && slot in b.triedTable ==>
          var out := b.triedTable[slot];
          && out in b.info && out in c.info
          && var t := pl.NewSlot(b.info[out].record.Service(), pl.NewBucket(b.info[out].record.Service(), b.info[out].record.source));
             && Ops.SameEntry(b.info[out].(inTried := false, refCount := 1), c.info[out]) && t in c.newTable && c.newTable[t] == out
             && forall k :: k in b.info && k != id && k != out && (t in b.newTable ==> k != b.newTable[t]) ==>
                  k in c.info && Ops.SameEntry(b.info[k], c.info[k]))
  }

  lemma PromotedIs(pl: Placing, b: Book, s: Service, id: int, time: int)
    requires Consistent(pl, b) && time > 0 && id in b.info && Ops.FindService(b, s) == Some(id)
    ensures Promoted(pl, b, Ops.Good(pl, b, s, time), id, time)
  {
    hide Inv, Ops.FindService, Ops.MakeTried, Placing.NewSlot, Placing.NewBucket, Placing.TriedSlot;
    var e := b.info[id];
    var f := e.(record := e.record.(lastSuccess := time, attempts := 0), lastTry := time);
    var d := Ops.Touched(b, id, f);
    InvAt(pl, b, {}, {}, id);
    if !e.inTried {
      UpdateEntry(pl, b, id, f, {}, {});
      Ops.MakeTriedKeeps(pl, d, id);
      Ops.MakeTriedMoves(pl, d, id);
      var slot := pl.TriedSlot(e.record.Service());
      if slot in b.triedTable {
        Ops.TriedEntry(pl, b, {}, {}, slot);
      }
    }
  }

  // ----- statistics -----

  /** The entry of exactly this address and port is changed as told, and no other entry or index is. */
  ghost predicate OnlyEntry(b: Book, c: Book, s: Service, changed: (Info, Info) -> bool) {
    && c == b.(info := c.info) && c.info.Keys == b.info.Keys
    && forall id :: id in b.info ==> if b.info[id].record.Service() == s then changed(b.info[id], c.info[id]) else c.info[id] == b.info[id]
  }

  lemma ServiceFound(pl: Placing, b: Book, s: Service, id: int)
    requires Consistent(pl, b) && id in b.info
    ensures Ops.FindService(b, s) == Some(id) <==> b.info[id].record.Service() == s
  {
    hide RandomOk, TriedOk, NewOk, RefsOk, CountsOk, StatsOk;
  }

  lemma ServiceKnown(b: Book, s: Service)
    ensures Ops.FindService(b, s).Some? ==> Ops.FindService(b, s).value in b.info
  {
  }

  /** An attempt sets the time of the last try, and counts as a failure at most once after a success elsewhere. */
  lemma AttemptIs(pl: Placing, b: Book, s: Service, countFailure: bool, time: int, lastGood: int)
    requires Consistent(pl, b)
    ensures OnlyEntry(b, Ops.Attempt(b, s, countFailure, time, lastGood), s, (e: Info, f: Info) =>
              var counts := countFailure && e.lastCountAttempt < lastGood;
              && f.lastTry == time && f.lastCountAttempt == (if counts then time else e.lastCountAttempt)
              && f.record.attempts == e.record.attempts + (if counts then 1 else 0)
              && f.record.addr == e.record.addr && f.record.source == e.record.source
              && f.record.lastSuccess == e.record.lastSuccess
              && f.refCount == e.refCount && f.inTried == e.inTried && f.randomPos == e.randomPos)
  {
    hide Inv, Ops.FindService;
    ServiceKnown(b, s);
    forall id | id in b.info
      ensures Ops.FindService(b, s) == Some(id) <==> b.info[id].record.Service() == s
    {
      ServiceFound(pl, b, s, id);
    }
  }

  /** Being connected renews a time that is more than twenty minutes old. */
  lemma ConnectedIs(pl: Placing, b: Book, s: Service, time: int)
    requires Consistent(pl, b)
    ensures OnlyEntry(b, Ops.Connected(b, s, time), s, (e: Info, f: Info) =>
              && f.record.addr.time == (if time - e.record.addr.time > 20 * 60 then time else e.record.addr.time)
              && f == e.(record := e.record.(addr := e.record.addr.(time := f.record.addr.time))))
  {
    hide Inv, Ops.FindService;
    ServiceKnown(b, s);
    forall id | id in b.info
      ensures Ops.FindService(b, s) == Some(id) <==> b.info[id].record.Service() == s
    {
      ServiceFound(pl, b, s, id);
    }
  }

  lemma SetServicesIs(pl: Placing, b: Book, s: Service, services: Services)
    requires Consistent(pl, b)
    ensures OnlyEntry(b, Ops.SetServices(b, s, services), s, (e: Info, f: Info) =>
              && f.record.addr.services == services
              && f == e.(record := e.record.(addr := e.record.addr.(services := services))))
  {
    hide Inv, Ops.FindService;
    ServiceKnown(b, s);
    forall id | id in b.info
      ensures Ops.FindService(b, s) == Some(id) <==> b.info[id].record.Service() == s
    {
      ServiceFound(pl, b, s, id);
    }
  }
}
