/**
 Compact block relay (src/blockencodings.h, src/blockencodings.cpp): short transaction ids,
 reconstruction from a pool, and differentially coded request indexes.  Short ids, witness
 hashes and the null test are functions of a transaction; a null reference is None.
 */
module BlockEncodings {
  import opened Prelude

  const MAX_BLOCK_WEIGHT := 4_000_000
  const MIN_SERIALIZABLE_TRANSACTION_WEIGHT := 40

  /** A transaction sent in full, at a distance from the one before. */
  datatype Prefilled<Tx> = Prefilled(index: nat, tx: Tx)

  /** What the block check says of a list of transactions. */
  datatype Verdict = Verdict(valid: bool, corruptionPossible: bool)

  datatype ShortBlock<Tx> = ShortBlock(shorttxids: seq<nat>, prefilledtxn: seq<Prefilled<Tx>>)

  /** The results of the source; the last stands for a call that does not return. */
  datatype ReadStatus = OK | INVALID | FAILED | CHECKBLOCK_FAILED | ENDLESS

  // ----- slots -----

  /** The unfilled slots among the first n, in order. */
  function Free<Tx>(avail: seq<Option<Tx>>, n: nat): (f: seq<nat>)
    requires n <= |avail|
    ensures |f| <= n
    ensures forall i :: 0 <= i < |f| ==> f[i] < n && avail[f[i]] == None
    ensures forall i, j :: 0 <= i < j < |f| ==> f[i] < f[j]
  {
    if n == 0 then [] else if avail[n - 1] == None then Free(avail, n - 1) + [n - 1] else Free(avail, n - 1)
  }

  /** Filling a slot takes it off the list. */
  lemma {:induction false} FreeFill<Tx>(avail: seq<Option<Tx>>, n: nat, p: nat, tx: Tx)
    requires p < n <= |avail|
    ensures avail[p] == None ==> |Free(avail[p := Some(tx)], n)| == |Free(avail, n)| - 1
    ensures avail[p] != None ==> |Free(avail[p := Some(tx)], n)| == |Free(avail, n)|
  {
    if p == n - 1 {
      FreeSame(avail, avail[p := Some(tx)], p);
    } else {
      FreeFill(avail, n - 1, p, tx);
    }
  }

  lemma {:induction false} FreeSame<Tx>(a: seq<Option<Tx>>, b: seq<Option<Tx>>, n: nat)
    requires n <= |a| == |b| && forall i :: 0 <= i < n ==> (a[i] == None <==> b[i] == None)
    ensures Free(a, n) == Free(b, n)
  {
    if n > 0 {
      FreeSame(a, b, n - 1);
    }
  }

  /** An unfilled slot stands in the list at the place given by the number before it. */
  lemma {:induction false} FreeRank<Tx>(avail: seq<Option<Tx>>, n: nat, p: nat)
    requires p < n <= |avail| && avail[p] == None
    ensures |Free(avail, p)| < |Free(avail, n)| && Free(avail, n)[|Free(avail, p)|] == p
  {
    if p < n - 1 {
      FreeRank(avail, n - 1, p);
    }
  }

  lemma {:induction false} FreePrefix<Tx>(avail: seq<Option<Tx>>, m: nat, n: nat)
    requires m <= n <= |avail|
    ensures Free(avail, m) <= Free(avail, n)
  {
    if m < n {
      FreePrefix(avail, m, n - 1);
    }
  }

  lemma {:induction false} FreeAll<Tx>(avail: seq<Option<Tx>>, n: nat)
    requires n <= |avail| && forall i :: 0 <= i < n ==> avail[i] == None
    ensures |Free(avail, n)| == n
  {
    if n > 0 {
      FreeAll(avail, n - 1);
    }
  }

  // ----- prefilled transactions -----

  /** The slot of the i-th prefilled transaction. */
  function Position<Tx>(pre: seq<Prefilled<Tx>>, i: nat): (p: nat)
    requires i < |pre|
    ensures p >= i
  {
    if i == 0 then pre[0].index else Position(pre, i - 1) + pre[i].index + 1
  }

  predicate PrefilledOk<Tx>(pre: seq<Prefilled<Tx>>, shorts: nat, isNull: Tx -> bool) {
    forall i :: 0 <= i < |pre| ==> !isNull(pre[i].tx) && Position(pre, i) <= 65535 && Position(pre, i) <= shorts + i
  }

  /** Each prefilled transaction is in its slot and all other slots are empty. */
  ghost predicate Placed<Tx>(pre: seq<Prefilled<Tx>>, n: nat, avail: seq<Option<Tx>>) {
    && n <= |pre|
    && (forall i :: 0 <= i < n ==> Position(pre, i) < |avail| && avail[Position(pre, i)] == Some(pre[i].tx))
    && (forall p :: 0 <= p < |avail| && avail[p] != None ==> exists i :: 0 <= i < n && Position(pre, i) == p)
  }

  lemma {:induction false} PositionsRise<Tx>(pre: seq<Prefilled<Tx>>, i: nat, j: nat)
    requires i < j < |pre|
    ensures Position(pre, i) < Position(pre, j)
  {
    if i < j - 1 {
      PositionsRise(pre, i, j - 1);
    }
  }

  /** Accepts exactly the lists that leave a short id for every other slot. */
  method PlacePrefilled<Tx>(pre: seq<Prefilled<Tx>>, shorts: nat, isNull: Tx -> bool)
    returns (ok: bool, avail: seq<Option<Tx>>)
    ensures ok <==> PrefilledOk(pre, shorts, isNull)
    ensures |avail| == shorts + |pre| && (ok ==> Placed(pre, |pre|, avail) && |Free(avail, |avail|)| == shorts)
  {
    hide Position, Free, Placed;
    avail := seq(shorts + |pre|, _ => None);
    FreeAll(avail, |avail|);
    NonePlaced(pre, avail);
    var last := -1;
    for i := 0 to |pre|
      invariant |avail| == shorts + |pre| && last == if i == 0 then -1 else Position(pre, i - 1)
      invariant forall j :: 0 <= j < i ==> !isNull(pre[j].tx) && Position(pre, j) <= 65535 && Position(pre, j) <= shorts + j
      invariant Placed(pre, i, avail) && |Free(avail, |avail|)| == |avail| - i
    {
      if isNull(pre[i].tx) {
        return false, avail;
      }
      PositionNext(pre, i);
      last := last + pre[i].index + 1;
      if last > 65535 || last > shorts + i {
        return false, avail;
      }
      PlaceNext(pre, i, avail);
      avail := avail[last := Some(pre[i].tx)];
    }
    ok := true;
  }

  lemma PositionNext<Tx>(pre: seq<Prefilled<Tx>>, i: nat)
    requires i < |pre|
    ensures Position(pre, i) == (if i == 0 then -1 else Position(pre, i - 1)) + pre[i].index + 1
  {
  }

  lemma NonePlaced<Tx>(pre: seq<Prefilled<Tx>>, avail: seq<Option<Tx>>)
    requires forall i :: 0 <= i < |avail| ==> avail[i] == None
    ensures Placed(pre, 0, avail)
  {
  }

  lemma PlaceNext<Tx>(pre: seq<Prefilled<Tx>>, i: nat, avail: seq<Option<Tx>>)
    requires i < |pre| && Placed(pre, i, avail) && Position(pre, i) < |avail|
    ensures avail[Position(pre, i)] == None
    ensures var b := avail[Position(pre, i) := Some(pre[i].tx)];
            Placed(pre, i + 1, b) && |Free(b, |b|)| == |Free(avail, |avail|)| - 1
  {
    hide Position, Free;
    var p := Position(pre, i);
    forall j | 0 <= j < i
      ensures Position(pre, j) < p
    {
      PositionsRise(pre, j, i);
    }
    FreeFill(avail, |avail|, p, pre[i].tx);
  }

  // ----- short ids -----

  /** A slot number as it is stored. */
  function Low16(p: nat): (r: nat)
    ensures r <= p && r < 65536 && (r == p <==> p < 65536)
  {
    p % 65536
  }

  /** The i-th short id belongs to the i-th unfilled slot, as far as 16 bits can say. */
  ghost predicate Slotted(m: map<nat, nat>, shorts: seq<nat>, free: seq<nat>) {
    && |free| == |shorts| && (forall i :: 0 <= i < |shorts| ==> shorts[i] in m && m[shorts[i]] == Low16(free[i]))
    && (forall k :: k in m ==> k in shorts)
  }

  /** The first n short ids: mapped as they should be unless two of them are equal. */
  ghost predicate SlottedTo(m: map<nat, nat>, shorts: seq<nat>, free: seq<nat>, n: nat) {
    && n <= |shorts| == |free| && |m| <= n && (forall k :: k in m ==> k in shorts[..n])
    && (|m| == n ==> forall j :: 0 <= j < n ==> shorts[j] in m && m[shorts[j]] == Low16(free[j]))
    && (|m| == n <==> Separate(shorts[..n]))
  }

  /** No short id occurs twice. */
  predicate Separate(shorts: seq<nat>) {
    forall i, j :: 0 <= i < j < |shorts| ==> shorts[i] != shorts[j]
  }

  /** Entering the short ids one by one never makes a bucket too long. */
  predicate Roomy(shorts: seq<nat>, crowded: (nat, seq<nat>) -> bool) {
    forall i :: 0 < i <= |shorts| ==> !crowded(|shorts|, shorts[..i])
  }

  lemma SlotNext(m: map<nat, nat>, shorts: seq<nat>, free: seq<nat>, n: nat)
    requires SlottedTo(m, shorts, free, n) && n < |shorts|
    ensures SlottedTo(m[shorts[n] := Low16(free[n])], shorts, free, n + 1)
  {
    hide Low16, Separate;
    var x := shorts[n];
    MapGrows(m, x, Low16(free[n]));
    assert shorts[..n + 1] == shorts[..n] + [x];
    SeparateNext(shorts[..n], x);
    if x !in m && |m| == n {
      forall j | 0 <= j < n
        ensures shorts[j] != x
      {
        assert shorts[j] in m;
      }
      assert x !in shorts[..n];
    } else if x in m && |m| == n {
      assert x in shorts[..n];
    }
  }

  lemma SeparateNext(s: seq<nat>, x: nat)
    ensures Separate(s + [x]) <==> Separate(s) && x !in s
  {
    var r := s + [x];
    if Separate(r) {
      forall i | 0 <= i < |s|
        ensures s[i] != x
      {
        assert r[i] != r[|s|];
      }
      forall i, j | 0 <= i < j < |s|
        ensures s[i] != s[j]
      {
        assert r[i] != r[j];
      }
    }
  }

  lemma MapGrows(m: map<nat, nat>, x: nat, v: nat)
    ensures |m[x := v]| == |m| + if x in m then 0 else 1
  {
    var r := m[x := v];
    assert r.Keys == m.Keys + {x};
    assert |m| == |m.Keys| && |r| == |r.Keys|;
  }

  lemma SlotEnd(m: map<nat, nat>, shorts: seq<nat>, free: seq<nat>)
    requires SlottedTo(m, shorts, free, |shorts|)
    ensures |m| == |shorts| ==> Slotted(m, shorts, free)
    ensures |m| == |shorts| <==> Separate(shorts)
  {
    hide Separate;
    assert shorts[..|shorts|] == shorts;
  }

  /**
   Slot numbers and the offset are kept in 16 bits.  `crowded` tells of a number of short ids
   and the first few of them whether the bucket of the last is too long.
   */
  method MapSlots<Tx>(avail: seq<Option<Tx>>, shorts: seq<nat>, crowded: (nat, seq<nat>) -> bool)
    returns (status: ReadStatus, m: map<nat, nat>)
    requires |Free(avail, |avail|)| == |shorts| && (|avail| - |shorts| < 65536 <==> !Packed(avail))
    ensures status == OK || status == FAILED || status == ENDLESS
    ensures status == ENDLESS <==> Packed(avail) && shorts != []
    ensures status == OK <==> !(Packed(avail) && shorts != []) && Separate(shorts) && Roomy(shorts, crowded)
    ensures status == OK ==> Slotted(m, shorts, Free(avail, |avail|))
  {
    hide Free, SlottedTo, Slotted, Low16, Packed, Separate;
    m := map[];
    var offset: nat := 0;
    ghost var free := Free(avail, |avail|);
    NoneSlotted(avail, shorts, free);
    for i := 0 to |shorts|
      invariant i + offset <= |avail| && |Free(avail, i + offset)| == i && SlottedTo(m, shorts, free, i)
      invariant i > 0 ==> !Packed(avail)
      invariant i == 0 ==> offset == 0
      invariant forall k :: 0 < k <= i ==> !crowded(|shorts|, shorts[..k])
    {
      var found;
      found, offset := NextFree(avail, i, offset);
      if !found {
        return ENDLESS, m;
      }
      FreeRank(avail, |avail|, i + offset);
      SlotNext(m, shorts, free, i);
      m := m[shorts[i] := Low16(i + offset)];
      if crowded(|shorts|, shorts[..i + 1]) {
        return FAILED, m;
      }
    }
    SlotEnd(m, shorts, free);
    status := if |m| == |shorts| then OK else FAILED;
  }

  lemma NoneSlotted<Tx>(avail: seq<Option<Tx>>, shorts: seq<nat>, free: seq<nat>)
    requires |shorts| == |free|
    ensures SlottedTo(map[], shorts, free, 0) && |Free(avail, 0)| == 0
  {
  }

  /** Every slot that a 16-bit offset can reach is filled. */
  ghost predicate Packed<Tx>(avail: seq<Option<Tx>>) {
    |avail| >= 65536 && forall p :: 0 <= p < 65536 ==> avail[p] != None
  }

  /**
   Steps over filled slots; an unfilled one is left as long as short ids are.  An offset that
   comes round to where it started would go round for ever.
   */
  method NextFree<Tx>(avail: seq<Option<Tx>>, i: nat, start: nat) returns (found: bool, offset: nat)
    requires i + start <= |avail| && |Free(avail, i + start)| == i < |Free(avail, |avail|)|
    requires |avail| - |Free(avail, |avail|)| < 65536 <==> !Packed(avail)
    requires Packed(avail) ==> i == 0 && start == 0
    ensures found <==> !Packed(avail)
    ensures found ==>
              && i + offset < |avail| && avail[i + offset] == None && |Free(avail, i + offset)| == i
              && |Free(avail, i + offset + 1)| == i + 1
  {
    offset := start;
    FreeBelow(avail, i + start);
    while avail[i + offset] != None
      invariant start <= offset && i + offset < |avail| && |Free(avail, i + offset)| == i
      invariant Packed(avail) ==> offset < 65536
      decreases |avail| - offset
    {
      TakenBelow(avail, i + offset + 1, |avail|);
      FreeBelow(avail, i + offset + 1);
      offset := (offset + 1) % 65536;
      if offset == start {
        return false, offset;
      }
    }
    found := true;
  }

  /** With fewer than all unfilled slots below n, there is one from n on. */
  lemma FreeBelow<Tx>(avail: seq<Option<Tx>>, n: nat)
    requires n <= |avail|
    ensures |Free(avail, n)| < |Free(avail, |avail|)| ==> n < |avail|
  {
  }

  /** Filled slots among the first m are filled slots among the first n. */
  lemma {:induction false} TakenBelow<Tx>(avail: seq<Option<Tx>>, m: nat, n: nat)
    requires m <= n <= |avail|
    ensures m - |Free(avail, m)| <= n - |Free(avail, n)|
  {
    if m < n {
      TakenBelow(avail, m, n - 1);
    }
  }

  /** Sixteen bits name every unfilled slot exactly when there are at most 65536 slots. */
  lemma SixteenBits<Tx>(pre: seq<Prefilled<Tx>>, avail: seq<Option<Tx>>, isNull: Tx -> bool, m: map<nat, nat>, shorts: seq<nat>)
    requires PrefilledOk(pre, |shorts|, isNull) && Placed(pre, |pre|, avail) && shorts != []
    requires Slotted(m, shorts, Free(avail, |avail|))
    ensures |avail| <= 65536 <==> forall i :: 0 <= i < |shorts| ==> m[shorts[i]] == Free(avail, |avail|)[i]
  {
    hide Free, Low16;
    var n := |avail|;
    if n > 65536 {
      assert forall i :: 0 <= i < |pre| ==> Position(pre, i) != n - 1;
      assert avail[n - 1] == None;
      FreeRank(avail, n, n - 1);
    }
  }

  /** A 16-bit offset reaches an unfilled slot exactly when fewer than 65536 slots are prefilled. */
  lemma SearchEnds<Tx>(pre: seq<Prefilled<Tx>>, avail: seq<Option<Tx>>, isNull: Tx -> bool, shorts: nat)
    requires PrefilledOk(pre, shorts, isNull) && Placed(pre, |pre|, avail) && |avail| == shorts + |pre|
    requires |Free(avail, |avail|)| == shorts > 0
    ensures |pre| < 65536 <==> exists offset :: 0 <= offset < 65536 && offset < |avail| && avail[offset] == None
    ensures |pre| < 65536 <==> !Packed(avail)
  {
    hide Position, Free;
    if |pre| >= 65536 {
      forall i | 0 <= i < 65536
        ensures Position(pre, i) == i
      {
        PositionFits(pre, i, 65535);
      }
      forall offset | 0 <= offset < 65536
        ensures offset < |avail| ==> avail[offset] != None
      {
        assert Position(pre, offset) == offset;
      }
    } else {
      var n := |avail|;
      var p := Free(avail, n)[0];
      FreePrefix(avail, p, n);
      TakenBelow(avail, p, n);
      assert Free(avail, p) == [];
      assert avail[p] == None && p < 65536;
    }
  }

  /** With no short id left over, the search is not needed. */
  lemma PackedOrNot<Tx>(pre: seq<Prefilled<Tx>>, avail: seq<Option<Tx>>, isNull: Tx -> bool, shorts: nat)
    requires PrefilledOk(pre, shorts, isNull) && Placed(pre, |pre|, avail) && |avail| == shorts + |pre|
    requires |Free(avail, |avail|)| == shorts
    ensures |pre| < 65536 <==> !Packed(avail)
  {
    if shorts > 0 {
      SearchEnds(pre, avail, isNull, shorts);
    } else if |pre| >= 65536 {
      hide Position, Free, Placed;
      NoneFree(avail, |avail|);
    }
  }

  lemma {:induction false} NoneFree<Tx>(avail: seq<Option<Tx>>, n: nat)
    requires n <= |avail| && |Free(avail, n)| == 0
    ensures forall p :: 0 <= p < n ==> avail[p] != None
  {
    if n > 0 {
      NoneFree(avail, n - 1);
    }
  }

  /** Positions that rise to at most j in j steps are those numbers themselves. */
  lemma {:induction false} PositionFits<Tx>(pre: seq<Prefilled<Tx>>, i: nat, j: nat)
    requires i <= j < |pre| && Position(pre, j) <= j
    ensures Position(pre, i) == i
    decreases j - i
  {
    if i < j {
      PositionFits(pre, i + 1, j);
      PositionsRise(pre, i, i + 1);
    }
  }

  // ----- matching -----

  /** Slots for which a candidate was found and not taken back, among the first n. */
  function Marked<Tx>(avail: seq<Option<Tx>>, have: seq<bool>, n: nat): nat
    requires n <= |avail| == |have|
  {
    if n == 0 then 0 else Marked(avail, have, n - 1) + if have[n - 1] && avail[n - 1] != None then 1 else 0
  }

  lemma {:induction false} MarkedUpdate<Tx>(avail: seq<Option<Tx>>, have: seq<bool>, n: nat, p: nat, tx: Option<Tx>)
    requires n <= |avail| == |have| && p < |avail|
    ensures Marked(avail[p := tx], have[p := true], n) ==
            Marked(avail, have, n) + (if p < n && tx != None then 1 else 0) - (if p < n && have[p] && avail[p] != None then 1 else 0)
  {
    if n > 0 {
      MarkedUpdate(avail, have, n - 1, p, tx);
    }
  }

  lemma {:induction false} MarkedNone<Tx>(avail: seq<Option<Tx>>, have: seq<bool>, n: nat)
    requires n <= |avail| == |have| && forall p :: 0 <= p < |have| ==> !have[p]
    ensures Marked(avail, have, n) == 0
  {
    if n > 0 {
      MarkedNone(avail, have, n - 1);
    }
  }

  /** A slot holds an offered transaction with a short id that is mapped to it. */
  ghost predicate Offered<Tx>(tx: Option<Tx>, p: nat, m: map<nat, nat>, id: Tx -> nat, offered: seq<Tx>) {
    tx != None ==> tx.value in offered && id(tx.value) in m && m[id(tx.value)] == p
  }

  /**
   A slot without a candidate is as it was; one with a candidate holds it or, if there were
   several, may be empty; and the counter tells how many hold one.
   */
  ghost predicate Matched<Tx>(base: seq<Option<Tx>>, avail: seq<Option<Tx>>, have: seq<bool>, m: map<nat, nat>, id: Tx -> nat, offered: seq<Tx>, count: nat) {
    && |have| == |avail| == |base| && count == Marked(avail, have, |avail|)
    && (forall p :: 0 <= p < |base| ==> if have[p] then p in m.Values && Offered(avail[p], p, m, id, offered) else avail[p] == base[p])
  }

  ghost predicate InRange(m: map<nat, nat>, size: nat) {
    forall k :: k in m ==> m[k] < size
  }

  /** The counter of slots filled by matching. */
  ghost predicate Counted<Tx>(base: seq<Option<Tx>>, avail: seq<Option<Tx>>, count: nat) {
    |avail| == |base| && count + |Free(avail, |avail|)| == |Free(base, |base|)|
  }

  ghost predicate Slots<Tx>(base: seq<Option<Tx>>, m: map<nat, nat>) {
    forall k :: k in m ==> m[k] < |base| && base[m[k]] == None
  }

  /** Every short id leads to a slot that exists, and up to 65536 slots to an unfilled one. */
  lemma SlotsOf<Tx>(base: seq<Option<Tx>>, m: map<nat, nat>, shorts: seq<nat>)
    requires Slotted(m, shorts, Free(base, |base|))
    ensures InRange(m, |base|) && (|base| <= 65536 ==> Slots(base, m))
  {
    hide Slotted, InRange, Slots;
    SlotsIn(base, m, shorts, Free(base, |base|));
  }

  lemma SlotsIn<Tx>(base: seq<Option<Tx>>, m: map<nat, nat>, shorts: seq<nat>, free: seq<nat>)
    requires Slotted(m, shorts, free) && forall i :: 0 <= i < |free| ==> free[i] < |base| && base[free[i]] == None
    ensures InRange(m, |base|) && (|base| <= 65536 ==> Slots(base, m))
  {
    hide Low16, Slotted;
    forall k | k in m
      ensures m[k] < |base| && (|base| <= 65536 ==> base[m[k]] == None)
    {
      var i := Place(m, shorts, free, k);
    }
  }

  /** Putting a transaction into the slot of its short id. */
  lemma MatchFill<Tx>(base: seq<Option<Tx>>, avail: seq<Option<Tx>>, have: seq<bool>, m: map<nat, nat>, id: Tx -> nat, offered: seq<Tx>, tx: Tx, count: nat)
    requires Matched(base, avail, have, m, id, offered, count) && InRange(m, |base|)
    requires id(tx) in m && tx in offered && !have[m[id(tx)]]
    ensures Matched(base, avail[m[id(tx)] := Some(tx)], have[m[id(tx)] := true], m, id, offered, count + 1)
  {
    hide Marked;
    MarkedUpdate(avail, have, |avail|, m[id(tx)], Some(tx));
  }

  /** Taking back a match that turned out ambiguous. */
  lemma MatchDrop<Tx>(base: seq<Option<Tx>>, avail: seq<Option<Tx>>, have: seq<bool>, m: map<nat, nat>, id: Tx -> nat, offered: seq<Tx>, p: nat, count: nat)
    requires Matched(base, avail, have, m, id, offered, count) && p < |base| && have[p] && avail[p] != None
    ensures count > 0 && Matched(base, avail[p := None], have, m, id, offered, count - 1)
  {
    hide Marked;
    MarkedUpdate(avail, have, |avail|, p, None);
    assert have[p := true] == have;
  }

  lemma MatchNone<Tx>(base: seq<Option<Tx>>, have: seq<bool>, m: map<nat, nat>, id: Tx -> nat, offered: seq<Tx>)
    requires |have| == |base| && forall p :: 0 <= p < |have| ==> !have[p]
    ensures Matched(base, base, have, m, id, offered, 0)
  {
    MarkedNone(base, have, |base|);
  }

  lemma SameSize<Tx>(base: seq<Option<Tx>>, avail: seq<Option<Tx>>, have: seq<bool>, m: map<nat, nat>, id: Tx -> nat, offered: seq<Tx>, count: nat)
    requires Matched(base, avail, have, m, id, offered, count)
    ensures |avail| == |base| == |have|
  {
  }

  /** When only unfilled slots are matched, prefilled ones stay and the counter is what was filled. */
  lemma PrefilledStay<Tx>(base: seq<Option<Tx>>, avail: seq<Option<Tx>>, have: seq<bool>, m: map<nat, nat>, id: Tx -> nat, offered: seq<Tx>, count: nat)
    requires Matched(base, avail, have, m, id, offered, count) && Slots(base, m)
    ensures forall p :: 0 <= p < |base| && base[p] != None ==> avail[p] == base[p]
    ensures Counted(base, avail, count)
  {
    hide Offered, Free, Marked;
    forall p | 0 <= p < |base| && have[p]
      ensures base[p] == None
    {
      assert p in m.Values;
      var k :| k in m && m[k] == p;
    }
    MarkedFree(base, avail, have, |base|);
  }

  lemma {:induction false} MarkedFree<Tx>(base: seq<Option<Tx>>, avail: seq<Option<Tx>>, have: seq<bool>, n: nat)
    requires n <= |base| == |avail| == |have|
    requires forall p :: 0 <= p < n ==> if have[p] then base[p] == None else avail[p] == base[p]
    ensures Marked(avail, have, n) + |Free(avail, n)| == |Free(base, n)|
  {
    if n > 0 {
      MarkedFree(base, avail, have, n - 1);
    }
  }

  // ----- the outcome for one slot -----

  /** Whether a slot has been matched, and by what, if the match still stands. */
  datatype Match<Tx> = Match(have: bool, tx: Option<Tx>)

  /** Candidates from the pool with short id k: a second one makes the first ambiguous. */
  function PoolScan<Tx>(pool: seq<Tx>, id: Tx -> nat, k: nat): Match<Tx> {
    if pool == [] then Match(false, None)
    else
      var before, tx := PoolScan(pool[..|pool| - 1], id, k), pool[|pool| - 1];
      if id(tx) != k then before
      else if before.have then Match(true, None) else Match(true, Some(tx))
  }

  /** Further candidates: only one with another witness hash is a conflict. */
  function ExtraScan<Tx>(start: Match<Tx>, extra: seq<Tx>, id: Tx -> nat, whash: Tx -> nat, k: nat): Match<Tx> {
    if extra == [] then start
    else
      var before, tx := ExtraScan(start, extra[..|extra| - 1], id, whash, k), extra[|extra| - 1];
      if id(tx) != k then before
      else if !before.have then Match(true, Some(tx))
      else if before.tx != None && whash(before.tx.value) != whash(tx) then Match(true, None)
      else before
  }

  /** The candidates with a short id. */
  function With<Tx>(pool: seq<Tx>, id: Tx -> nat, k: nat): seq<Tx> {
    if pool == [] then []
    else With(pool[..|pool| - 1], id, k) + if id(pool[|pool| - 1]) == k then [pool[|pool| - 1]] else []
  }

  /** A slot is filled from the pool exactly when one candidate has its short id. */
  lemma {:induction false} FilledByOne<Tx>(pool: seq<Tx>, id: Tx -> nat, k: nat)
    ensures var c := With(pool, id, k);
            PoolScan(pool, id, k) == Match(c != [], if |c| == 1 then Some(c[0]) else None)
  {
    if pool != [] {
      FilledByOne(pool[..|pool| - 1], id, k);
    }
  }

  ghost predicate AllHashTo<Tx>(c: seq<Tx>, whash: Tx -> nat, w: nat) {
    forall i :: 0 <= i < |c| ==> whash(c[i]) == w
  }

  lemma AllSnoc<Tx>(c: seq<Tx>, tx: Tx, whash: Tx -> nat, w: nat)
    ensures AllHashTo(c + [tx], whash, w) <==> AllHashTo(c, whash, w) && whash(tx) == w
  {
    var d := c + [tx];
    assert d[|c|] == tx;
    if AllHashTo(d, whash, w) {
      forall i | 0 <= i < |c|
        ensures whash(c[i]) == w
      {
        assert whash(d[i]) == w;
      }
    }
  }

  /**
   Among extra transactions the first candidate counts, if the pool gave none; it stands exactly
   when all candidates have its witness hash.  A conflict in the pool is final.
   */
  lemma {:induction false} FirstStands<Tx>(start: Match<Tx>, extra: seq<Tx>, id: Tx -> nat, whash: Tx -> nat, k: nat)
    requires !start.have ==> start.tx == None
    ensures var c := With(extra, id, k);
            var first := if start.have then start.tx else if c == [] then None else Some(c[0]);
            ExtraScan(start, extra, id, whash, k)
            == Match(start.have || c != [], if first != None && AllHashTo(c, whash, whash(first.value)) then first else None)
  {
    if extra != [] {
      var rest, tx := extra[..|extra| - 1], extra[|extra| - 1];
      FirstStands(start, rest, id, whash, k);
      if id(tx) == k {
        var c := With(rest, id, k);
        var first := if start.have then start.tx else if c == [] then Some(tx) else Some(c[0]);
        if first != None {
          AllSnoc(c, tx, whash, whash(first.value));
          assert c == [] ==> AllHashTo(c, whash, whash(first.value));
        }
        hide AllHashTo;
      } else {
        assert With(rest, id, k) + [] == With(rest, id, k);
      }
    }
  }

  lemma PoolNext<Tx>(pool: seq<Tx>, i: nat, id: Tx -> nat, k: nat)
    requires i < |pool|
    ensures var before := PoolScan(pool[..i], id, k);
            PoolScan(pool[..i + 1], id, k) ==
            if id(pool[i]) != k then before else if before.have then Match(true, None) else Match(true, Some(pool[i]))
  {
    assert pool[..i + 1][..i] == pool[..i];
  }

  lemma ExtraNext<Tx>(start: Match<Tx>, extra: seq<Tx>, i: nat, id: Tx -> nat, whash: Tx -> nat, k: nat)
    requires i < |extra|
    ensures var before := ExtraScan(start, extra[..i], id, whash, k);
            ExtraScan(start, extra[..i + 1], id, whash, k) ==
            if id(extra[i]) != k then before
            else if !before.have then Match(true, Some(extra[i]))
            else if before.tx != None && whash(before.tx.value) != whash(extra[i]) then Match(true, None)
            else before
  {
    assert extra[..i + 1][..i] == extra[..i];
  }

  /** Each short id has a slot of its own. */
  ghost predicate OwnSlots(m: map<nat, nat>, size: nat) {
    (forall k :: k in m ==> m[k] < size) && (forall j, k :: j in m && k in m && j != k ==> m[j] != m[k])
  }

  lemma SlottedOwn<Tx>(base: seq<Option<Tx>>, m: map<nat, nat>, shorts: seq<nat>)
    requires Slotted(m, shorts, Free(base, |base|)) && |base| <= 65536
    ensures OwnSlots(m, |base|)
  {
    hide Slotted, OwnSlots;
    OwnOf(m, shorts, Free(base, |base|), |base|);
  }

  lemma OwnOf(m: map<nat, nat>, shorts: seq<nat>, free: seq<nat>, size: nat)
    requires Slotted(m, shorts, free) && size <= 65536
    requires (forall i :: 0 <= i < |free| ==> free[i] < size) && (forall i, j :: 0 <= i < j < |free| ==> free[i] < free[j])
    ensures OwnSlots(m, size)
  {
    hide Low16, Slotted;
    forall k | k in m
      ensures m[k] < size
    {
      var a := Place(m, shorts, free, k);
    }
    forall j, k | j in m && k in m && j != k
      ensures m[j] != m[k]
    {
      var a := Place(m, shorts, free, j);
      var b := Place(m, shorts, free, k);
      assert a < b || b < a;
    }
  }

  lemma Place(m: map<nat, nat>, shorts: seq<nat>, free: seq<nat>, k: nat) returns (i: nat)
    requires Slotted(m, shorts, free) && k in m
    ensures i < |shorts| == |free| && shorts[i] == k && m[k] == Low16(free[i])
  {
    i :| 0 <= i < |shorts| && shorts[i] == k;
  }

  /** Every slot of a short id stands as scanning pool and extra transactions leaves it. */
  ghost predicate Stands<Tx>(avail: seq<Option<Tx>>, have: seq<bool>, m: map<nat, nat>, pool: seq<Tx>, extra: seq<Tx>, id: Tx -> nat, whash: Tx -> nat) {
    && |have| == |avail| && OwnSlots(m, |have|)
    && forall k :: k in m ==> Match(have[m[k]], avail[m[k]]) == ExtraScan(PoolScan(pool, id, k), extra, id, whash, k)
  }

  lemma StandsStart<Tx>(base: seq<Option<Tx>>, have: seq<bool>, m: map<nat, nat>, id: Tx -> nat, whash: Tx -> nat)
    requires |have| == |base| && (forall i :: 0 <= i < |have| ==> !have[i]) && Slots(base, m) && OwnSlots(m, |base|)
    ensures Stands(base, have, m, [], [], id, whash)
  {
  }

  /** One more transaction of the pool. */
  lemma StandsPool<Tx>(avail: seq<Option<Tx>>, have: seq<bool>, m: map<nat, nat>, pool: seq<Tx>, i: nat, id: Tx -> nat, whash: Tx -> nat)
    requires i < |pool| && Stands(avail, have, m, pool[..i], [], id, whash)
    ensures id(pool[i]) !in m ==> Stands(avail, have, m, pool[..i + 1], [], id, whash)
    ensures id(pool[i]) in m ==>
              var p := m[id(pool[i])];
              && p < |avail| && (!have[p] ==> avail[p] == None)
              && (if have[p] then Stands(avail[p := None], have, m, pool[..i + 1], [], id, whash)
                  else Stands(avail[p := Some(pool[i])], have[p := true], m, pool[..i + 1], [], id, whash))
  {
    hide PoolScan;
    forall k | k in m
      ensures var before := PoolScan(pool[..i], id, k);
              PoolScan(pool[..i + 1], id, k) ==
              if id(pool[i]) != k then before else if before.have then Match(true, None) else Match(true, Some(pool[i]))
      ensures !PoolScan(pool[..i], id, k).have ==> PoolScan(pool[..i], id, k).tx == None
    {
      PoolNext(pool, i, id, k);
      NothingYet(pool[..i], id, k);
    }
  }

  /** One more extra transaction. */
  lemma StandsExtra<Tx>(avail: seq<Option<Tx>>, have: seq<bool>, m: map<nat, nat>, pool: seq<Tx>, extra: seq<Tx>, i: nat, id: Tx -> nat, whash: Tx -> nat)
    requires i < |extra| && Stands(avail, have, m, pool, extra[..i], id, whash)
    ensures id(extra[i]) !in m ==> Stands(avail, have, m, pool, extra[..i + 1], id, whash)
    ensures id(extra[i]) in m ==>
              var p := m[id(extra[i])];
              && p < |avail| && (!have[p] ==> avail[p] == None)
              && (if !have[p] then Stands(avail[p := Some(extra[i])], have[p := true], m, pool, extra[..i + 1], id, whash)
                  else if avail[p] != None && whash(avail[p].value) != whash(extra[i])
                  then Stands(avail[p := None], have, m, pool, extra[..i + 1], id, whash)
                  else Stands(avail, have, m, pool, extra[..i + 1], id, whash))
  {
    hide PoolScan, ExtraScan;
    forall k | k in m
      ensures var before := ExtraScan(PoolScan(pool, id, k), extra[..i], id, whash, k);
              && (!before.have ==> before.tx == None)
              && ExtraScan(PoolScan(pool, id, k), extra[..i + 1], id, whash, k) ==
                 if id(extra[i]) != k then before
                 else if !before.have then Match(true, Some(extra[i]))
                 else if before.tx != None && whash(before.tx.value) != whash(extra[i]) then Match(true, None)
                 else before
    {
      ExtraNext(PoolScan(pool, id, k), extra, i, id, whash, k);
      NothingYet(pool, id, k);
      NothingLater(PoolScan(pool, id, k), extra[..i], id, whash, k);
    }
  }

  /** An unmatched slot is empty. */
  lemma {:induction false} NothingYet<Tx>(pool: seq<Tx>, id: Tx -> nat, k: nat)
    ensures !PoolScan(pool, id, k).have ==> PoolScan(pool, id, k).tx == None
  {
    if pool != [] {
      NothingYet(pool[..|pool| - 1], id, k);
    }
  }

  lemma {:induction false} NothingLater<Tx>(start: Match<Tx>, extra: seq<Tx>, id: Tx -> nat, whash: Tx -> nat, k: nat)
    requires !start.have ==> start.tx == None
    ensures var r := ExtraScan(start, extra, id, whash, k); !r.have ==> r.tx == None
  {
    if extra != [] {
      NothingLater(start, extra[..|extra| - 1], id, whash, k);
    }
  }

  /** What the slots hold in the end. */
  ghost predicate Searched<Tx>(avail: seq<Option<Tx>>, m: map<nat, nat>, pool: seq<Tx>, extra: seq<Tx>, id: Tx -> nat, whash: Tx -> nat) {
    forall k :: k in m ==>
      m[k] < |avail| && avail[m[k]] == ExtraScan(PoolScan(pool, id, k), extra, id, whash, k).tx
  }

  lemma StandsSearched<Tx>(avail: seq<Option<Tx>>, have: seq<bool>, m: map<nat, nat>, pool: seq<Tx>, extra: seq<Tx>, id: Tx -> nat, whash: Tx -> nat)
    requires Stands(avail, have, m, pool, extra, id, whash)
    ensures Searched(avail, m, pool, extra, id, whash)
  {
    hide PoolScan, ExtraScan;
  }

  class PartiallyDownloadedBlock<Tx(==)> {
    var hasHeader: bool
    var txnAvailable: seq<Option<Tx>>
    var prefilledCount: nat
    var mempoolCount: nat
    const id: Tx -> nat
    const whash: Tx -> nat
    const isNull: Tx -> bool
    const crowded: (nat, seq<nat>) -> bool

    constructor (id: Tx -> nat, whash: Tx -> nat, isNull: Tx -> bool, crowded: (nat, seq<nat>) -> bool)
      ensures !hasHeader && txnAvailable == [] && mempoolCount == 0
      ensures this.id == id && this.whash == whash && this.isNull == isNull && this.crowded == crowded
    {
      hasHeader, txnAvailable, prefilledCount, mempoolCount := false, [], 0, 0;
      this.id, this.whash, this.isNull, this.crowded := id, whash, isNull, crowded;
    }

    /** Each short id has an unfilled slot of its own. */
    ghost predicate Apart(base: seq<Option<Tx>>, m: map<nat, nat>) {
      Slots(base, m) && OwnSlots(m, |base|)
    }

    /** Fills slots from the pool; a second match for a slot empties it again. */
    method MatchPool(pool: seq<Tx>, m: map<nat, nat>, ghost base: seq<Option<Tx>>, ghost offered: seq<Tx>)
      returns (have: seq<bool>, ghost n: nat)
      requires txnAvailable == base && mempoolCount == 0 && InRange(m, |base|)
      requires forall i :: 0 <= i < |pool| ==> pool[i] in offered
      modifies this`txnAvailable, this`mempoolCount
      ensures Matched(base, txnAvailable, have, m, id, offered, mempoolCount)
      ensures n <= |pool| && (n == |pool| || mempoolCount == |m|)
      ensures Apart(base, m) ==> Stands(txnAvailable, have, m, pool[..n], [], id, whash)
    {
      hide Matched, Slots, OwnSlots, Stands;
      have := seq(|txnAvailable|, _ => false);
      MatchNone(base, have, m, id, offered);
      ghost var apart := Apart(base, m);
      if apart {
        StandsStart(base, have, m, id, whash);
      }
      var i := 0;
      assert pool[..0] == [];
      while i < |pool|
        invariant 0 <= i <= |pool| && |txnAvailable| == |base| == |have|
        invariant Matched(base, txnAvailable, have, m, id, offered, mempoolCount)
        invariant apart ==> Stands(txnAvailable, have, m, pool[..i], [], id, whash)
      {
        var shortid := id(pool[i]);
        if apart {
          StandsPool(txnAvailable, have, m, pool, i, id, whash);
        }
        if shortid in m {
          var p := m[shortid];
          if !have[p] {
            MatchFill(base, txnAvailable, have, m, id, offered, pool[i], mempoolCount);
            txnAvailable := txnAvailable[p := Some(pool[i])];
            have := have[p := true];
            mempoolCount := mempoolCount + 1;
          } else if txnAvailable[p] != None {
            MatchDrop(base, txnAvailable, have, m, id, offered, p, mempoolCount);
            txnAvailable := txnAvailable[p := None];
            mempoolCount := mempoolCount - 1;
          } else {
            assert txnAvailable[p := None] == txnAvailable;
          }
        }
        i := i + 1;
        if mempoolCount == |m| {
          break;
        }
      }
      n := i;
    }

    /** The same with further transactions; a repeat of the same transaction is no conflict. */
    method MatchExtra(extra: seq<Tx>, m: map<nat, nat>, ghost base: seq<Option<Tx>>, ghost offered: seq<Tx>, have0: seq<bool>, ghost pooled: seq<Tx>)
      returns (ghost have': seq<bool>, ghost n: nat)
      requires Matched(base, txnAvailable, have0, m, id, offered, mempoolCount) && InRange(m, |base|)
      requires forall i :: 0 <= i < |extra| ==> extra[i] in offered
      requires Apart(base, m) ==> Stands(txnAvailable, have0, m, pooled, [], id, whash)
      modifies this`txnAvailable, this`mempoolCount
      ensures Matched(base, txnAvailable, have', m, id, offered, mempoolCount)
      ensures n <= |extra| && (n == |extra| || mempoolCount == |m|)
      ensures Apart(base, m) ==> Searched(txnAvailable, m, pooled, extra[..n], id, whash)
    {
      hide Matched, Slots, OwnSlots, Stands, Searched;
      var have := have0;
      SameSize(base, txnAvailable, have0, m, id, offered, mempoolCount);
      ghost var apart := Apart(base, m);
      var i := 0;
      assert extra[..0] == [];
      while i < |extra|
        invariant 0 <= i <= |extra| && |txnAvailable| == |base| == |have|
        invariant Matched(base, txnAvailable, have, m, id, offered, mempoolCount)
        invariant apart ==> Stands(txnAvailable, have, m, pooled, extra[..i], id, whash)
      {
        var shortid := id(extra[i]);
        if apart {
          StandsExtra(txnAvailable, have, m, pooled, extra, i, id, whash);
        }
        if shortid in m {
          var p := m[shortid];
          if !have[p] {
            MatchFill(base, txnAvailable, have, m, id, offered, extra[i], mempoolCount);
            txnAvailable := txnAvailable[p := Some(extra[i])];
            have := have[p := true];
            mempoolCount := mempoolCount + 1;
          } else if txnAvailable[p] != None && whash(txnAvailable[p].value) != whash(extra[i]) {
            MatchDrop(base, txnAvailable, have, m, id, offered, p, mempoolCount);
            txnAvailable := txnAvailable[p := None];
            mempoolCount := mempoolCount - 1;
          }
        }
        i := i + 1;
        if mempoolCount == |m| {
          break;
        }
      }
      have', n := have, i;
      if apart {
        StandsSearched(txnAvailable, have, m, pooled, extra[..n], id, whash);
      }
    }

    /**
     Accepts a compact block, exactly when its parts fit and its short ids differ and spread well.
     Every slot is as the prefilled transactions left it or was matched
     by offered transactions, and the counter tells how many hold such a one.  Up to 65536
     slots each short id has the slot it stands for, so prefilled slots stay and every other one
     holds what the two searches leave there; both go to their ends or stop once nothing is
     missing.
     */
    method InitData(cmpct: ShortBlock<Tx>, headerIsNull: bool, pool: seq<Tx>, extra: seq<Tx>)
      returns (status: ReadStatus, ghost m: map<nat, nat>, ghost base: seq<Option<Tx>>, ghost have': seq<bool>, ghost n: nat, ghost n': nat)
      requires !hasHeader && txnAvailable == [] && mempoolCount == 0
      modifies this
      ensures status == OK || status == INVALID || status == FAILED || status == ENDLESS
      ensures status == ENDLESS <==> Endless(cmpct, headerIsNull, isNull)
      ensures status == OK || status == FAILED ==>
                (status == OK <==> Separate(cmpct.shorttxids) && Roomy(cmpct.shorttxids, crowded))
      ensures status == INVALID <==>
                headerIsNull || (cmpct.shorttxids == [] && cmpct.prefilledtxn == [])
                || |cmpct.shorttxids| + |cmpct.prefilledtxn| > MAX_BLOCK_WEIGHT / MIN_SERIALIZABLE_TRANSACTION_WEIGHT
                || !PrefilledOk(cmpct.prefilledtxn, |cmpct.shorttxids|, isNull)
      ensures status == OK ==>
                && hasHeader && |txnAvailable| == |base| == |cmpct.shorttxids| + |cmpct.prefilledtxn|
                && prefilledCount == |cmpct.prefilledtxn|
                && Placed(cmpct.prefilledtxn, |cmpct.prefilledtxn|, base)
                && Slotted(m, cmpct.shorttxids, Free(base, |base|))
                && Matched(base, txnAvailable, have', m, id, pool + extra, mempoolCount)
      ensures status == OK && |base| <= 65536 ==>
                && (forall p :: 0 <= p < |base| && base[p] != None ==> txnAvailable[p] == base[p])
                && Counted(base, txnAvailable, mempoolCount)
                && n <= |pool| && n' <= |extra| && Searched(txnAvailable, m, pool[..n], extra[..n'], id, whash)
                && (n' == |extra| || mempoolCount == |m|)
    {
      hide Matched, Counted, Slots, Placed, Slotted, Free, PrefilledOk, OwnSlots, Stands, Searched, Packed, Separate, Roomy;
      m, base, have', n, n' := map[], [], [], 0, 0;
      if headerIsNull || (cmpct.shorttxids == [] && cmpct.prefilledtxn == []) {
        return INVALID, m, base, have', n, n';
      }
      if |cmpct.shorttxids| + |cmpct.prefilledtxn| > MAX_BLOCK_WEIGHT / MIN_SERIALIZABLE_TRANSACTION_WEIGHT {
        return INVALID, m, base, have', n, n';
      }
      hasHeader := true;
      var ok, avail := PlacePrefilled(cmpct.prefilledtxn, |cmpct.shorttxids|, isNull);
      txnAvailable := avail;
      base := avail;
      if !ok {
        return INVALID, m, base, have', n, n';
      }
      prefilledCount := |cmpct.prefilledtxn|;
      AtMost65536(cmpct.prefilledtxn, |cmpct.shorttxids|, isNull);
      PackedOrNot(cmpct.prefilledtxn, avail, isNull, |cmpct.shorttxids|);
      var mapped, slots := MapSlots(avail, cmpct.shorttxids, crowded);
      m := slots;
      if mapped != OK {
        return mapped, m, base, have', n, n';
      }
      SlotsOf(base, m, cmpct.shorttxids);
      if |base| <= 65536 {
        SlottedOwn(base, m, cmpct.shorttxids);
      }
      var have;
      have, n := MatchPool(pool, slots, base, pool + extra);
      have', n' := MatchExtra(extra, slots, base, pool + extra, have, pool[..n]);
      SameSize(base, txnAvailable, have', m, id, pool + extra, mempoolCount);
      if |base| <= 65536 {
        PrefilledStay(base, txnAvailable, have', m, id, pool + extra, mempoolCount);
      }
      status := OK;
    }

    /** The slots to ask for, in 16 bits. */
    method MissingIndexes() returns (indexes: seq<nat>)
      requires hasHeader
      ensures indexes == Asked(txnAvailable)
    {
      hide Free, Low16;
      NoFree(txnAvailable);
      indexes := [];
      for i := 0 to |txnAvailable|
        invariant |indexes| == |Free(txnAvailable, i)|
        invariant forall j :: 0 <= j < |indexes| ==> indexes[j] == Low16(Free(txnAvailable, i)[j])
      {
        FreeGrows(txnAvailable, i);
        if txnAvailable[i] == None {
          indexes := indexes + [Low16(i)];
        }
      }
    }

    /** Takes the missing transactions in order; the number must be exact and the whole must pass the check. */
    method FillBlock(missing: seq<Tx>, check: seq<Tx> -> Verdict) returns (status: ReadStatus, vtx: seq<Tx>)
      requires hasHeader
      modifies this`hasHeader, this`txnAvailable
      ensures status == INVALID <==> |missing| != |Free(old(txnAvailable), |old(txnAvailable)|)|
      ensures status != INVALID ==>
                && IsFilled(old(txnAvailable), missing, vtx) && status == StatusOf(check(vtx))
                && !hasHeader && txnAvailable == []
    {
      hide Free;
      var offset: nat := 0;
      vtx := [];
      NoFree(txnAvailable);
      for i := 0 to |txnAvailable|
        invariant txnAvailable == old(txnAvailable) && |vtx| == i && offset == |Free(txnAvailable, i)| <= |missing|
        invariant forall p :: 0 <= p < i ==> FilledAt(txnAvailable, missing, vtx[p], p)
      {
        FreeNext(txnAvailable, i);
        if txnAvailable[i] == None {
          if |missing| <= offset {
            FreePrefix(txnAvailable, i + 1, |txnAvailable|);
            return INVALID, vtx;
          }
          vtx := vtx + [missing[offset]];
          offset := offset + 1;
        } else {
          vtx := vtx + [txnAvailable[i].value];
        }
      }
      hasHeader := false;
      txnAvailable := [];
      if |missing| != offset {
        return INVALID, vtx;
      }
      var verdict := check(vtx);
      if !verdict.valid {
        if verdict.corruptionPossible {
          return FAILED, vtx;
        }
        return CHECKBLOCK_FAILED, vtx;
      }
      status := OK;
    }
  }

  function StatusOf(v: Verdict): (r: ReadStatus)
    ensures r != INVALID && r != ENDLESS
  {
    if v.valid then OK else if v.corruptionPossible then FAILED else CHECKBLOCK_FAILED
  }

  /** The numbers of the unfilled slots, in 16 bits. */
  function Asked<Tx>(avail: seq<Option<Tx>>): (r: seq<nat>)
    ensures |r| == |Free(avail, |avail|)|
  {
    var f := Free(avail, |avail|);
    seq(|f|, i requires 0 <= i < |f| => Low16(f[i]))
  }

  lemma FreeGrows<Tx>(avail: seq<Option<Tx>>, i: nat)
    requires i < |avail|
    ensures Free(avail, i + 1) == Free(avail, i) + if avail[i] == None then [i] else []
  {
  }

  ghost predicate FilledAt<Tx>(avail: seq<Option<Tx>>, missing: seq<Tx>, tx: Tx, p: nat)
    requires p < |avail|
  {
    if avail[p] != None then tx == avail[p].value
    else |Free(avail, p)| < |missing| && tx == missing[|Free(avail, p)|]
  }

  /** The known transactions, with the missing ones in the gaps. */
  ghost predicate IsFilled<Tx>(avail: seq<Option<Tx>>, missing: seq<Tx>, vtx: seq<Tx>) {
    |vtx| == |avail| && forall p :: 0 <= p < |avail| ==> FilledAt(avail, missing, vtx[p], p)
  }

  lemma NoFree<Tx>(avail: seq<Option<Tx>>)
    ensures |Free(avail, 0)| == 0
  {
  }

  lemma FreeNext<Tx>(avail: seq<Option<Tx>>, i: nat)
    requires i < |avail|
    ensures |Free(avail, i + 1)| == |Free(avail, i)| + if avail[i] == None then 1 else 0
  {
  }

  /** A block that passes the first tests and leaves a 16-bit offset no unfilled slot to find. */
  predicate Endless<Tx>(cmpct: ShortBlock<Tx>, headerIsNull: bool, isNull: Tx -> bool) {
    && !headerIsNull && PrefilledOk(cmpct.prefilledtxn, |cmpct.shorttxids|, isNull)
    && |cmpct.shorttxids| + |cmpct.prefilledtxn| <= MAX_BLOCK_WEIGHT / MIN_SERIALIZABLE_TRANSACTION_WEIGHT
    && |cmpct.prefilledtxn| == 65536 && cmpct.shorttxids != []
  }

  lemma {:induction false} AtOwnNumber<Tx>(pre: seq<Prefilled<Tx>>, i: nat)
    requires i < |pre| && forall j :: 0 <= j < |pre| ==> pre[j].index == 0
    ensures Position(pre, i) == i
  {
    if i > 0 {
      AtOwnNumber(pre, i - 1);
    }
  }

  /** Such a block exists: 65536 transactions in full, one after the other, and one short id. */
  lemma EndlessExample<Tx>(tx: Tx, k: nat, isNull: Tx -> bool)
    requires !isNull(tx)
    ensures Endless(ShortBlock([k], seq(65536, _ => Prefilled(0, tx))), false, isNull)
  {
    hide Position;
    var pre := seq(65536, _ => Prefilled(0, tx));
    forall i | 0 <= i < |pre|
      ensures Position(pre, i) == i
    {
      AtOwnNumber(pre, i);
    }
  }

  /** Prefilled transactions have slots below 65536, each its own. */
  lemma AtMost65536<Tx>(pre: seq<Prefilled<Tx>>, shorts: nat, isNull: Tx -> bool)
    requires PrefilledOk(pre, shorts, isNull)
    ensures |pre| <= 65536
  {
    hide Position;
    assert pre != [] ==> Position(pre, |pre| - 1) <= 65535;
  }

  // ----- short ids on the wire -----

  /** Four low bytes and two high bytes. */
  function PackId(id: nat): (nat, nat) {
    (id % 0x1_0000_0000, id / 0x1_0000_0000 % 0x1_0000)
  }

  function UnpackId(parts: (nat, nat)): nat {
    parts.1 * 0x1_0000_0000 + parts.0
  }

  /** Six bytes carry a short id exactly when it has at most 48 bits. */
  lemma SixBytes(id: nat)
    ensures UnpackId(PackId(id)) == id <==> id < 0x1_0000_0000_0000
  {
    assert id / 0x1_0000_0000 < 0x1_0000 <==> id < 0x1_0000_0000_0000;
  }

  // ----- request indexes -----

  predicate Increasing(s: seq<nat>) {
    forall i, j :: 0 <= i < j < |s| ==> s[i] < s[j]
  }

  /** The distance to the index before, as a 64-bit number. */
  function Step(s: seq<nat>, i: nat): nat
    requires i < |s|
  {
    var before: int := if i == 0 then 0 else s[i - 1] + 1;
    var here: int := s[i];
    (here - before) % 0x1_0000_0000_0000_0000
  }

  function Steps(s: seq<nat>): (d: seq<nat>)
    ensures |d| == |s|
  {
    seq(|s|, i requires 0 <= i < |s| => Step(s, i))
  }

  /** The index read from distances; the running offset is kept in 16 bits. */
  function Restored(d: seq<nat>, i: nat): nat
    requires i < |d|
  {
    if i == 0 then d[0] else d[i] + (Restored(d, i - 1) + 1) % 65536
  }

  predicate Readable(d: seq<nat>) {
    forall i :: 0 <= i < |d| ==> Restored(d, i) <= 65535
  }

  function AllRestored(d: seq<nat>): (s: seq<nat>)
    ensures |s| == |d|
  {
    seq(|d|, i requires 0 <= i < |d| => Restored(d, i))
  }

  method WriteIndexes(indexes: seq<nat>) returns (d: seq<nat>)
    requires forall i :: 0 <= i < |indexes| ==> indexes[i] <= 65535
    ensures d == Steps(indexes)
  {
    hide Step;
    d := [];
    for i := 0 to |indexes|
      invariant |d| == i && forall j :: 0 <= j < i ==> d[j] == Step(indexes, j)
    {
      d := d + [Step(indexes, i)];
    }
  }

  /** Refuses exactly the distances that lead outside 16 bits. */
  method ReadIndexes(d: seq<nat>) returns (r: Option<seq<nat>>)
    ensures r == if Readable(d) then Some(AllRestored(d)) else None
  {
    hide Restored;
    var indexes: seq<nat> := [];
    for i := 0 to |d|
      invariant |indexes| == i && forall j :: 0 <= j < i ==> indexes[j] == d[j] <= 65535
    {
      RestoredNext(d, i);
      if d[i] > 65535 {
        return None;
      }
      indexes := indexes + [d[i]];
    }
    var offset: nat := 0;
    for j := 0 to |indexes|
      invariant |indexes| == |d| && (forall i :: j <= i < |d| ==> indexes[i] == d[i])
      invariant forall i :: 0 <= i < j ==> indexes[i] == Restored(d, i) <= 65535
      invariant offset == if j == 0 then 0 else (Restored(d, j - 1) + 1) % 65536
    {
      RestoredNext(d, j);
      if indexes[j] + offset > 65535 {
        return None;
      }
      indexes := indexes[j := indexes[j] + offset];
      offset := (indexes[j] + 1) % 65536;
    }
    assert indexes == AllRestored(d);
    r := Some(indexes);
  }

  lemma RestoredNext(d: seq<nat>, i: nat)
    requires i < |d|
    ensures Restored(d, i) == d[i] + (if i == 0 then 0 else (Restored(d, i - 1) + 1) % 65536) >= d[i]
  {
  }

  /** Indexes survive the wire exactly when they are strictly increasing. */
  lemma IndexesRoundTrip(s: seq<nat>)
    requires forall i :: 0 <= i < |s| ==> s[i] <= 65535
    ensures Readable(Steps(s)) && AllRestored(Steps(s)) == s <==> Increasing(s)
  {
    hide Restored, Step;
    if Increasing(s) {
      forall i | 0 <= i < |s|
        ensures Restored(Steps(s), i) == s[i]
      {
        RestoresAt(s, i);
      }
    }
    if Readable(Steps(s)) && AllRestored(Steps(s)) == s {
      OnlyIncreasing(s);
    }
  }

  lemma OnlyIncreasing(s: seq<nat>)
    requires forall i :: 0 <= i < |s| ==> s[i] <= 65535
    requires Readable(Steps(s)) && AllRestored(Steps(s)) == s
    ensures Increasing(s)
  {
    hide Restored, Step;
    forall i | 0 <= i < |s| - 1
      ensures s[i] < s[i + 1]
    {
      RestoredNext(Steps(s), i + 1);
      assert Steps(s)[i + 1] == Step(s, i + 1) <= 65535;
      SmallStep(s, i + 1);
    }
    Chained(s);
  }

  lemma SmallStep(s: seq<nat>, i: nat)
    requires 0 < i < |s| && s[i] <= 65535 && s[i - 1] <= 65535 && Step(s, i) <= 65535
    ensures s[i - 1] < s[i]
  {
  }

  lemma {:induction false} RestoresAt(s: seq<nat>, i: nat)
    requires Increasing(s) && i < |s| && forall j :: 0 <= j < |s| ==> s[j] <= 65535
    ensures Restored(Steps(s), i) == s[i]
  {
    hide Step;
    StepUp(s, i);
    if i > 0 {
      RestoresAt(s, i - 1);
    }
  }

  lemma StepUp(s: seq<nat>, i: nat)
    requires i < |s| && s[i] <= 65535 && (i > 0 ==> s[i - 1] < s[i])
    ensures Step(s, i) == if i == 0 then s[0] else s[i] - s[i - 1] - 1
  {
  }

  lemma Chained(s: seq<nat>)
    requires forall i :: 0 <= i < |s| - 1 ==> s[i] < s[i + 1]
    ensures Increasing(s)
  {
    forall i, j | 0 <= i < j < |s|
      ensures s[i] < s[j]
    {
      Climb(s, i, j);
    }
  }

  lemma {:induction false} Climb(s: seq<nat>, i: nat, j: nat)
    requires i < j < |s| && forall k :: 0 <= k < |s| - 1 ==> s[k] < s[k + 1]
    ensures s[i] < s[j]
  {
    if i < j - 1 {
      Climb(s, i, j - 1);
    }
  }

  function Sum(d: seq<nat>, n: nat): nat
    requires n <= |d|
  {
    if n == 0 then 0 else Sum(d, n - 1) + d[n - 1]
  }

  lemma {:induction false} SumGrows(d: seq<nat>, m: nat, n: nat)
    requires m <= n <= |d|
    ensures Sum(d, m) <= Sum(d, n)
  {
    if m < n {
      SumGrows(d, m, n - 1);
    }
  }

  /** As long as the offset has not started again, an index is the sum of the distances and gaps so far. */
  lemma {:induction false} NoWrap(d: seq<nat>, i: nat)
    requires i < |d| && Sum(d, i) + i <= 65535
    ensures Restored(d, i) == Sum(d, i + 1) + i
  {
    if i > 0 {
      NoWrap(d, i - 1);
    }
  }

  lemma {:induction false} IncreasingSums(d: seq<nat>, i: nat)
    requires i < |d| && Readable(d) && Increasing(AllRestored(d))
    ensures Sum(d, i + 1) + i == Restored(d, i)
  {
    if i > 0 {
      IncreasingSums(d, i - 1);
      assert AllRestored(d)[i - 1] < AllRestored(d)[i];
      hide Restored;
      RestoredNext(d, i);
    }
  }

  /** A list of distances is read, and read as strictly increasing, exactly when all it spans fits 16 bits. */
  lemma ReadIncreasing(d: seq<nat>)
    ensures Readable(d) && Increasing(AllRestored(d)) <==> Sum(d, |d|) + |d| <= 65536
  {
    assert d == [] ==> Sum(d, |d|) == 0;
    hide Restored, Sum;
    if Sum(d, |d|) + |d| <= 65536 {
      forall i | 0 <= i < |d|
        ensures Restored(d, i) == Sum(d, i + 1) + i <= 65535
      {
        SumGrows(d, i, |d|);
        SumGrows(d, i + 1, |d|);
        NoWrap(d, i);
      }
      forall i, j | 0 <= i < j < |d|
        ensures Restored(d, i) < Restored(d, j)
      {
        SumGrows(d, i + 1, j + 1);
      }
    } else if Readable(d) && Increasing(AllRestored(d)) && d != [] {
      IncreasingSums(d, |d| - 1);
    }
  }

  /** After index 65535 the offset starts again: distances 65535 and 0 are read as a descending pair. */
  lemma OffsetWraps()
    ensures Readable([65535, 0]) && AllRestored([65535, 0]) == [65535, 0] && !Increasing(AllRestored([65535, 0]))
  {
    assert Restored([65535, 0], 0) == 65535;
    assert Restored([65535, 0], 1) == 0;
    assert AllRestored([65535, 0])[1] == 0;
  }
}
