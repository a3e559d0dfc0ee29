/**
 A whole exchange of compact blocks (src/blockencodings.cpp, src/net_processing.cpp): the
 sender shortens a block, the receiver matches what it has, asks for the rest by 16-bit
 indexes, and fills in the answer.
 */
module BlockRelay {
  import opened Prelude
  import opened BlockEncodings

  /** The short form of a block: its first transaction in full, the others by short id. */
  function Shortened<Tx>(block: seq<Tx>, id: Tx -> nat): ShortBlock<Tx>
    requires block != []
  {
    ShortBlock(seq(|block| - 1, i requires 0 <= i < |block| - 1 => id(block[i + 1])), [Prefilled(0, block[0])])
  }

  method MakeShortBlock<Tx>(block: seq<Tx>, id: Tx -> nat) returns (r: ShortBlock<Tx>)
    requires block != []
    ensures r == Shortened(block, id)
  {
    var shorttxids: seq<nat> := seq(|block| - 1, _ => 0);
    for i := 1 to |block|
      invariant |shorttxids| == |block| - 1 && forall j :: 0 <= j < i - 1 ==> shorttxids[j] == id(block[j + 1])
    {
      shorttxids := shorttxids[i - 1 := id(block[i])];
    }
    r := ShortBlock(shorttxids, [Prefilled(0, block[0])]);
  }

  /** No offered transaction other than the block's own has the short id of one of them. */
  ghost predicate NoFalseMatch<Tx>(block: seq<Tx>, offered: seq<Tx>, id: Tx -> nat) {
    forall tx, p :: tx in offered && 1 <= p < |block| && id(tx) == id(block[p]) ==> tx == block[p]
  }

  /**
   Nothing offered has the short id of a transaction that 16-bit slot numbers cannot name.  A
   block of up to 65536 transactions has none of those.
   */
  ghost predicate NoneBeyond<Tx>(block: seq<Tx>, offered: seq<Tx>, id: Tx -> nat) {
    forall tx, p :: tx in offered && 65536 <= p < |block| ==> id(tx) != id(block[p])
  }

  /** The transactions asked for: those of the empty slots, in order. */
  function Requested<Tx>(block: seq<Tx>, avail: seq<Option<Tx>>): (r: seq<Tx>)
    requires |block| == |avail|
    ensures |r| == |Free(avail, |avail|)|
  {
    var f := Free(avail, |avail|);
    seq(|f|, i requires 0 <= i < |f| => block[f[i]])
  }

  /** With the first slot taken, the others are free in order. */
  lemma {:induction false} FreeTail<Tx>(base: seq<Option<Tx>>, n: nat, i: nat)
    requires 1 <= n <= |base| && base[0] != None && (forall p :: 1 <= p < |base| ==> base[p] == None)
    ensures |Free(base, n)| == n - 1 && (i < n - 1 ==> Free(base, n)[i] == i + 1)
  {
    if n > 1 {
      FreeTail(base, n - 1, i);
    } else {
      NoFree(base);
    }
  }

  /** Whatever is known of the sender's block is right. */
  lemma KnownIsRight<Tx>(block: seq<Tx>, id: Tx -> nat, base: seq<Option<Tx>>, avail: seq<Option<Tx>>, have: seq<bool>, m: map<nat, nat>, offered: seq<Tx>, count: nat, p: nat)
    requires p < |block| == |base| && NoFalseMatch(block, offered, id)
    requires Placed(Shortened(block, id).prefilledtxn, 1, base)
    requires Slotted(m, Shortened(block, id).shorttxids, Free(base, |base|)) && Matched(base, avail, have, m, id, offered, count)
    requires NoneBeyond(block, offered, id)
    ensures |avail| == |block| && (avail[p] == None || avail[p] == Some(block[p]))
  {
    hide Free, Marked, Low16;
    OnlyFirst(block, id, base);
    if have[p] && avail[p] != None {
      var k := id(avail[p].value);
      var shorts := Shortened(block, id).shorttxids;
      var i :| 0 <= i < |shorts| && shorts[i] == k;
      FreeTail(base, |base|, i);
      assert k == id(block[i + 1]) && i + 1 < 65536;
      assert m[k] == i + 1 == p;
    }
  }

  lemma OnlyFirst<Tx>(block: seq<Tx>, id: Tx -> nat, base: seq<Option<Tx>>)
    requires block != [] && |block| == |base| && Placed(Shortened(block, id).prefilledtxn, 1, base)
    ensures base[0] == Some(block[0]) && forall p :: 1 <= p < |base| ==> base[p] == None
  {
    var pre := Shortened(block, id).prefilledtxn;
    assert Position(pre, 0) == 0;
  }

  /** The receiver ends up with the sender's block. */
  lemma Reconstructed<Tx>(block: seq<Tx>, id: Tx -> nat, base: seq<Option<Tx>>, avail: seq<Option<Tx>>, have: seq<bool>, m: map<nat, nat>, offered: seq<Tx>, count: nat, vtx: seq<Tx>)
    requires block != [] && |block| == |base| == |avail| && NoFalseMatch(block, offered, id)
    requires Placed(Shortened(block, id).prefilledtxn, 1, base)
    requires Slotted(m, Shortened(block, id).shorttxids, Free(base, |base|)) && Matched(base, avail, have, m, id, offered, count)
    requires NoneBeyond(block, offered, id)
    requires IsFilled(avail, Requested(block, avail), vtx)
    ensures vtx == block
  {
    hide Free, Placed, Slotted, Matched, NoFalseMatch, NoneBeyond;
    forall p | 0 <= p < |block|
      ensures vtx[p] == block[p]
    {
      KnownIsRight(block, id, base, avail, have, m, offered, count, p);
      assert FilledAt(avail, Requested(block, avail), vtx[p], p);
      if avail[p] == None {
        FreeRank(avail, |avail|, p);
      }
    }
  }

  /** In a block of more than 65536 transactions sent by short id, transaction 65536 is taken for the first. */
  lemma SlotWraps<Tx>(block: seq<Tx>, id: Tx -> nat, base: seq<Option<Tx>>, m: map<nat, nat>)
    requires |block| == |base| > 65536 && Placed(Shortened(block, id).prefilledtxn, 1, base)
    requires Slotted(m, Shortened(block, id).shorttxids, Free(base, |base|))
    ensures id(block[65536]) in m && m[id(block[65536])] == 0
  {
    hide Free;
    OnlyFirst(block, id, base);
    FreeTail(base, |base|, 65535);
    assert Shortened(block, id).shorttxids[65535] == id(block[65536]);
  }

  lemma ShortAccepted<Tx>(block: seq<Tx>, id: Tx -> nat, isNull: Tx -> bool)
    requires block != [] && !isNull(block[0])
    ensures PrefilledOk(Shortened(block, id).prefilledtxn, |block| - 1, isNull)
  {
  }

  // ----- asking for what is missing -----

  /** Asking by number is right exactly when every missing slot has a number of 16 bits. */
  lemma RequestExact<Tx>(avail: seq<Option<Tx>>)
    ensures Readable(Steps(Asked(avail))) && AllRestored(Steps(Asked(avail))) == Free(avail, |avail|)
            <==> forall p :: 65536 <= p < |avail| ==> avail[p] != None
  {
    hide Free, Restored, Step;
    var n := |avail|;
    var f := Free(avail, n);
    if forall p :: 65536 <= p < n ==> avail[p] != None {
      assert forall i :: 0 <= i < |f| ==> f[i] < 65536;
      assert Asked(avail) == f;
      IndexesRoundTrip(f);
    } else if Readable(Steps(Asked(avail))) && AllRestored(Steps(Asked(avail))) == f {
      var p :| 65536 <= p < n && avail[p] == None;
      FreeRank(avail, n, p);
    }
  }

  /** With 65537 slots and only the last missing, the first transaction is asked for. */
  lemma RequestWraps<Tx>(avail: seq<Option<Tx>>)
    requires |avail| == 65537 && avail[65536] == None && forall p :: 0 <= p < 65536 ==> avail[p] != None
    ensures Free(avail, |avail|) == [65536] && Asked(avail) == [0]
  {
    hide Free;
    FreeGrows(avail, 65536);
    NothingFree(avail, 65536);
    assert Free(avail, |avail|) == [65536];
  }

  lemma {:induction false} NothingFree<Tx>(avail: seq<Option<Tx>>, n: nat)
    requires n <= |avail| && forall p :: 0 <= p < n ==> avail[p] != None
    ensures Free(avail, n) == []
  {
    if n > 0 {
      NothingFree(avail, n - 1);
    }
  }

  /** The transactions with these indexes, if the block has them all. */
  function Answer<Tx>(block: seq<Tx>, indexes: seq<nat>): Option<seq<Tx>> {
    if forall i :: 0 <= i < |indexes| ==> indexes[i] < |block|
    then Some(seq(|indexes|, i requires 0 <= i < |indexes| => block[indexes[i]])) else None
  }

  /** The sender's side: an index outside the block gets no answer. */
  method SendBlockTransactions<Tx>(block: seq<Tx>, indexes: seq<nat>) returns (r: Option<seq<Tx>>)
    ensures r == Answer(block, indexes)
  {
    var txn: seq<Tx> := [];
    for i := 0 to |indexes|
      invariant |txn| == i && forall j :: 0 <= j < i ==> indexes[j] < |block| && txn[j] == block[indexes[j]]
    {
      if indexes[i] >= |block| {
        return None;
      }
      txn := txn + [block[indexes[i]]];
    }
    r := Some(txn);
    assert txn == Answer(block, indexes).value;
  }

  /** What comes back for a request: none for an unreadable one. */
  function Reply<Tx>(block: seq<Tx>, asked: seq<nat>): Option<seq<Tx>> {
    if asked == [] then Some([])
    else if Readable(Steps(asked)) then Answer(block, AllRestored(Steps(asked)))
    else None
  }

  /** The request on the wire and its answer; nothing is sent when nothing is missing. */
  method RequestMissing<Tx>(block: seq<Tx>, indexes: seq<nat>) returns (r: Option<seq<Tx>>)
    requires forall i :: 0 <= i < |indexes| ==> indexes[i] <= 65535
    ensures r == Reply(block, indexes)
  {
    hide Readable, Answer;
    if indexes == [] {
      return Some([]);
    }
    var d := WriteIndexes(indexes);
    var read := ReadIndexes(d);
    if read == None {
      return None;
    }
    r := SendBlockTransactions(block, read.value);
  }

  /** Up to 65536 transactions the reply holds exactly the missing ones. */
  lemma ReplyIsRequested<Tx>(block: seq<Tx>, avail: seq<Option<Tx>>)
    requires |block| == |avail| <= 65536
    ensures Reply(block, Asked(avail)) == Some(Requested(block, avail))
  {
    hide Free, Readable, AllRestored;
    RequestExact(avail);
    if Asked(avail) == [] {
      assert Requested(block, avail) == [];
    } else {
      assert Answer(block, Free(avail, |avail|)).value == Requested(block, avail);
    }
  }

  /** Slots beyond the first 65536 of a block sent by short ids are never matched. */
  lemma BeyondIsMissing<Tx>(base: seq<Option<Tx>>, avail: seq<Option<Tx>>, have: seq<bool>, m: map<nat, nat>, shorts: seq<nat>, id: Tx -> nat, offered: seq<Tx>, count: nat, p: nat)
    requires Slotted(m, shorts, Free(base, |base|)) && Matched(base, avail, have, m, id, offered, count)
    requires 65536 <= p < |base| && base[p] == None
    ensures |avail| == |base| && avail[p] == None
  {
    hide Free, Marked, Low16, Offered;
    forall k | k in m
      ensures m[k] < 65536
    {
      var i := Place(m, shorts, Free(base, |base|), k);
    }
  }

  /** A list that falls somewhere is written with a distance that is not read. */
  lemma FallUnreadable(s: seq<nat>, i: nat)
    requires 0 < i < |s| && s[i] <= s[i - 1] <= 65535
    ensures !Readable(Steps(s))
  {
    hide Restored;
    RestoredNext(Steps(s), i);
    FallStep(s, i);
  }

  lemma FallStep(s: seq<nat>, i: nat)
    requires 0 < i < |s| && s[i] <= s[i - 1] <= 65535
    ensures Step(s, i) > 65535
  {
    var gap := s[i - 1] + 1 - s[i];
    assert Step(s, i) == 0x1_0000_0000_0000_0000 - gap;
  }

  /** With slot 65536 missing there is no reply, or the first transaction comes for it. */
  lemma BeyondIsWrong<Tx>(block: seq<Tx>, avail: seq<Option<Tx>>, reply: seq<Tx>)
    requires |block| == |avail| > 65536 && avail[65536] == None && Reply(block, Asked(avail)) == Some(reply)
    ensures |reply| == |Free(avail, |avail|)| > 0 && |Free(avail, 65536)| == 0 && reply[0] == block[0]
  {
    hide Free, Restored, Step, Readable;
    var n, asked := |avail|, Asked(avail);
    FreeRank(avail, n, 65536);
    var r := |Free(avail, 65536)|;
    assert asked[r] == 0;
    if r > 0 {
      FreePrefix(avail, 65536, n);
      assert Free(avail, n)[r - 1] == Free(avail, 65536)[r - 1] < 65536;
      FallUnreadable(asked, r);
    } else {
      RestoredNext(Steps(asked), 0);
      FirstStep(asked);
    }
  }

  lemma FirstStep(s: seq<nat>)
    requires s != [] && s[0] == 0
    ensures Step(s, 0) == 0
  {
  }

  // ----- the exchange -----

  /** How an exchange ends: refused at once, left without an answer, or filled in. */
  datatype Outcome<Tx> = Refused(status: ReadStatus) | Unanswered | Filled(status: ReadStatus, vtx: seq<Tx>)

  /** The short ids of a block can be told apart by the receiver. */
  predicate Distinguishable<Tx>(block: seq<Tx>, id: Tx -> nat, crowded: (nat, seq<nat>) -> bool)
    requires block != []
  {
    Separate(Shortened(block, id).shorttxids) && Roomy(Shortened(block, id).shorttxids, crowded)
  }

  /**
   Shorten, accept, ask for what is missing, fill in.  Without false matches a block of up to
   65536 transactions is rebuilt whenever its short ids can be told apart.  A larger one never
   is: slot 65536 is always missing and asked for as the first, so that there is no answer or
   the first transaction comes in its place.
   */
  method Relay<Tx(==)>(block: seq<Tx>, id: Tx -> nat, whash: Tx -> nat, isNull: Tx -> bool, crowded: (nat, seq<nat>) -> bool,
                       pool: seq<Tx>, extra: seq<Tx>, check: seq<Tx> -> Verdict)
    returns (outcome: Outcome<Tx>)
    requires block != [] && !isNull(block[0]) && NoFalseMatch(block, pool + extra, id)
    ensures |block| > MAX_BLOCK_WEIGHT / MIN_SERIALIZABLE_TRANSACTION_WEIGHT <==> outcome == Refused(INVALID)
    ensures |block| <= MAX_BLOCK_WEIGHT / MIN_SERIALIZABLE_TRANSACTION_WEIGHT ==>
              (outcome == Refused(FAILED) <==> !Distinguishable(block, id, crowded))
    ensures |block| <= 65536 && Distinguishable(block, id, crowded) ==> outcome == Filled(StatusOf(check(block)), block)
    ensures |block| > 65536 ==>
              match outcome
              case Refused(status) => status == INVALID || status == FAILED
              case Unanswered => true
              case Filled(status, vtx) => |vtx| == |block| && vtx[65536] == block[0] && status == StatusOf(check(vtx))
  {
    hide Free, Placed, Slotted, Matched, NoFalseMatch, IsFilled, Counted, Searched, Separate, Roomy, Reply, Asked;
    var short := MakeShortBlock(block, id);
    ShortAccepted(block, id, isNull);
    var receiver := new PartiallyDownloadedBlock(id, whash, isNull, crowded);
    ghost var m, base, have, n, n';
    var status;
    status, m, base, have, n, n' := receiver.InitData(short, false, pool, extra);
    if status != OK {
      return Refused(status);
    }
    var avail := receiver.txnAvailable;
    ghost var count := receiver.mempoolCount;
    var indexes := receiver.MissingIndexes();
    AskedSmall(avail);
    var reply := RequestMissing(block, indexes);
    if |block| <= 65536 {
      ReplyIsRequested(block, avail);
    } else {
      OnlyFirst(block, id, base);
      BeyondIsMissing(base, avail, have, m, short.shorttxids, id, pool + extra, count, 65536);
    }
    if reply == None {
      return Unanswered;
    }
    if |block| > 65536 {
      BeyondIsWrong(block, avail, reply.value);
    }
    ReplySize(block, avail, reply.value);
    var vtx;
    status, vtx := receiver.FillBlock(reply.value, check);
    if |block| <= 65536 {
      SmallBlock(block, pool + extra, id);
      Reconstructed(block, id, base, avail, have, m, pool + extra, count, vtx);
    } else {
      FilledWith(avail, reply.value, vtx, 65536);
    }
    outcome := Filled(status, vtx);
  }

  lemma AskedSmall<Tx>(avail: seq<Option<Tx>>)
    ensures forall i :: 0 <= i < |Asked(avail)| ==> Asked(avail)[i] <= 65535
  {
    hide Free, Low16;
  }

  lemma ReplySize<Tx>(block: seq<Tx>, avail: seq<Option<Tx>>, reply: seq<Tx>)
    requires Reply(block, Asked(avail)) == Some(reply)
    ensures |reply| == |Free(avail, |avail|)|
  {
    hide Free, Readable, Restored;
  }

  lemma SmallBlock<Tx>(block: seq<Tx>, offered: seq<Tx>, id: Tx -> nat)
    requires |block| <= 65536
    ensures NoneBeyond(block, offered, id)
  {
  }

  lemma FilledWith<Tx>(avail: seq<Option<Tx>>, missing: seq<Tx>, vtx: seq<Tx>, p: nat)
    requires IsFilled(avail, missing, vtx) && p < |avail| && avail[p] == None
    ensures |vtx| == |avail| && |Free(avail, p)| < |missing| && vtx[p] == missing[|Free(avail, p)|]
  {
    hide Free;
    assert FilledAt(avail, missing, vtx[p], p);
  }
}
