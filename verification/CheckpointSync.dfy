/**
 Synchronised checkpoints (src/checkpointsync.cpp): a broadcast checkpoint is accepted only
 when it descends from the one in force.  Signature and database outcomes are inputs.
 */
module CheckpointSync {
  import opened Chain

  type Hash = nat

  /** The null hash. */
  const NULL: Hash := 0

  /** `b` lies above `a` on one branch. */
  ghost predicate Above(b: BlockIndex, a: BlockIndex) {
    Rooted(a) && Rooted(b) && a.nHeight < b.nHeight && Ancestor(b, a.nHeight) == a
  }

  lemma AboveTwice(c: BlockIndex, b: BlockIndex, a: BlockIndex)
    requires Above(c, b) && Above(b, a)
    ensures Above(c, a)
  {
    hide Rooted, Ancestor;
    AncestorTwice(c, b.nHeight, a.nHeight);
  }

  /** Blocks are filed under their hashes, together with their parents. */
  ghost predicate Indexed(m: map<Hash, BlockIndex>, hash: BlockIndex -> Hash) {
    forall h :: h in m ==>
      && h != NULL && hash(m[h]) == h && Rooted(m[h])
      && (m[h].pprev != null ==> Filed(m, hash, m[h].pprev))
  }

  ghost predicate Filed(m: map<Hash, BlockIndex>, hash: BlockIndex -> Hash, b: BlockIndex) {
    hash(b) in m && m[hash(b)] == b
  }

  lemma {:induction false} AncestorFiled(m: map<Hash, BlockIndex>, hash: BlockIndex -> Hash, b: BlockIndex, height: nat)
    requires Indexed(m, hash) && Filed(m, hash, b) && Rooted(b) && height <= b.nHeight
    ensures Filed(m, hash, Ancestor(b, height))
    decreases b.nHeight
  {
    if height < b.nHeight {
      AncestorFiled(m, hash, b.pprev, height);
    }
  }

  /** Walks down parents to a height. */
  method TraceBack(from: BlockIndex, height: nat) returns (p: BlockIndex)
    requires Rooted(from) && height <= from.nHeight
    ensures p == Ancestor(from, height)
  {
    hide Rooted, Ancestor;
    AncestorSelf(from);
    p := from;
    while p.nHeight > height
      invariant height <= p.nHeight <= from.nHeight && p == Ancestor(from, p.nHeight)
      decreases p.nHeight
    {
      ParentOf(from, p.nHeight);
      assert p.pprev != null;
      p := p.pprev;
    }
  }

  class SyncCheckpoints {
    const hash: BlockIndex -> Hash
    var mapBlockIndex: map<Hash, BlockIndex>
    var hashSyncCheckpoint: Hash
    var hashPendingCheckpoint: Hash
    var hashInvalidCheckpoint: Hash
    /** The blocks that have been checkpoints since the start or the last reset. */
    ghost var accepted: seq<BlockIndex>

    /** The current checkpoint is known, and each checkpoint lies above all before it. */
    ghost predicate Valid()
      reads this
    {
      && Indexed(mapBlockIndex, hash) && hashSyncCheckpoint in mapBlockIndex
      && accepted != [] && accepted[|accepted| - 1] == mapBlockIndex[hashSyncCheckpoint]
      && (forall i, j :: 0 <= i < j < |accepted| ==> Above(accepted[j], accepted[i]))
    }

    ghost function Current(): (b: BlockIndex)
      requires Valid()
      reads this
      ensures Rooted(b) && Filed(mapBlockIndex, hash, b)
    {
      mapBlockIndex[hashSyncCheckpoint]
    }

    /** Known, and above the current checkpoint. */
    ghost predicate Newer(h: Hash)
      requires Valid()
      reads this
    {
      h in mapBlockIndex && Above(mapBlockIndex[h], Current())
    }

    /** Known, and not on the branch of the current checkpoint. */
    ghost predicate Conflicting(h: Hash)
      requires Valid()
      reads this
    {
      && h in mapBlockIndex && mapBlockIndex[h] != Current()
      && !Above(mapBlockIndex[h], Current()) && !Above(Current(), mapBlockIndex[h])
    }

    constructor (hash: BlockIndex -> Hash, genesis: BlockIndex)
      requires Rooted(genesis) && genesis.pprev == null && hash(genesis) != NULL
      ensures Valid() && accepted == [genesis]
    {
      this.hash := hash;
      mapBlockIndex := map[hash(genesis) := genesis];
      hashSyncCheckpoint, hashPendingCheckpoint, hashInvalidCheckpoint := hash(genesis), NULL, NULL;
      accepted := [genesis];
    }

    /** A block whose parent is known enters the index. */
    method AddBlock(b: BlockIndex)
      requires Valid() && Rooted(b) && hash(b) != NULL && hash(b) !in mapBlockIndex
      requires b.pprev != null ==> Filed(mapBlockIndex, hash, b.pprev)
      modifies this`mapBlockIndex
      ensures Valid() && mapBlockIndex == old(mapBlockIndex)[hash(b) := b] && Current() == old(Current())
    {
      hide Above, Rooted;
      mapBlockIndex := mapBlockIndex[hash(b) := b];
    }

    /** Accepts exactly the newer ones, and remembers exactly the conflicting ones. */
    method ValidateSyncCheckpoint(h: Hash) returns (ok: bool)
      requires Valid()
      modifies this`hashInvalidCheckpoint
      ensures Valid() && (ok <==> Newer(h))
      ensures hashInvalidCheckpoint == if Conflicting(h) then h else old(hashInvalidCheckpoint)
    {
      hide Rooted, Ancestor;
      if hashSyncCheckpoint !in mapBlockIndex || h !in mapBlockIndex {
        return false;
      }
      var current, received := mapBlockIndex[hashSyncCheckpoint], mapBlockIndex[h];
      if received.nHeight <= current.nHeight {
        var p := TraceBack(current, received.nHeight);
        AncestorFiled(mapBlockIndex, hash, current, received.nHeight);
        AncestorSelf(current);
        if hash(p) != h {
          hashInvalidCheckpoint := h;
        }
        return false;
      }
      var p := TraceBack(received, current.nHeight);
      AncestorFiled(mapBlockIndex, hash, received, current.nHeight);
      if hash(p) != hashSyncCheckpoint {
        hashInvalidCheckpoint := h;
        return false;
      }
      ok := true;
    }

    /** The checkpoint in force becomes what the database has taken. */
    method WriteSyncCheckpoint(h: Hash, written: bool) returns (ok: bool)
      modifies this`hashSyncCheckpoint
      ensures ok == written && hashSyncCheckpoint == (if ok then h else old(hashSyncCheckpoint))
    {
      if !written {
        return false;
      }
      hashSyncCheckpoint := h;
      ok := true;
    }

    /** A newer checkpoint takes over when it is written, and lies above all before it. */
    method Advance(h: Hash, written: bool) returns (ok: bool)
      requires Valid() && Newer(h)
      modifies this`hashSyncCheckpoint, this`accepted
      ensures Valid() && ok == written
      ensures hashSyncCheckpoint == (if ok then h else old(hashSyncCheckpoint))
      ensures accepted == if ok then old(accepted) + [mapBlockIndex[h]] else old(accepted)
    {
      hide Above, Indexed;
      ghost var b := mapBlockIndex[h];
      forall i | 0 <= i < |accepted|
        ensures Above(b, accepted[i])
      {
        if i < |accepted| - 1 {
          AboveTwice(b, accepted[|accepted| - 1], accepted[i]);
        }
      }
      ok := WriteSyncCheckpoint(h, written);
      if ok {
        accepted := accepted + [b];
      }
    }

    /**
     Falls back to the latest hardened checkpoint, or to the genesis block while that is not on
     the active chain; a hardened checkpoint not yet known is kept for later.  This is the only
     step that can leave the branch above the checkpoints before it.
     */
    method ResetSyncCheckpoint(hardened: Hash, genesis: Hash, active: set<Hash>, written: bool) returns (ok: bool)
      requires Valid() && genesis in mapBlockIndex
      modifies this`hashSyncCheckpoint, this`hashPendingCheckpoint, this`accepted
      ensures Valid() && ok == written
      ensures hashPendingCheckpoint == if hardened in mapBlockIndex then old(hashPendingCheckpoint) else hardened
      ensures hashSyncCheckpoint ==
                if !ok then old(hashSyncCheckpoint)
                else if hardened in mapBlockIndex && hardened in active then hardened else genesis
      ensures accepted == if ok then [Current()] else old(accepted)
    {
      if hardened !in mapBlockIndex {
        hashPendingCheckpoint := hardened;
      }
      ok := WriteSyncCheckpoint(if hardened in mapBlockIndex && hardened in active then hardened else genesis, written);
      if ok {
        accepted := [mapBlockIndex[hashSyncCheckpoint]];
      }
    }

    /** A checkpoint message: kept for later when the block is unknown, else accepted if newer. */
    method ProcessSyncCheckpoint(h: Hash, signed: bool, written: bool) returns (ok: bool)
      requires Valid()
      modifies this`hashSyncCheckpoint, this`hashPendingCheckpoint, this`hashInvalidCheckpoint, this`accepted
      ensures Valid() && (ok <==> signed && old(Newer(h)) && written)
      ensures hashSyncCheckpoint == (if ok then h else old(hashSyncCheckpoint))
      ensures accepted == if ok then old(accepted) + [mapBlockIndex[h]] else old(accepted)
      ensures hashPendingCheckpoint ==
                if ok then NULL else if signed && h !in mapBlockIndex then h else old(hashPendingCheckpoint)
      ensures hashInvalidCheckpoint == if signed && old(Conflicting(h)) then h else old(hashInvalidCheckpoint)
    {
      hide Above, Indexed;
      if !signed {
        return false;
      }
      if h !in mapBlockIndex {
        hashPendingCheckpoint := h;
        return false;
      }
      var valid := ValidateSyncCheckpoint(h);
      if !valid {
        return false;
      }
      ok := Advance(h, written);
      if ok {
        hashPendingCheckpoint := NULL;
      }
    }

    /** A checkpoint kept for later is tried once its block is known. */
    method AcceptPendingSyncCheckpoint(written: bool) returns (ok: bool)
      requires Valid()
      modifies this`hashSyncCheckpoint, this`hashPendingCheckpoint, this`hashInvalidCheckpoint, this`accepted
      ensures Valid() && (ok <==> old(Newer(hashPendingCheckpoint)) && written)
      ensures hashSyncCheckpoint == (if ok then old(hashPendingCheckpoint) else old(hashSyncCheckpoint))
      ensures accepted == if ok then old(accepted) + [mapBlockIndex[old(hashPendingCheckpoint)]] else old(accepted)
      ensures hashPendingCheckpoint ==
                if old(hashPendingCheckpoint) in mapBlockIndex && (ok || !old(Newer(hashPendingCheckpoint))) then NULL
                else old(hashPendingCheckpoint)
      ensures hashInvalidCheckpoint ==
                if old(Conflicting(hashPendingCheckpoint)) then old(hashPendingCheckpoint) else old(hashInvalidCheckpoint)
    {
      hide Above;
      if hashPendingCheckpoint != NULL && hashPendingCheckpoint in mapBlockIndex {
        var valid := ValidateSyncCheckpoint(hashPendingCheckpoint);
        if !valid {
          hashPendingCheckpoint := NULL;
          return false;
        }
        ok := Advance(hashPendingCheckpoint, written);
        if ok {
          hashPendingCheckpoint := NULL;
        }
        return;
      }
      ok := false;
    }

    /**
     Messages naming known blocks of one branch, in any order and with any repetition, lead to
     the highest of them or leave a higher current checkpoint in force.
     */
    method Deliver(messages: seq<Hash>, ghost tip: BlockIndex)
      requires Valid() && OnBranch(Current(), tip)
      requires forall i :: 0 <= i < |messages| ==> messages[i] in mapBlockIndex && OnBranch(mapBlockIndex[messages[i]], tip)
      modifies this`hashSyncCheckpoint, this`hashPendingCheckpoint, this`hashInvalidCheckpoint, this`accepted
      ensures Valid() && OnBranch(Current(), tip)
      ensures Current() == old(Current()) || exists i :: 0 <= i < |messages| && Current() == mapBlockIndex[messages[i]]
      ensures old(Current()).nHeight <= Current().nHeight
      ensures forall i :: 0 <= i < |messages| ==> mapBlockIndex[messages[i]].nHeight <= Current().nHeight
      ensures hashInvalidCheckpoint == old(hashInvalidCheckpoint)
    {
      hide Above, Indexed, OnBranch;
      for k := 0 to |messages|
        invariant Valid() && OnBranch(Current(), tip) && hashInvalidCheckpoint == old(hashInvalidCheckpoint)
        invariant Current() == old(Current()) || exists i :: 0 <= i < k && Current() == mapBlockIndex[messages[i]]
        invariant old(Current()).nHeight <= Current().nHeight
        invariant forall i :: 0 <= i < k ==> mapBlockIndex[messages[i]].nHeight <= Current().nHeight
      {
        var b := mapBlockIndex[messages[k]];
        OneBranch(b, Current(), tip);
        var ok := ProcessSyncCheckpoint(messages[k], true, true);
      }
    }
  }

  /** A block or one above it. */
  ghost predicate OnBranch(b: BlockIndex, tip: BlockIndex) {
    Rooted(b) && Rooted(tip) && b.nHeight <= tip.nHeight && Ancestor(tip, b.nHeight) == b
  }

  /** On one branch the higher block is above the lower one. */
  lemma OneBranch(a: BlockIndex, b: BlockIndex, tip: BlockIndex)
    requires OnBranch(a, tip) && OnBranch(b, tip)
    ensures Above(a, b) <==> a.nHeight > b.nHeight
    ensures Above(b, a) <==> b.nHeight > a.nHeight
    ensures a == b <==> a.nHeight == b.nHeight
  {
    hide Rooted, Ancestor;
    if a.nHeight >= b.nHeight {
      AncestorTwice(tip, a.nHeight, b.nHeight);
    }
    if b.nHeight >= a.nHeight {
      AncestorTwice(tip, b.nHeight, a.nHeight);
    }
  }
}
