/**
 The parallel check queue (src/checkqueue.h): a master adds checks and then waits,
 helping worker threads to run them in batches.

 Each critical section of the source is one atomic step, as is each single check run
 outside the lock.  Threads interleave in any order, condition variables may wake
 spuriously, and every statement below is about all reachable states.
 */
module CheckQueue {
  import opened Prelude

  /** A verification, identified, and its outcome when it is run. */
  datatype Check = Check(id: nat, pass: bool)

  type Tid = nat
  const MASTER: Tid := 0

  datatype Thread =
    | Outside
    | Waiting(notified: bool)
    | Running(batch: seq<Check>, next: nat, ok: bool)

  /** What one Wait returned, and the checks added since the previous one. */
  datatype Result = Result(ret: bool, checks: seq<Check>)

  /**
   The shared fields of the queue and the local state of each thread.  The last three
   fields only record history: checks added since the last Wait, those whose batch has
   been merged, and what the calls of Wait returned.
   */
  datatype State = State(queue: seq<Check>, nIdle: int, nTotal: int, fAllOk: bool, nTodo: int, nBatchSize: nat,
                         threads: map<Tid, Thread>,
                         added: seq<Check>, merged: multiset<Check>, results: seq<Result>)

  function Start(nBatchSize: nat, tids: set<Tid>): State {
    State([], 0, 0, true, 0, nBatchSize, map t | t in tids :: Outside, [], multiset{}, [])
  }

  // ----- the steps -----

  datatype Action =
    | Add(checks: seq<Check>, woken: Tid)
    | Enter(t: Tid)
    | RunOne(t: Tid)
    | Finish(t: Tid)
    | Wake(t: Tid)

  /** Only the master adds checks, and not while it is inside Wait. */
  predicate Enabled(s: State, a: Action) {
    match a
    case Add(_, _) => MASTER in s.threads && s.threads[MASTER].Outside?
    case Enter(t) => t in s.threads && s.threads[t].Outside?
    case RunOne(t) => t in s.threads && s.threads[t].Running? && s.threads[t].next < |s.threads[t].batch|
    case Finish(t) => t in s.threads && s.threads[t].Running? && s.threads[t].next >= |s.threads[t].batch|
    case Wake(t) => t in s.threads && s.threads[t].Waiting?
  }

  function Notified(th: Thread): Thread {
    if th.Waiting? then Waiting(true) else th
  }

  /** notify_one wakes `woken`, notify_all every waiting worker. */
  function NotifyWorkers(threads: map<Tid, Thread>, count: nat, woken: Tid): map<Tid, Thread> {
    map t | t in threads ::
      if t != MASTER && (count > 1 || (count == 1 && t == woken)) then Notified(threads[t]) else threads[t]
  }

  function NotifyMaster(threads: map<Tid, Thread>): map<Tid, Thread> {
    if MASTER in threads then threads[MASTER := Notified(threads[MASTER])] else threads
  }

  function BatchSize(s: State): int {
    Max(1, Min(s.nBatchSize, if s.nTotal + s.nIdle + 1 > 0 then |s.queue| / (s.nTotal + s.nIdle + 1) else 0))
  }

  /** The last `n` checks of the queue, newest first, as they are popped. */
  function Popped(queue: seq<Check>, n: nat): (batch: seq<Check>)
    requires n <= |queue|
    ensures |batch| == n && multiset(batch) == multiset(queue[|queue| - n..])
  {
    if n == 0 then []
    else
      var k := |queue| - n;
      assert queue[k..] == [queue[k]] + queue[k + 1..];
      Popped(queue, n - 1) + [queue[k]]
  }

  /** From the top of the inner loop: take a batch, go to sleep, or let the master return. */
  function Decide(s: State, t: Tid): State {
    if s.queue == [] then
      if t == MASTER && s.nTodo == 0 then
        s.(nTotal := s.nTotal - 1, fAllOk := true, threads := s.threads[t := Outside],
           added := [], merged := multiset{}, results := s.results + [Result(s.fAllOk, s.added)])
      else
        s.(nIdle := s.nIdle + 1, threads := s.threads[t := Waiting(false)])
    else if BatchSize(s) <= |s.queue| then
      var n := BatchSize(s);
      s.(queue := s.queue[..|s.queue| - n], threads := s.threads[t := Running(Popped(s.queue, n), 0, s.fAllOk)])
    else s
  }

  /** The state in which a finished thread reaches the top of the loop. */
  function Merged(s: State, t: Tid): State
    requires Enabled(s, Finish(t))
  {
    var th := s.threads[t];
    var todo := s.nTodo - |th.batch|;
    var threads := if todo == 0 && t != MASTER then NotifyMaster(s.threads) else s.threads;
    s.(fAllOk := s.fAllOk && th.ok, nTodo := todo, threads := threads, merged := s.merged + multiset(th.batch))
  }

  function Next(s: State, a: Action): State
    requires Enabled(s, a)
  {
    match a
    case Add(checks, woken) =>
      s.(queue := s.queue + checks, nTodo := s.nTodo + |checks|, added := s.added + checks,
         threads := NotifyWorkers(s.threads, |checks|, woken))
    case Enter(t) => Decide(s.(nTotal := s.nTotal + 1), t)
    case RunOne(t) =>
      var th := s.threads[t];
      s.(threads := s.threads[t := Running(th.batch, th.next + 1, th.ok && th.batch[th.next].pass)])
    case Finish(t) => Decide(Merged(s, t), t)
    case Wake(t) => Decide(s.(nIdle := s.nIdle - 1), t)
  }

  // ----- what threads hold -----

  function HeldBy(th: Thread): multiset<Check> {
    if th.Running? then multiset(th.batch) else multiset{}
  }

  /** All checks in the batches of the threads `tids`. */
  ghost function HeldByAll(threads: map<Tid, Thread>, tids: set<Tid>): multiset<Check> {
    if tids == {} then multiset{}
    else
      var t :| t in tids;
      (if t in threads then HeldBy(threads[t]) else multiset{}) + HeldByAll(threads, tids - {t})
  }

  ghost function InFlight(threads: map<Tid, Thread>): multiset<Check> {
    HeldByAll(threads, threads.Keys)
  }

  lemma {:induction false} HeldRemove(threads: map<Tid, Thread>, tids: set<Tid>, t: Tid)
    requires t in tids && t in threads
    ensures HeldByAll(threads, tids) == HeldBy(threads[t]) + HeldByAll(threads, tids - {t})
  {
    var u :| u in tids
      && HeldByAll(threads, tids) == (if u in threads then HeldBy(threads[u]) else multiset{}) + HeldByAll(threads, tids - {u});
    if u != t {
      HeldRemove(threads, tids - {u}, t);
      assert tids - {u} - {t} == tids - {t} - {u};
      if u in threads {
        HeldRemove(threads, tids - {t}, u);
      } else {
        HeldSkip(threads, tids - {t}, u);
      }
    }
  }

  lemma {:induction false} HeldSkip(threads: map<Tid, Thread>, tids: set<Tid>, u: Tid)
    requires u in tids && u !in threads
    ensures HeldByAll(threads, tids) == HeldByAll(threads, tids - {u})
  {
    var w :| w in tids
      && HeldByAll(threads, tids) == (if w in threads then HeldBy(threads[w]) else multiset{}) + HeldByAll(threads, tids - {w});
    if w != u {
      HeldSkip(threads, tids - {w}, u);
      assert tids - {w} - {u} == tids - {u} - {w};
      if w in threads {
        HeldRemove(threads, tids - {u}, w);
      } else {
        HeldSkip(threads, tids - {u}, w);
      }
    }
  }

  /** Threads that hold the same checks hold them in total. */
  lemma {:induction false} HeldSame(a: map<Tid, Thread>, b: map<Tid, Thread>, tids: set<Tid>)
    requires forall t :: t in tids ==> t in a && t in b && HeldBy(a[t]) == HeldBy(b[t])
    ensures HeldByAll(a, tids) == HeldByAll(b, tids)
  {
    if tids != {} {
      var t :| t in tids;
      HeldRemove(a, tids, t);
      HeldRemove(b, tids, t);
      HeldSame(a, b, tids - {t});
    }
  }

  /** Changing one thread changes what is in flight by what that thread holds. */
  lemma InFlightUpdate(threads: map<Tid, Thread>, t: Tid, th: Thread)
    requires t in threads
    ensures InFlight(threads) == HeldBy(threads[t]) + HeldByAll(threads, threads.Keys - {t})
    ensures InFlight(threads[t := th]) == HeldBy(th) + HeldByAll(threads, threads.Keys - {t})
  {
    hide HeldByAll;
    HeldRemove(threads, threads.Keys, t);
    HeldRemove(threads[t := th], threads.Keys, t);
    assert threads[t := th].Keys == threads.Keys;
    HeldSame(threads, threads[t := th], threads.Keys - {t});
  }

  lemma {:induction false} SomeoneRuns(threads: map<Tid, Thread>, tids: set<Tid>) returns (t: Tid)
    requires tids <= threads.Keys && |HeldByAll(threads, tids)| > 0
    ensures t in threads && threads[t].Running? && threads[t].batch != []
  {
    t :| t in tids;
    HeldRemove(threads, tids, t);
    if HeldBy(threads[t]) == multiset{} {
      t := SomeoneRuns(threads, tids - {t});
    }
  }

  // ----- the invariant -----

  ghost predicate AllPass(checks: multiset<Check>) {
    forall c :: c in checks ==> c.pass
  }

  function WaitingTids(threads: map<Tid, Thread>): set<Tid> {
    set t | t in threads && threads[t].Waiting?
  }

  function InsideTids(threads: map<Tid, Thread>): set<Tid> {
    set t | t in threads && !threads[t].Outside?
  }

  /** nTodo is exactly the queued and the in-flight checks, and none is lost. */
  ghost predicate Accounted(s: State) {
    && s.nTodo == |s.queue| + |InFlight(s.threads)|
    && multiset(s.added) == multiset(s.queue) + InFlight(s.threads) + s.merged
  }

  ghost predicate Counted(s: State) {
    s.nIdle == |WaitingTids(s.threads)| && s.nTotal == |InsideTids(s.threads)|
  }

  /** A local verdict is justified by checks already run in this thread or merged before. */
  ghost predicate Justified(merged: multiset<Check>, th: Thread) {
    th.Running? ==>
      && th.next <= |th.batch| && th.batch != []
      && (th.ok ==> AllPass(multiset(th.batch[..th.next])))
      && (!th.ok ==> !AllPass(merged) || !AllPass(multiset(th.batch[..th.next])))
  }

  ghost predicate Verdicts(s: State) {
    && (s.fAllOk <==> AllPass(s.merged))
    && (forall t :: t in s.threads ==> Justified(s.merged, s.threads[t]))
    && (forall i :: 0 <= i < |s.results| ==> (s.results[i].ret <==> AllPass(multiset(s.results[i].checks))))
  }

  /** A sleeping master leaves nothing in the queue and has been notified exactly when all is done. */
  ghost predicate MasterWakes(s: State) {
    MASTER in s.threads && s.threads[MASTER].Waiting? ==>
      s.queue == [] && (s.threads[MASTER].notified <==> s.nTodo == 0)
  }

  ghost predicate Inv(s: State) {
    MASTER in s.threads && Accounted(s) && Counted(s) && Verdicts(s) && MasterWakes(s)
  }

  // ----- a thread at the top of the inner loop, holding the lock -----

  ghost function OthersHold(s: State, t: Tid): multiset<Check> {
    HeldByAll(s.threads, s.threads.Keys - {t})
  }

  ghost predicate AccountedAt(s: State, t: Tid) {
    && s.nTodo == |s.queue| + |OthersHold(s, t)|
    && multiset(s.added) == multiset(s.queue) + OthersHold(s, t) + s.merged
  }

  ghost predicate CountedAt(s: State, t: Tid) {
    s.nIdle == |WaitingTids(s.threads) - {t}| && s.nTotal == |InsideTids(s.threads) + {t}|
  }

  ghost predicate VerdictsAt(s: State, t: Tid) {
    && (s.fAllOk <==> AllPass(s.merged))
    && (forall u :: u in s.threads && u != t ==> Justified(s.merged, s.threads[u]))
    && (forall i :: 0 <= i < |s.results| ==> (s.results[i].ret <==> AllPass(multiset(s.results[i].checks))))
  }

  /** The invariant while thread `t` is between two states. */
  ghost predicate InvAt(s: State, t: Tid) {
    && MASTER in s.threads && t in s.threads
    && AccountedAt(s, t) && CountedAt(s, t) && VerdictsAt(s, t) && (t != MASTER ==> MasterWakes(s))
  }

  lemma {:induction false} NobodyHolds(threads: map<Tid, Thread>, tids: set<Tid>, u: Tid)
    requires tids <= threads.Keys && |HeldByAll(threads, tids)| == 0 && u in tids
    ensures HeldBy(threads[u]) == multiset{}
  {
    HeldRemove(threads, tids, u);
  }

  lemma CountUpdate(threads: map<Tid, Thread>, t: Tid, th: Thread)
    requires t in threads
    ensures WaitingTids(threads[t := th]) == if th.Waiting? then WaitingTids(threads) - {t} + {t} else WaitingTids(threads) - {t}
    ensures InsideTids(threads[t := th]) == if th.Outside? then InsideTids(threads) + {t} - {t} else InsideTids(threads) + {t}
    ensures threads[t].Waiting? <==> t in WaitingTids(threads)
    ensures threads[t].Outside? <==> t !in InsideTids(threads)
    ensures threads[t].Waiting? == th.Waiting? ==> WaitingTids(threads[t := th]) == WaitingTids(threads)
    ensures threads[t].Outside? == th.Outside? ==> InsideTids(threads[t := th]) == InsideTids(threads)
  {
  }

  lemma NothingFails()
    ensures AllPass(multiset{})
  {
  }

  lemma NobodyRuns(s: State)
    requires VerdictsAt(s, MASTER) && OthersHold(s, MASTER) == multiset{}
    ensures forall u :: u in s.threads && u != MASTER ==> !s.threads[u].Running?
  {
    hide HeldByAll, AllPass;
    forall u | u in s.threads && u != MASTER
      ensures !s.threads[u].Running?
    {
      NobodyHolds(s.threads, s.threads.Keys - {MASTER}, u);
      assert Justified(s.merged, s.threads[u]);
    }
  }

  /** When nothing is left to do, everything added has been merged, so the verdict is final. */
  lemma ReturnKeeps(s: State)
    requires InvAt(s, MASTER) && s.queue == [] && s.nTodo == 0
    ensures Inv(Decide(s, MASTER)) && s.merged == multiset(s.added)
  {
    hide HeldByAll, AllPass, WaitingTids, InsideTids;
    InFlightUpdate(s.threads, MASTER, Outside);
    CountUpdate(s.threads, MASTER, Outside);
    assert OthersHold(s, MASTER) == multiset{};
    assert s.merged == multiset(s.added);
    NobodyRuns(s);
    NothingFails();
  }

  lemma IdleJustified(merged: multiset<Check>)
    ensures Justified(merged, Waiting(false)) && Justified(merged, Outside)
  {
  }

  lemma SleepKeeps(s: State, t: Tid)
    requires InvAt(s, t) && s.queue == [] && !(t == MASTER && s.nTodo == 0)
    ensures Inv(Decide(s, t))
  {
    hide HeldByAll, AllPass, WaitingTids, InsideTids, Justified;
    IdleJustified(s.merged);
    InFlightUpdate(s.threads, t, Waiting(false));
    CountUpdate(s.threads, t, Waiting(false));
  }

  lemma BatchFits(s: State, t: Tid)
    requires CountedAt(s, t) && s.queue != []
    ensures 1 <= BatchSize(s) <= |s.queue|
  {
    assert s.nTotal >= 0 && s.nIdle >= 0;
    DivisionShrinks(|s.queue|, s.nTotal + s.nIdle + 1);
  }

  /**
   The batch is the largest that neither exceeds the limit nor a fair share of the queue among
   all threads and one more, or a single check; it is taken from the end, newest first.
   */
  lemma BatchIs(s: State, t: Tid)
    requires CountedAt(s, t) && s.queue != [] && t in s.threads
    ensures var r := Decide(s, t);
            && r.threads[t].Running? && r.threads[t].next == 0 && r.threads[t].ok == s.fAllOk
            && var batch, threads := r.threads[t].batch, s.nTotal + s.nIdle + 1;
               && 1 <= |batch| <= |s.queue| && r.queue == s.queue[..|s.queue| - |batch|]
               && (forall i :: 0 <= i < |batch| ==> batch[i] == s.queue[|s.queue| - 1 - i])
               && (|batch| > 1 ==> |batch| <= s.nBatchSize && |batch| * threads <= |s.queue|)
               && (forall m :: |batch| < m <= s.nBatchSize ==> m * threads > |s.queue|)
  {
    hide WaitingTids, InsideTids, Popped;
    BatchFits(s, t);
    ShareIs(|s.queue|, s.nTotal + s.nIdle + 1, s.nBatchSize, BatchSize(s));
    forall i | 0 <= i < BatchSize(s)
      ensures Popped(s.queue, BatchSize(s))[i] == s.queue[|s.queue| - 1 - i]
    {
      PoppedAt(s.queue, BatchSize(s), i);
    }
  }

  lemma {:induction false} PoppedAt(queue: seq<Check>, n: nat, i: nat)
    requires i < n <= |queue|
    ensures Popped(queue, n)[i] == queue[|queue| - 1 - i]
  {
    if i < n - 1 {
      PoppedAt(queue, n - 1, i);
    }
  }

  lemma ShareIs(queued: nat, threads: nat, limit: nat, n: int)
    requires threads >= 1 && n == Max(1, Min(limit, queued / threads))
    ensures n > 1 ==> n <= limit && n * threads <= queued
    ensures forall m :: n < m <= limit ==> m * threads > queued
  {
    var q := queued / threads;
    assert q * threads <= queued < q * threads + threads;
    if n > 1 {
      Times(n, q, threads);
    }
    forall m | n < m <= limit
      ensures m * threads > queued
    {
      Times(q + 1, m, threads);
    }
  }

  lemma Times(a: nat, b: nat, c: nat)
    requires a <= b
    ensures a * c <= b * c
  {
  }

  /** Adding several checks notifies every waiting worker, adding one the worker chosen, and nobody else. */
  lemma AddNotifies(s: State, checks: seq<Check>, woken: Tid, t: Tid)
    requires Enabled(s, Add(checks, woken)) && t in s.threads
    ensures var r := Next(s, Add(checks, woken));
            && t in r.threads && r.queue == s.queue + checks && r.nTodo == s.nTodo + |checks|
            && r.threads[t] == (if t != MASTER && s.threads[t].Waiting? && (|checks| > 1 || (|checks| == 1 && t == woken))
                                then Waiting(true) else s.threads[t])
  {
  }

  lemma DivisionShrinks(a: nat, d: nat)
    requires d >= 1
    ensures a / d <= a
  {
  }

  lemma PoppedSplit(queue: seq<Check>, n: nat)
    requires n <= |queue|
    ensures multiset(queue) == multiset(queue[..|queue| - n]) + multiset(Popped(queue, n))
  {
    assert queue == queue[..|queue| - n] + queue[|queue| - n..];
  }

  lemma TakeAccounts(s: State, t: Tid, n: nat)
    requires AccountedAt(s, t) && 1 <= n <= |s.queue| && t in s.threads
    ensures Accounted(s.(queue := s.queue[..|s.queue| - n], threads := s.threads[t := Running(Popped(s.queue, n), 0, s.fAllOk)]))
  {
    hide HeldByAll, Popped;
    InFlightUpdate(s.threads, t, Running(Popped(s.queue, n), 0, s.fAllOk));
    PoppedSplit(s.queue, n);
  }

  lemma FreshVerdict(s: State, t: Tid, n: nat)
    requires VerdictsAt(s, t) && 1 <= n <= |s.queue|
    ensures Justified(s.merged, Running(Popped(s.queue, n), 0, s.fAllOk))
  {
    NothingFails();
    assert Popped(s.queue, n)[..0] == [];
    hide AllPass;
  }

  lemma TakeKeeps(s: State, t: Tid)
    requires InvAt(s, t) && s.queue != []
    ensures Inv(Decide(s, t))
  {
    hide HeldByAll, BatchSize, AllPass, WaitingTids, InsideTids, Justified, Accounted, AccountedAt, Popped;
    BatchFits(s, t);
    var n := BatchSize(s);
    TakeAccounts(s, t, n);
    FreshVerdict(s, t, n);
    CountUpdate(s.threads, t, Running(Popped(s.queue, n), 0, s.fAllOk));
  }

  lemma DecideKeeps(s: State, t: Tid)
    requires InvAt(s, t)
    ensures Inv(Decide(s, t))
  {
    hide Inv, InvAt, Decide;
    if s.queue != [] {
      TakeKeeps(s, t);
    } else if t == MASTER && s.nTodo == 0 {
      ReturnKeeps(s);
    } else {
      SleepKeeps(s, t);
    }
  }

  // ----- every step keeps the invariant -----

  lemma EnterKeeps(s: State, t: Tid)
    requires Inv(s) && Enabled(s, Enter(t))
    ensures InvAt(s.(nTotal := s.nTotal + 1), t)
  {
    hide HeldByAll, AllPass, WaitingTids, InsideTids, Justified;
    InFlightUpdate(s.threads, t, s.threads[t]);
    assert s.threads[t := s.threads[t]] == s.threads;
    CountUpdate(s.threads, t, s.threads[t]);
  }

  lemma WakeKeeps(s: State, t: Tid)
    requires Inv(s) && Enabled(s, Wake(t))
    ensures InvAt(s.(nIdle := s.nIdle - 1), t)
  {
    hide HeldByAll, AllPass, WaitingTids, InsideTids, Justified;
    InFlightUpdate(s.threads, t, s.threads[t]);
    assert s.threads[t := s.threads[t]] == s.threads;
    CountUpdate(s.threads, t, s.threads[t]);
  }

  lemma RunJustified(merged: multiset<Check>, th: Thread)
    requires Justified(merged, th) && th.Running? && th.next < |th.batch|
    ensures Justified(merged, Running(th.batch, th.next + 1, th.ok && th.batch[th.next].pass))
  {
    assert th.batch[..th.next + 1] == th.batch[..th.next] + [th.batch[th.next]];
  }

  lemma RunKeeps(s: State, t: Tid)
    requires Inv(s) && Enabled(s, RunOne(t))
    ensures Inv(Next(s, RunOne(t)))
  {
    hide HeldByAll, AllPass, WaitingTids, InsideTids, Justified;
    RunJustified(s.merged, s.threads[t]);
    var th' := Next(s, RunOne(t)).threads[t];
    InFlightUpdate(s.threads, t, th');
    CountUpdate(s.threads, t, th');
  }

  lemma NotifiedSame(threads: map<Tid, Thread>, threads': map<Tid, Thread>, merged: multiset<Check>)
    requires threads'.Keys == threads.Keys
    requires forall t :: t in threads ==> threads'[t] == threads[t] || threads'[t] == Notified(threads[t])
    ensures WaitingTids(threads') == WaitingTids(threads) && InsideTids(threads') == InsideTids(threads)
    ensures forall t :: t in threads ==> HeldBy(threads'[t]) == HeldBy(threads[t])
    ensures forall t :: t in threads && Justified(merged, threads[t]) ==> Justified(merged, threads'[t])
  {
    hide AllPass;
  }

  lemma AddKeeps(s: State, checks: seq<Check>, woken: Tid)
    requires Inv(s) && Enabled(s, Add(checks, woken))
    ensures Inv(Next(s, Add(checks, woken)))
  {
    hide HeldByAll, AllPass, WaitingTids, InsideTids, Justified, HeldBy;
    var s' := Next(s, Add(checks, woken));
    assert s'.threads.Keys == s.threads.Keys;
    NotifiedSame(s.threads, s'.threads, s.merged);
    HeldSame(s.threads, s'.threads, s.threads.Keys);
  }

  lemma MergedThreads(s: State, t: Tid)
    requires Inv(s) && Enabled(s, Finish(t))
    ensures AccountedAt(Merged(s, t), t) && CountedAt(Merged(s, t), t)
  {
    hide HeldByAll, AllPass, Verdicts, WaitingTids, InsideTids, Justified, MasterWakes;
    var m := Merged(s, t);
    assert m.threads.Keys == s.threads.Keys;
    InFlightUpdate(s.threads, t, s.threads[t]);
    NotifiedSame(s.threads, m.threads, s.merged);
    HeldSame(s.threads, m.threads, s.threads.Keys - {t});
    CountUpdate(s.threads, t, s.threads[t]);
    assert s.threads[t := s.threads[t]] == s.threads;
  }

  lemma MergedMaster(s: State, t: Tid)
    requires Inv(s) && Enabled(s, Finish(t)) && t != MASTER
    ensures MasterWakes(Merged(s, t))
  {
    hide HeldByAll, AllPass, Counted;
    FinishedNonempty(s, t);
    InFlightUpdate(s.threads, t, s.threads[t]);
    assert s.threads[t := s.threads[t]] == s.threads;
  }

  lemma FinishedNonempty(s: State, t: Tid)
    requires Inv(s) && Enabled(s, Finish(t))
    ensures s.threads[t].batch != [] && s.threads[t].next == |s.threads[t].batch|
  {
    assert Justified(s.merged, s.threads[t]);
  }

  lemma MergedVerdicts(s: State, t: Tid)
    requires Inv(s) && Enabled(s, Finish(t))
    ensures VerdictsAt(Merged(s, t), t)
  {
    hide HeldByAll, Accounted, Counted, MasterWakes;
    var m, th := Merged(s, t), s.threads[t];
    assert Justified(s.merged, th);
    assert th.batch[..th.next] == th.batch;
    assert m.fAllOk <==> AllPass(m.merged);
    forall u | u in m.threads && u != t
      ensures Justified(m.merged, m.threads[u])
    {
      assert Justified(s.merged, s.threads[u]);
    }
  }

  lemma StepKeeps(s: State, a: Action)
    requires Inv(s) && Enabled(s, a)
    ensures Inv(Next(s, a))
  {
    hide Inv, Decide, AccountedAt, CountedAt, VerdictsAt, MasterWakes;
    match a
    case Add(checks, woken) => AddKeeps(s, checks, woken);
    case RunOne(t) => RunKeeps(s, t);
    case Enter(t) =>
      EnterKeeps(s, t);
      DecideKeeps(s.(nTotal := s.nTotal + 1), t);
    case Wake(t) =>
      WakeKeeps(s, t);
      DecideKeeps(s.(nIdle := s.nIdle - 1), t);
    case Finish(t) =>
      MergedThreads(s, t);
      MergedVerdicts(s, t);
      MasterThere(s, t);
      if t != MASTER {
        MergedMaster(s, t);
      }
      DecideKeeps(Merged(s, t), t);
  }

  lemma MasterThere(s: State, t: Tid)
    requires Inv(s) && Enabled(s, Finish(t))
    ensures MASTER in Merged(s, t).threads
  {
  }

  // ----- every run -----

  predicate Legal(s: State, acts: seq<Action>)
    decreases |acts|
  {
    acts == [] || (Enabled(s, acts[0]) && Legal(Next(s, acts[0]), acts[1..]))
  }

  function Run(s: State, acts: seq<Action>): State
    requires Legal(s, acts)
    decreases |acts|
  {
    if acts == [] then s else Run(Next(s, acts[0]), acts[1..])
  }

  lemma StartInv(nBatchSize: nat, tids: set<Tid>)
    requires MASTER in tids
    ensures Inv(Start(nBatchSize, tids))
  {
    hide HeldByAll;
    var s := Start(nBatchSize, tids);
    assert WaitingTids(s.threads) == {} && InsideTids(s.threads) == {};
    NobodyYet(s.threads, tids);
    assert s.threads.Keys == tids;
  }

  lemma {:induction false} NobodyYet(threads: map<Tid, Thread>, tids: set<Tid>)
    requires forall t :: t in tids ==> t in threads && threads[t].Outside?
    ensures HeldByAll(threads, tids) == multiset{}
  {
    if tids != {} {
      var t :| t in tids;
      HeldRemove(threads, tids, t);
      NobodyYet(threads, tids - {t});
    }
  }

  lemma {:induction false} RunInv(s: State, acts: seq<Action>)
    requires Inv(s) && Legal(s, acts)
    ensures Inv(Run(s, acts))
    decreases |acts|
  {
    hide Inv, Next;
    if acts != [] {
      StepKeeps(s, acts[0]);
      RunInv(Next(s, acts[0]), acts[1..]);
    }
  }

  /**
   Over every interleaving: nTodo counts exactly the queued and in-flight checks, and
   each Wait returned true exactly when all checks added since the previous one pass.
   */
  lemma EveryInterleaving(nBatchSize: nat, tids: set<Tid>, acts: seq<Action>)
    requires MASTER in tids && Legal(Start(nBatchSize, tids), acts)
    ensures var s := Run(Start(nBatchSize, tids), acts);
            && Inv(s) && s.nTodo == |s.queue| + |InFlight(s.threads)|
            && forall i :: 0 <= i < |s.results| ==>
                 (s.results[i].ret <==> forall c :: c in s.results[i].checks ==> c.pass)
  {
    hide Next, HeldByAll;
    StartInv(nBatchSize, tids);
    RunInv(Start(nBatchSize, tids), acts);
    var s := Run(Start(nBatchSize, tids), acts);
    forall i | 0 <= i < |s.results|
      ensures s.results[i].ret <==> forall c :: c in s.results[i].checks ==> c.pass
    {
      assert s.results[i].ret <==> AllPass(multiset(s.results[i].checks));
      assert forall c :: c in s.results[i].checks <==> c in multiset(s.results[i].checks);
    }
  }

  // ----- the master is never left asleep -----

  /** A master that sleeps unnotified waits for some worker's unfinished batch. */
  lemma SleepingMasterHasWorker(s: State) returns (t: Tid)
    requires Inv(s) && s.threads[MASTER] == Waiting(false)
    ensures t != MASTER && t in s.threads && s.threads[t].Running?
  {
    hide HeldByAll, AllPass;
    t := SomeoneRuns(s.threads, s.threads.Keys);
  }

  /** The worker that merges the last batch notifies a sleeping master. */
  lemma LastMergeNotifies(s: State, t: Tid)
    requires Inv(s) && Enabled(s, Finish(t)) && s.threads[MASTER].Waiting? && s.nTodo == |s.threads[t].batch|
    ensures Next(s, Finish(t)).threads[MASTER] == Waiting(true)
  {
    hide HeldByAll, AllPass, Counted, Verdicts;
  }

  /** A notified master returns at once, with the verdict on everything it added. */
  lemma NotifiedMasterReturns(s: State)
    requires Inv(s) && s.threads[MASTER] == Waiting(true)
    ensures var s' := Next(s, Wake(MASTER));
            && s'.threads[MASTER].Outside? && s'.added == [] && s'.fAllOk
            && |s'.results| == |s.results| + 1 && s'.results[|s.results|].checks == s.added
            && (s'.results[|s.results|].ret <==> AllPass(multiset(s.added)))
  {
    hide HeldByAll, AllPass, Counted;
    WakeKeeps(s, MASTER);
    ReturnKeeps(s.(nIdle := s.nIdle - 1));
  }

  // ----- work left -----

  /** Three units per queued check; per running thread its checks to run and one for the merge. */
  function LoadOf(th: Thread): nat {
    if th.Running? && th.next <= |th.batch| then |th.batch| - th.next + 1 else 0
  }

  ghost function Load(threads: map<Tid, Thread>, tids: set<Tid>): nat {
    if tids == {} then 0
    else
      var t :| t in tids;
      (if t in threads then LoadOf(threads[t]) else 0) + Load(threads, tids - {t})
  }

  lemma {:induction false} LoadRemove(threads: map<Tid, Thread>, tids: set<Tid>, t: Tid)
    requires t in tids
    ensures Load(threads, tids) == (if t in threads then LoadOf(threads[t]) else 0) + Load(threads, tids - {t})
  {
    var u :| u in tids
      && Load(threads, tids) == (if u in threads then LoadOf(threads[u]) else 0) + Load(threads, tids - {u});
    if u != t {
      LoadRemove(threads, tids - {u}, t);
      LoadRemove(threads, tids - {t}, u);
      assert tids - {u} - {t} == tids - {t} - {u};
    }
  }

  lemma {:induction false} LoadSame(a: map<Tid, Thread>, b: map<Tid, Thread>, tids: set<Tid>)
    requires forall t :: t in tids ==> t in a && t in b && LoadOf(a[t]) == LoadOf(b[t])
    ensures Load(a, tids) == Load(b, tids)
  {
    if tids != {} {
      var t :| t in tids;
      LoadRemove(a, tids, t);
      LoadRemove(b, tids, t);
      LoadSame(a, b, tids - {t});
    }
  }

  ghost function Work(s: State): nat {
    3 * |s.queue| + Load(s.threads, s.threads.Keys)
  }

  lemma LoadUpdate(threads: map<Tid, Thread>, t: Tid, th: Thread)
    requires t in threads
    ensures Load(threads, threads.Keys) == LoadOf(threads[t]) + Load(threads, threads.Keys - {t})
    ensures Load(threads[t := th], threads[t := th].Keys) == LoadOf(th) + Load(threads, threads.Keys - {t})
  {
    hide Load, LoadOf;
    assert threads[t := th].Keys == threads.Keys;
    LoadRemove(threads, threads.Keys, t);
    LoadRemove(threads[t := th], threads.Keys, t);
    LoadSame(threads, threads[t := th], threads.Keys - {t});
  }

  lemma DecideWork(s: State, t: Tid)
    requires CountedAt(s, t) && t in s.threads
    ensures Work(Decide(s, t)) <= 3 * |s.queue| + Load(s.threads, s.threads.Keys - {t})
    ensures s.queue != [] ==> Work(Decide(s, t)) < 3 * |s.queue| + Load(s.threads, s.threads.Keys - {t})
  {
    hide Load, BatchSize, CountedAt, Popped;
    if s.queue == [] {
      LoadUpdate(s.threads, t, Decide(s, t).threads[t]);
    } else {
      BatchFits(s, t);
      LoadUpdate(s.threads, t, Running(Popped(s.queue, BatchSize(s)), 0, s.fAllOk));
    }
  }

  /** Running a check or merging a batch always leaves strictly less work, so batches run out. */
  lemma WorkShrinks(s: State, t: Tid)
    requires Inv(s)
    ensures Enabled(s, RunOne(t)) ==> Work(Next(s, RunOne(t))) < Work(s)
    ensures Enabled(s, Finish(t)) ==> Work(Next(s, Finish(t))) < Work(s)
  {
    hide Load, Inv, Decide, CountedAt, AccountedAt;
    if Enabled(s, RunOne(t)) {
      LoadUpdate(s.threads, t, Next(s, RunOne(t)).threads[t]);
    }
    if Enabled(s, Finish(t)) {
      FinishedNonempty(s, t);
      MergedThreads(s, t);
      var m := Merged(s, t);
      DecideWork(m, t);
      LoadUpdate(s.threads, t, s.threads[t]);
      assert m.threads.Keys == s.threads.Keys;
      LoadSame(s.threads, m.threads, s.threads.Keys - {t});
    }
  }

  predicate Progress(a: Action) {
    a.RunOne? || a.Finish?
  }

  /** Apart from Add, every step keeps the work left, and a step of progress lessens it. */
  lemma StepWork(s: State, a: Action)
    requires Inv(s) && Enabled(s, a) && !a.Add?
    ensures Work(Next(s, a)) + (if Progress(a) then 1 else 0) <= Work(s)
  {
    hide Inv, Work, InvAt;
    match a
    case RunOne(t) => WorkShrinks(s, t);
    case Finish(t) => WorkShrinks(s, t);
    case Enter(t) =>
      EnterKeeps(s, t);
      ArriveWork(s, s.(nTotal := s.nTotal + 1), t);
    case Wake(t) =>
      WakeKeeps(s, t);
      ArriveWork(s, s.(nIdle := s.nIdle - 1), t);
  }

  lemma ArriveWork(s: State, s': State, t: Tid)
    requires InvAt(s', t) && s'.queue == s.queue && s'.threads == s.threads
    ensures Work(Decide(s', t)) <= Work(s)
  {
    hide Load, Decide, AccountedAt, CountedAt, VerdictsAt, MasterWakes;
    DecideWork(s', t);
    LoadUpdate(s.threads, t, s.threads[t]);
  }

  function ProgressCount(acts: seq<Action>): nat {
    if acts == [] then 0 else (if Progress(acts[0]) then 1 else 0) + ProgressCount(acts[1..])
  }

  lemma {:induction false} RunWork(s: State, acts: seq<Action>)
    requires Inv(s) && Legal(s, acts) && forall i :: 0 <= i < |acts| ==> !acts[i].Add?
    ensures Work(Run(s, acts)) + ProgressCount(acts) <= Work(s)
    decreases |acts|
  {
    hide Inv, Next, Work;
    if acts != [] {
      StepKeeps(s, acts[0]);
      StepWork(s, acts[0]);
      RunWork(Next(s, acts[0]), acts[1..]);
    }
  }

  /** No thread has a check to run or a batch to merge. */
  ghost predicate Quiet(s: State) {
    forall t :: !Enabled(s, RunOne(t)) && !Enabled(s, Finish(t))
  }

  /** An unnotified master waits for a batch that some worker can still run or merge. */
  lemma SleepingNotQuiet(s: State)
    requires Inv(s) && s.threads[MASTER] == Waiting(false)
    ensures !Quiet(s)
  {
    hide Inv;
    var t := SleepingMasterHasWorker(s);
    assert Enabled(s, RunOne(t)) || Enabled(s, Finish(t));
  }

  lemma NoWorkQuiet(s: State)
    requires Inv(s) && Work(s) == 0
    ensures Quiet(s)
  {
    hide Inv, Work, Next;
    forall t
      ensures !Enabled(s, RunOne(t)) && !Enabled(s, Finish(t))
    {
      WorkShrinks(s, t);
    }
  }

  /** A master inside Wait has been notified, and on waking returns the verdict on all it added. */
  ghost predicate WouldReturn(s: State) {
    MASTER in s.threads && s.threads[MASTER].Waiting? ==>
      var w := Next(s, Wake(MASTER));
      && s.threads[MASTER].notified && MASTER in w.threads && w.threads[MASTER].Outside?
      && w.results == s.results + [Result(AllPass(multiset(s.added)), s.added)]
  }

  lemma QuietReturns(s: State)
    requires Inv(s) && Quiet(s)
    ensures WouldReturn(s)
  {
    hide HeldByAll, AllPass, Counted, Verdicts, Quiet;
    if s.threads[MASTER] == Waiting(false) {
      SleepingNotQuiet(s);
    } else if s.threads[MASTER] == Waiting(true) {
      NotifiedMasterReturns(s);
    }
  }

  /**
   The master is never left asleep.  However the threads interleave, from the moment
   the master stops adding at most Work(s) checks are run and batches merged, and
   whenever there is none left to run or merge a master inside Wait is about to return.
   */
  lemma WaitEnds(nBatchSize: nat, tids: set<Tid>, before: seq<Action>, acts: seq<Action>)
    requires MASTER in tids && Legal(Start(nBatchSize, tids), before)
    requires Legal(Run(Start(nBatchSize, tids), before), acts) && forall i :: 0 <= i < |acts| ==> !acts[i].Add?
    ensures var s := Run(Start(nBatchSize, tids), before);
            && ProgressCount(acts) <= Work(s)
            && (ProgressCount(acts) == Work(s) ==> Quiet(Run(s, acts)))
            && (Quiet(Run(s, acts)) ==> WouldReturn(Run(s, acts)))
  {
    hide Inv, Next, Work, Quiet, WouldReturn;
    StartInv(nBatchSize, tids);
    var s := Run(Start(nBatchSize, tids), before);
    RunInv(Start(nBatchSize, tids), before);
    RunInv(s, acts);
    RunWork(s, acts);
    if Work(Run(s, acts)) == 0 {
      NoWorkQuiet(Run(s, acts));
    }
    if Quiet(Run(s, acts)) {
      QuietReturns(Run(s, acts));
    }
  }
}
