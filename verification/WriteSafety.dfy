// With a scan that never overlaps a recorded write: resolved intents stay as they are, and no write
// that took effect on a path left alone is lost.
module WriteSafety {
  import opened FileDomain
  import opened IntentLog
  import opened Reconciliation
  import opened WriteProtocol
  import opened WriteHonesty

  predicate ScanAction(a: Action) {
    a.ListBatch? || a.ScanStat? || a.ScanAbort? || a.ScanRetry? || a.ScanUpsert? || a.ScanMark?
  }

  // The scan works only while no write is in flight, and no write starts while it works.
  predicate Exclusive(w: World, a: Action) {
    && (ScanAction(a) ==> w.running == map[])
    && (a.Start? ==> w.scan.Idle?)
  }

  predicate ExclusiveRun(w: World, run: seq<Action>, cfg: Config)
    requires Possible(w, run, cfg)
    decreases |run|
  {
    run == [] || (Exclusive(w, run[0]) && ExclusiveRun(Next(w, run[0], cfg), run[1..], cfg))
  }

  // ---- Who holds an intent id ----

  ghost predicate PendingIfPresent(j: Log, id: string) {
    forall k :: 0 <= k < |j| && j[k].id == id ==> j[k].status.Pending?
  }

  predicate HoldsItem(scan: Scan) {
    scan.Statted? || scan.Retrying? || scan.ToMark?
  }

  ghost predicate ScanOwns(j: Log, scan: Scan) {
    && (!scan.Idle? ==>
          && UniqueIds(scan.queue)
          && forall k :: 0 <= k < |scan.queue| ==> PendingIfPresent(j, scan.queue[k].id))
    && (HoldsItem(scan) ==>
          && PendingIfPresent(j, scan.it.id)
          && forall k :: 0 <= k < |scan.queue| ==> scan.queue[k].id != scan.it.id)
  }

  // Every intent in somebody's hands is pending, and the two kinds of hands are never at work together.
  ghost predicate Owned(w: World) {
    && (w.running != map[] ==> w.scan.Idle?)
    && (forall id :: id in w.running ==> PendingIfPresent(w.store.journal, id))
    && ScanOwns(w.store.journal, w.scan)
  }

  // Resolved entries are as before.
  ghost predicate Keeps(j: Log, j': Log) {
    |j| <= |j'| && forall k :: 0 <= k < |j| && !j[k].status.Pending? ==> j'[k] == j[k]
  }

  lemma MarkKeepsResolved(j: Log, id: string, st: Status, applied: bool)
    requires PendingIfPresent(j, id)
    ensures Keeps(j, MarkedIf(j, id, st, applied))
    ensures forall other :: other != id && PendingIfPresent(j, other) ==>
              PendingIfPresent(MarkedIf(j, id, st, applied), other)
  {
  }

  lemma AttemptKeepsResolved(j: Log, id: string)
    requires PendingIfPresent(j, id)
    ensures Keeps(j, WithAttempt(j, id))
    ensures forall other :: PendingIfPresent(j, other) ==> PendingIfPresent(WithAttempt(j, id), other)
  {
  }

  lemma StartOwned(w: World, req: Request, enqueue: CallResult, cfg: Config)
    requires Honest(w, cfg) && Owned(w) && req.id !in w.past.used && w.scan.Idle?
    ensures var w' := StartRun(w, req, enqueue); Owned(w') && Keeps(w.store.journal, w'.store.journal)
  {
    var j, j' := w.store.journal, StartRun(w, req, enqueue).store.journal;
    assert !HasId(j, req.id);
    assert j' == j || j' == j + [IntentOf(req)];
  }

  lemma FinishOwned(w: World, id: string, applied: bool, cfg: Config)
    requires Owned(w) && id in w.running
    ensures var w' := FinishDoneRun(w, id, applied); Owned(w') && Keeps(w.store.journal, w'.store.journal)
    ensures w.running[id].phase.Failing? ==>
              var w' := FinishAbortedRun(w, id, applied); Owned(w') && Keeps(w.store.journal, w'.store.journal)
  {
    MarkKeepsResolved(w.store.journal, id, Done, applied);
    MarkKeepsResolved(w.store.journal, id, Aborted, applied);
  }

  lemma ListOwned(w: World, n: nat, cfg: Config)
    requires Honest(w, cfg) && Owned(w) && w.running == map[]
    ensures Owned(w.(scan := Scanning(Take(PendingOf(w.store.journal), n))))
  {
    var j, batch := w.store.journal, Take(PendingOf(w.store.journal), n);
    BatchInSync(j, n);
    forall k | 0 <= k < |batch| ensures PendingIfPresent(j, batch[k].id) {
      var p := PositionOf(j, batch[k]);
      forall i | 0 <= i < |j| && j[i].id == j[p].id ensures i == p {
        assert !(i < p) && !(p < i);
      }
    }
  }

  lemma ScanMarkOwned(w: World, st: Status, applied: bool, cfg: Config)
    requires Owned(w) && HoldsItem(w.scan)
    ensures var j' := MarkedIf(w.store.journal, w.scan.it.id, st, applied);
            Keeps(w.store.journal, j') && ScanOwns(j', Scanning(w.scan.queue))
  {
    MarkKeepsResolved(w.store.journal, w.scan.it.id, st, applied);
  }

  lemma RetryOwned(w: World, applied: bool, cfg: Config)
    requires Owned(w) && w.running == map[] && (w.scan.Retrying? || w.scan.Statted?)
    ensures var w' := RetryScan(w, applied, cfg); Owned(w') && Keeps(w.store.journal, w'.store.journal)
  {
    ScanMarkOwned(w, Aborted, applied, cfg);
    AttemptKeepsResolved(w.store.journal, w.scan.it.id);
  }

  lemma ScanStepKeepsOwned(w: World, a: Action, cfg: Config)
    requires Honest(w, cfg) && Owned(w) && Enabled(w, a) && ScanAction(a) && w.running == map[]
    ensures Owned(Next(w, a, cfg))
    ensures Keeps(w.store.journal, Next(w, a, cfg).store.journal)
  {
    match a
    case ListBatch => ListOwned(w, cfg.batchSize, cfg);
    case ScanStat(mode) =>
    case ScanAbort(applied) => ScanMarkOwned(w, Aborted, applied, cfg);
    case ScanRetry(applied) => RetryOwned(w, applied, cfg);
    case ScanUpsert(result) =>
    case ScanMark(applied) => ScanMarkOwned(w, Done, applied, cfg);
  }

  lemma OtherStepKeepsOwned(w: World, a: Action, cfg: Config)
    requires Honest(w, cfg) && Owned(w) && Enabled(w, a) && !ScanAction(a) && (a.Start? ==> w.scan.Idle?)
    ensures Owned(Next(w, a, cfg))
    ensures Keeps(w.store.journal, Next(w, a, cfg).store.journal)
  {
    if a.Start? {
      StartOwned(w, a.req, a.enqueue, cfg);
    } else if a.FinishDone? || a.FinishAborted? {
      FinishOwned(w, a.id, a.applied, cfg);
    }
  }

  lemma StepKeepsOwned(w: World, a: Action, cfg: Config)
    requires Honest(w, cfg) && Owned(w) && Enabled(w, a) && Exclusive(w, a)
    ensures Owned(Next(w, a, cfg))
    ensures Keeps(w.store.journal, Next(w, a, cfg).store.journal)
  {
    if ScanAction(a) {
      ScanStepKeepsOwned(w, a, cfg);
    } else {
      OtherStepKeepsOwned(w, a, cfg);
    }
  }

  lemma {:induction false} RunKeepsOwned(w: World, run: seq<Action>, cfg: Config)
    requires Honest(w, cfg) && Owned(w) && Possible(w, run, cfg) && ExclusiveRun(w, run, cfg)
    ensures Honest(After(w, run, cfg), cfg) && Owned(After(w, run, cfg))
    ensures Keeps(w.store.journal, After(w, run, cfg).store.journal)
    decreases |run|
  {
    if run != [] {
      StepKeepsHonest(w, run[0], cfg);
      StepKeepsOwned(w, run[0], cfg);
      RunKeepsOwned(Next(w, run[0], cfg), run[1..], cfg);
    }
  }

  // With exclusive recovery, an intent that is done or aborted at some point of a run is the same
  // at every later point.
  lemma ResolvedForever(w: World, run: seq<Action>, later: seq<Action>, k: nat, cfg: Config)
    requires Initial(w) && Possible(w, run, cfg) && ExclusiveRun(w, run, cfg)
    requires var w1 := After(w, run, cfg);
             && Possible(w1, later, cfg) && ExclusiveRun(w1, later, cfg)
             && k < |w1.store.journal| && !w1.store.journal[k].status.Pending?
    ensures var w1 := After(w, run, cfg);
            var j2 := After(w1, later, cfg).store.journal;
            k < |j2| && j2[k] == w1.store.journal[k]
  {
    RunKeepsOwned(w, run, cfg);
    RunKeepsOwned(After(w, run, cfg), later, cfg);
  }

  lemma OneMore(w: World, a: Action, rest: seq<Action>, cfg: Config)
    requires Enabled(w, a) && Possible(Next(w, a, cfg), rest, cfg)
    ensures Possible(w, [a] + rest, cfg) && After(w, [a] + rest, cfg) == After(Next(w, a, cfg), rest, cfg)
  {
    assert ([a] + rest)[1..] == rest;
  }

  const BLANK := World(map[], Store([], map[]), map[], Idle, History({}, {}, {}, {}, {}, map[], map[], map[]))

  // A write without faults, from its storage action to its end.
  lemma CompleteWrite(w: World, id: string, inode: nat, cfg: Config) returns (run: seq<Action>)
    requires id in w.running && w.running[id].phase.Acting? && w.running[id].journaled && inode != 0
    ensures Possible(w, run, cfg)
    ensures var w' := After(w, run, cfg);
            && w'.store.journal == WithStatus(w.store.journal, id, Done) && w'.scan == w.scan
            && w'.tree == w.tree[w.running[id].req.path := inode]
            && (cfg.hasNodes ==> inode in w'.store.rows)
  {
    var w1 := Next(w, Land(id, inode), cfg);
    var w2 := Next(w1, StatTarget(id, true), cfg);
    var w3 := Next(w2, Record(id, Succeeded), cfg);
    run := [FinishDone(id, true)] + [];
    OneMore(w3, FinishDone(id, true), [], cfg);
    OneMore(w2, Record(id, Succeeded), run, cfg);
    run := [Record(id, Succeeded)] + run;
    OneMore(w1, StatTarget(id, true), run, cfg);
    run := [StatTarget(id, true)] + run;
    OneMore(w, Land(id, inode), run, cfg);
    run := [Land(id, inode)] + run;
  }

  // The scan lists an enqueued write and finds its path missing.
  lemma ListedAndMissing(req: Request, cfg: Config) returns (w: World)
    requires cfg.batchSize >= 1
    ensures w.running.Keys == {req.id} && w.running[req.id] == InFlight(req, true, Acting)
    ensures w.tree == map[] && w.store.journal == [IntentOf(req)] && w.scan == Statted(IntentOf(req), Missing, [])
    ensures forall rest :: Possible(w, rest, cfg) ==>
              var run := [Start(req, Succeeded)] + ([ListBatch] + ([ScanStat(StatWorks)] + rest));
              Possible(BLANK, run, cfg) && After(BLANK, run, cfg) == After(w, rest, cfg)
  {
    var it := IntentOf(req);
    var w1 := Next(BLANK, Start(req, Succeeded), cfg);
    assert w1.store.journal == [it] && [it][1..] == [];
    assert PendingOf([it]) == [it];
    var w2 := Next(w1, ListBatch, cfg);
    w := Next(w2, ScanStat(StatWorks), cfg);
    forall rest | Possible(w, rest, cfg)
      ensures var run := [Start(req, Succeeded)] + ([ListBatch] + ([ScanStat(StatWorks)] + rest));
              Possible(BLANK, run, cfg) && After(BLANK, run, cfg) == After(w, rest, cfg)
    {
      OneMore(w2, ScanStat(StatWorks), rest, cfg);
      OneMore(w1, ListBatch, [ScanStat(StatWorks)] + rest, cfg);
      OneMore(BLANK, Start(req, Succeeded), [ListBatch] + ([ScanStat(StatWorks)] + rest), cfg);
    }
  }

  // Why recovery must be exclusive: the scan stats the path before the write takes effect and marks
  // its intent after the write is done. Nothing from outside happens, the file and its row are there,
  // and the intent that was done is aborted.
  lemma OverlapUndoesDone(req: Request, inode: nat, cfg: Config) returns (run: seq<Action>)
    requires inode != 0 && cfg.batchSize >= 1
    ensures Initial(BLANK) && Possible(BLANK, run, cfg) && Possible(After(BLANK, run, cfg), [ScanAbort(true)], cfg)
    ensures var w1 := After(BLANK, run, cfg);
            var w2 := After(w1, [ScanAbort(true)], cfg);
            && w1.store.journal == [IntentOf(req).(status := Done)]
            && w2.store.journal == [IntentOf(req).(status := Aborted)]
            && w2.tree == map[req.path := inode] && (cfg.hasNodes ==> inode in w2.store.rows)
  {
    var w := ListedAndMissing(req, cfg);
    var rest := CompleteWrite(w, req.id, inode, cfg);
    run := [Start(req, Succeeded)] + ([ListBatch] + ([ScanStat(StatWorks)] + rest));
    OneMore(After(BLANK, run, cfg), ScanAbort(true), [], cfg);
    assert [ScanAbort(true)] + [] == [ScanAbort(true)];
  }
}
