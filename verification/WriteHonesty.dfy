// In every interleaving of recorded writes, scans, crashes and outside changes, an intent is done
// only after its actor and node type were recorded on an inode its path had.
module WriteHonesty {
  import opened FileDomain
  import opened IntentLog
  import opened Reconciliation
  import opened WriteProtocol

  // Every entry with this id is the intent of this path, actor and type.
  ghost predicate SameIntent(j: Log, id: string, path: string, actor: NodeActor, t: Option<NodeType>) {
    forall k :: 0 <= k < |j| && j[k].id == id ==> j[k].absPath == path && j[k].actor == actor && j[k].nodeType == t
  }

  ghost predicate ItemHonest(j: Log, past: History, it: Intent) {
    it.id in past.used && SameIntent(j, it.id, it.absPath, it.actor, it.nodeType)
  }

  ghost predicate QueueHonest(j: Log, past: History, its: Log) {
    forall k :: 0 <= k < |its| ==> ItemHonest(j, past, its[k])
  }

  // An upsert of this actor and type succeeded on an inode the path has had.
  ghost predicate Witnessed(past: History, path: string, actor: NodeActor, t: Option<NodeType>) {
    exists i: nat :: i != 0 && (path, i) in past.had && NodeMutation(i, actor, t) in past.upserts
  }

  ghost predicate DoneWitnessed(j: Log, past: History) {
    forall k :: 0 <= k < |j| && j[k].status.Done? ==> Witnessed(past, j[k].absPath, j[k].actor, j[k].nodeType)
  }

  ghost predicate IdsUsed(j: Log, past: History) {
    UniqueIds(j) && forall k :: 0 <= k < |j| ==> j[k].id in past.used
  }

  ghost predicate TreeHad(tree: map<string, nat>, past: History) {
    forall p :: p in tree ==> (p, tree[p]) in past.had
  }

  ghost predicate RunHonest(j: Log, past: History, run: InFlight, hasNodes: bool) {
    && SameIntent(j, run.req.id, run.req.path, run.req.actor, run.req.nodeType)
    && run.req.id in past.used
    && (run.phase.Recording? && run.phase.inode != 0 ==> (run.req.path, run.phase.inode) in past.had)
    && (run.phase.Marking? && hasNodes ==> Witnessed(past, run.req.path, run.req.actor, run.req.nodeType))
  }

  ghost predicate RunsHonest(j: Log, past: History, running: map<string, InFlight>, hasNodes: bool) {
    forall id :: id in running ==> running[id].req.id == id && RunHonest(j, past, running[id], hasNodes)
  }

  ghost predicate ScanHonest(j: Log, past: History, scan: Scan, hasNodes: bool) {
    && (!scan.Idle? ==> QueueHonest(j, past, scan.queue))
    && (scan.Statted? || scan.Retrying? || scan.ToMark? ==> ItemHonest(j, past, scan.it))
    && (scan.Statted? && scan.stat.Present? && scan.stat.inode != 0 ==>
          (scan.it.absPath, scan.stat.inode) in past.had)
    && (scan.ToMark? && hasNodes ==> Witnessed(past, scan.it.absPath, scan.it.actor, scan.it.nodeType))
  }

  ghost predicate Honest(w: World, cfg: Config) {
    && IdsUsed(w.store.journal, w.past)
    && TreeHad(w.tree, w.past)
    && RunsHonest(w.store.journal, w.past, w.running, cfg.hasNodes)
    && ScanHonest(w.store.journal, w.past, w.scan, cfg.hasNodes)
    && (cfg.hasNodes ==> DoneWitnessed(w.store.journal, w.past))
  }

  // ---- What may change without disturbing the invariant ----

  // j' has the entries of j, with statuses and attempts changed at will, and possibly new entries
  // under ids that were not drawn before.
  ghost predicate Evolves(j: Log, past: History, j': Log) {
    && |j| <= |j'|
    && (forall k :: 0 <= k < |j| ==>
          && j'[k].id == j[k].id && j'[k].absPath == j[k].absPath
          && j'[k].actor == j[k].actor && j'[k].nodeType == j[k].nodeType)
    && (forall k :: |j| <= k < |j'| ==> j'[k].id !in past.used)
  }

  ghost predicate Grows(past: History, past': History) {
    past.used <= past'.used && past.had <= past'.had && past.upserts <= past'.upserts
  }

  lemma SameIntentKept(j: Log, j': Log, past: History, id: string, path: string, actor: NodeActor, t: Option<NodeType>)
    requires Evolves(j, past, j') && id in past.used && SameIntent(j, id, path, actor, t)
    ensures SameIntent(j', id, path, actor, t)
  {
  }

  lemma WitnessKept(past: History, past': History, path: string, actor: NodeActor, t: Option<NodeType>)
    requires Grows(past, past') && Witnessed(past, path, actor, t)
    ensures Witnessed(past', path, actor, t)
  {
    var i: nat :| i != 0 && (path, i) in past.had && NodeMutation(i, actor, t) in past.upserts;
    assert (path, i) in past'.had && NodeMutation(i, actor, t) in past'.upserts;
  }

  lemma RunKept(j: Log, j': Log, past: History, past': History, run: InFlight, hasNodes: bool)
    requires Evolves(j, past, j') && Grows(past, past') && RunHonest(j, past, run, hasNodes)
    ensures RunHonest(j', past', run, hasNodes)
  {
    SameIntentKept(j, j', past, run.req.id, run.req.path, run.req.actor, run.req.nodeType);
    if run.phase.Marking? && hasNodes {
      WitnessKept(past, past', run.req.path, run.req.actor, run.req.nodeType);
    }
  }

  lemma RunsKept(j: Log, j': Log, past: History, past': History, running: map<string, InFlight>, hasNodes: bool)
    requires Evolves(j, past, j') && Grows(past, past') && RunsHonest(j, past, running, hasNodes)
    ensures RunsHonest(j', past', running, hasNodes)
  {
    forall id | id in running ensures RunHonest(j', past', running[id], hasNodes) {
      RunKept(j, j', past, past', running[id], hasNodes);
    }
  }

  lemma ItemKept(j: Log, j': Log, past: History, past': History, it: Intent)
    requires Evolves(j, past, j') && Grows(past, past') && ItemHonest(j, past, it)
    ensures ItemHonest(j', past', it)
  {
    SameIntentKept(j, j', past, it.id, it.absPath, it.actor, it.nodeType);
  }

  lemma ScanKept(j: Log, j': Log, past: History, past': History, scan: Scan, hasNodes: bool)
    requires Evolves(j, past, j') && Grows(past, past') && ScanHonest(j, past, scan, hasNodes)
    ensures ScanHonest(j', past', scan, hasNodes)
  {
    if !scan.Idle? {
      forall k | 0 <= k < |scan.queue| ensures ItemHonest(j', past', scan.queue[k]) {
        ItemKept(j, j', past, past', scan.queue[k]);
      }
    }
    if scan.Statted? || scan.Retrying? || scan.ToMark? {
      ItemKept(j, j', past, past', scan.it);
    }
    if scan.ToMark? && hasNodes {
      WitnessKept(past, past', scan.it.absPath, scan.it.actor, scan.it.nodeType);
    }
  }

  lemma DoneKept(j: Log, past: History, past': History)
    requires Grows(past, past') && DoneWitnessed(j, past)
    ensures DoneWitnessed(j, past')
  {
    forall k | 0 <= k < |j| && j[k].status.Done?
      ensures Witnessed(past', j[k].absPath, j[k].actor, j[k].nodeType)
    {
      WitnessKept(past, past', j[k].absPath, j[k].actor, j[k].nodeType);
    }
  }

  // Everything but the moving part of a step: the journal evolves, the history grows, and what is
  // done in the new journal was witnessed before.
  lemma WorldKept(w: World, w': World, cfg: Config)
    requires Honest(w, cfg)
    requires Evolves(w.store.journal, w.past, w'.store.journal) && Grows(w.past, w'.past)
    requires IdsUsed(w'.store.journal, w'.past) && TreeHad(w'.tree, w'.past)
    requires cfg.hasNodes ==> DoneWitnessed(w'.store.journal, w.past)
    ensures RunsHonest(w'.store.journal, w'.past, w.running, cfg.hasNodes)
    ensures ScanHonest(w'.store.journal, w'.past, w.scan, cfg.hasNodes)
    ensures cfg.hasNodes ==> DoneWitnessed(w'.store.journal, w'.past)
  {
    RunsKept(w.store.journal, w'.store.journal, w.past, w'.past, w.running, cfg.hasNodes);
    ScanKept(w.store.journal, w'.store.journal, w.past, w'.past, w.scan, cfg.hasNodes);
    if cfg.hasNodes {
      DoneKept(w'.store.journal, w.past, w'.past);
    }
  }

  // ---- Marks ----

  lemma MarkEvolves(j: Log, past: History, id: string, st: Status, applied: bool)
    requires IdsUsed(j, past)
    ensures Evolves(j, past, MarkedIf(j, id, st, applied)) && IdsUsed(MarkedIf(j, id, st, applied), past)
    ensures DoneWitnessed(j, past) && !st.Done? ==> DoneWitnessed(MarkedIf(j, id, st, applied), past)
  {
    var j' := MarkedIf(j, id, st, applied);
    assert Ids(j) == Ids(j');
    SameIdsUnique(j, j');
  }

  lemma MarkDoneWitnessed(j: Log, past: History, id: string, path: string, actor: NodeActor,
                          t: Option<NodeType>, applied: bool)
    requires DoneWitnessed(j, past) && SameIntent(j, id, path, actor, t) && Witnessed(past, path, actor, t)
    ensures DoneWitnessed(MarkedIf(j, id, Done, applied), past)
  {
  }

  lemma AttemptEvolves(j: Log, past: History, id: string)
    requires IdsUsed(j, past)
    ensures Evolves(j, past, WithAttempt(j, id)) && IdsUsed(WithAttempt(j, id), past)
    ensures DoneWitnessed(j, past) ==> DoneWitnessed(WithAttempt(j, id), past)
  {
    var j' := WithAttempt(j, id);
    assert Ids(j) == Ids(j');
    SameIdsUnique(j, j');
  }

  // ---- Steps of a recorded write ----

  lemma StartKeeps(w: World, req: Request, enqueue: CallResult, cfg: Config)
    requires Honest(w, cfg) && req.id !in w.past.used
    ensures Honest(StartRun(w, req, enqueue), cfg)
  {
    var w' := StartRun(w, req, enqueue);
    var j, j' := w.store.journal, w'.store.journal;
    assert !HasId(j, req.id);
    assert j' == j || j' == j + [IntentOf(req)];
    WorldKept(w, w', cfg);
    assert RunHonest(j', w'.past, w'.running[req.id], cfg.hasNodes);
  }

  lemma LandKeeps(w: World, id: string, inode: nat, cfg: Config)
    requires Honest(w, cfg) && id in w.running
    ensures Honest(LandRun(w, id, inode), cfg)
  {
    WorldKept(w, LandRun(w, id, inode), cfg);
  }

  lemma PhaseKeeps(w: World, id: string, p: Phase, cfg: Config)
    requires Honest(w, cfg) && id in w.running && !p.Marking?
    requires p.Recording? && p.inode != 0 ==> (w.running[id].req.path, p.inode) in w.past.had
    ensures Honest(SetPhase(w, id, p), cfg)
  {
  }

  lemma RecordKeeps(w: World, id: string, result: CallResult, cfg: Config)
    requires Honest(w, cfg) && id in w.running && w.running[id].phase.Recording?
    ensures Honest(RecordRun(w, id, result, cfg), cfg)
  {
    var run, w' := w.running[id], RecordRun(w, id, result, cfg);
    WorldKept(w, w', cfg);
    if cfg.hasNodes && run.phase.inode != 0 && result.Succeeded? {
      var m := NodeMutation(run.phase.inode, run.req.actor, run.req.nodeType);
      assert (run.req.path, run.phase.inode) in w'.past.had && m in w'.past.upserts;
      assert Witnessed(w'.past, run.req.path, run.req.actor, run.req.nodeType);
    }
  }

  lemma FinishKeeps(w: World, id: string, applied: bool, cfg: Config)
    requires Honest(w, cfg) && id in w.running
    ensures w.running[id].phase.Marking? ==> Honest(FinishDoneRun(w, id, applied), cfg)
    ensures w.running[id].phase.Failing? ==> Honest(FinishAbortedRun(w, id, applied), cfg)
  {
    var j, run := w.store.journal, w.running[id];
    if run.phase.Marking? {
      var w' := FinishDoneRun(w, id, applied);
      if run.journaled {
        MarkEvolves(j, w.past, id, Done, applied);
        if cfg.hasNodes {
          MarkDoneWitnessed(j, w.past, id, run.req.path, run.req.actor, run.req.nodeType, applied);
        }
      }
      WorldKept(w, w', cfg);
    }
    if run.phase.Failing? {
      MarkEvolves(j, w.past, id, Aborted, applied);
      WorldKept(w, FinishAbortedRun(w, id, applied), cfg);
    }
  }

  // ---- Steps of the scan ----

  lemma ListKeeps(w: World, n: nat, cfg: Config)
    requires Honest(w, cfg)
    ensures Honest(w.(scan := Scanning(Take(PendingOf(w.store.journal), n))), cfg)
  {
    var j, batch := w.store.journal, Take(PendingOf(w.store.journal), n);
    PendingMembers(j);
    forall k | 0 <= k < |batch| ensures ItemHonest(j, w.past, batch[k]) {
      var p := PositionOf(j, batch[k]);
      forall i | 0 <= i < |j| && j[i].id == j[p].id ensures i == p {
        assert !(i < p) && !(p < i);
      }
    }
  }

  lemma StatKeeps(w: World, mode: StatMode, cfg: Config)
    requires Honest(w, cfg) && Enabled(w, ScanStat(mode))
    ensures Honest(Next(w, ScanStat(mode), cfg), cfg)
  {
  }

  lemma ScanMarkKeeps(w: World, st: Status, applied: bool, past': History, cfg: Config)
    requires Honest(w, cfg) && (w.scan.Statted? || w.scan.Retrying? || w.scan.ToMark?)
    requires st.Done? ==> w.scan.ToMark?
    requires past'.used == w.past.used && past'.had == w.past.had && past'.upserts == w.past.upserts
    ensures Honest(WithJournal(w, MarkedIf(w.store.journal, w.scan.it.id, st, applied))
                     .(past := past', scan := ScanRest(w.scan)), cfg)
  {
    var j, it := w.store.journal, w.scan.it;
    var w' := WithJournal(w, MarkedIf(j, it.id, st, applied)).(past := past', scan := ScanRest(w.scan));
    MarkEvolves(j, w.past, it.id, st, applied);
    if cfg.hasNodes && st.Done? {
      MarkDoneWitnessed(j, w.past, it.id, it.absPath, it.actor, it.nodeType, applied);
    }
    WorldKept(w, w', cfg);
  }

  lemma RetryKeeps(w: World, applied: bool, cfg: Config)
    requires Honest(w, cfg) && (w.scan.Statted? || w.scan.Retrying?)
    ensures Honest(RetryScan(w, applied, cfg), cfg)
  {
    var w' := RetryScan(w, applied, cfg);
    if w.scan.it.attempts + 1 >= cfg.maxTries {
      ScanMarkKeeps(w, Aborted, applied, w'.past, cfg);
    } else {
      AttemptEvolves(w.store.journal, w.past, w.scan.it.id);
      WorldKept(w, w', cfg);
    }
  }

  lemma ScanUpsertKeeps(w: World, result: CallResult, cfg: Config)
    requires Honest(w, cfg) && Enabled(w, ScanUpsert(result))
    ensures Honest(UpsertScan(w, result, cfg), cfg)
  {
    var it, w' := w.scan.it, UpsertScan(w, result, cfg);
    WorldKept(w, w', cfg);
    if cfg.hasNodes && result.Succeeded? {
      var i := w.scan.stat.inode;
      assert (it.absPath, i) in w'.past.had && NodeMutation(i, it.actor, it.nodeType) in w'.past.upserts;
      assert Witnessed(w'.past, it.absPath, it.actor, it.nodeType);
    }
  }

  // ---- The invariant over every run ----

  lemma OutsideKeeps(w: World, a: Action, cfg: Config)
    requires Honest(w, cfg) && (a.EndScan? || a.Crash? || a.SetPath? || a.SetRow?) && Enabled(w, a)
    ensures Honest(Next(w, a, cfg), cfg)
  {
    if a.SetPath? || a.SetRow? {
      WorldKept(w, Next(w, a, cfg), cfg);
    }
  }

  lemma StepKeepsHonest(w: World, a: Action, cfg: Config)
    requires Honest(w, cfg) && Enabled(w, a)
    ensures Honest(Next(w, a, cfg), cfg)
  {
    hide RecordRun, FinishDoneRun, FinishAbortedRun, RetryScan, UpsertScan, StartRun, LandRun, MarkedIf, WithAttempt,
      Enqueued;
    match a
    case Start(req, enqueue) => StartKeeps(w, req, enqueue, cfg);
    case Land(id, inode) => LandKeeps(w, id, inode, cfg);
    case Fail(id) => PhaseKeeps(w, id, Failing(w.running[id].phase.Landed?), cfg);
    case StatTarget(id, resolved) =>
      var path := w.running[id].req.path;
      PhaseKeeps(w, id, Failing(true), cfg);
      if path in w.tree {
        PhaseKeeps(w, id, Recording(if resolved then w.tree[path] else 0), cfg);
      }
    case Record(id, result) => RecordKeeps(w, id, result, cfg);
    case FinishDone(id, applied) => FinishKeeps(w, id, applied, cfg);
    case FinishAborted(id, applied) => FinishKeeps(w, id, applied, cfg);
    case ListBatch => ListKeeps(w, cfg.batchSize, cfg);
    case ScanStat(mode) => StatKeeps(w, mode, cfg);
    case ScanAbort(applied) =>
      ScanMarkKeeps(w, Aborted, applied, Next(w, a, cfg).past, cfg);
    case ScanRetry(applied) => RetryKeeps(w, applied, cfg);
    case ScanUpsert(result) => ScanUpsertKeeps(w, result, cfg);
    case ScanMark(applied) => ScanMarkKeeps(w, Done, applied, w.past, cfg);
    case EndScan => OutsideKeeps(w, a, cfg);
    case Crash => OutsideKeeps(w, a, cfg);
    case SetPath(path, node) => OutsideKeeps(w, a, cfg);
    case SetRow(inode, row) => OutsideKeeps(w, a, cfg);
  }

  lemma {:induction false} RunKeepsHonest(w: World, run: seq<Action>, cfg: Config)
    requires Honest(w, cfg) && Possible(w, run, cfg)
    ensures Honest(After(w, run, cfg), cfg)
    decreases |run|
  {
    if run != [] {
      StepKeepsHonest(w, run[0], cfg);
      RunKeepsHonest(Next(w, run[0], cfg), run[1..], cfg);
    }
  }

  // ---- The history tells what happened ----

  // At some moment of the run the path named the inode.
  predicate EverBound(w: World, run: seq<Action>, path: string, inode: nat, cfg: Config)
    requires Possible(w, run, cfg)
    decreases |run|
  {
    || (path in w.tree && w.tree[path] == inode)
    || (run != [] && EverBound(Next(w, run[0], cfg), run[1..], path, inode, cfg))
  }

  // The step is an upsert of m that reports success. Inode 0 stands for an unresolved one, which is
  // never upserted.
  predicate UpsertsRow(w: World, a: Action, m: NodeMutation) {
    && m.inodeID != 0
    && (UpsertsForRun(w, a, m) || UpsertsForScan(w, a, m))
  }

  predicate UpsertsForRun(w: World, a: Action, m: NodeMutation) {
    a.Record? && a.result.Succeeded? && InPhase(w, a.id, (p: Phase) => p.Recording?)
    && var run := w.running[a.id];
       m == NodeMutation(run.phase.inode, run.req.actor, run.req.nodeType)
  }

  predicate UpsertsForScan(w: World, a: Action, m: NodeMutation) {
    a.ScanUpsert? && a.result.Succeeded? && w.scan.Statted? && w.scan.stat.Present?
    && m == MutationOf(w.scan.it, w.scan.stat.inode)
  }

  predicate EverUpserted(w: World, run: seq<Action>, m: NodeMutation, cfg: Config)
    requires Possible(w, run, cfg)
    decreases |run|
  {
    run != [] && (UpsertsRow(w, run[0], m) || EverUpserted(Next(w, run[0], cfg), run[1..], m, cfg))
  }

  lemma StepHistory(w: World, a: Action, path: string, inode: nat, m: NodeMutation, cfg: Config)
    requires Enabled(w, a)
    ensures (path, inode) in Next(w, a, cfg).past.had ==>
              (path, inode) in w.past.had || (path in Next(w, a, cfg).tree && Next(w, a, cfg).tree[path] == inode)
    ensures m in Next(w, a, cfg).past.upserts ==> m in w.past.upserts || UpsertsRow(w, a, m)
    ensures cfg.hasNodes && UpsertsRow(w, a, m) ==>
              Next(w, a, cfg).store.rows == UpsertRow(w.store.rows, m)
  {
  }

  lemma {:induction false} HadWasBound(w: World, run: seq<Action>, path: string, inode: nat, cfg: Config)
    requires Possible(w, run, cfg) && (path, inode) in After(w, run, cfg).past.had
    ensures (path, inode) in w.past.had || EverBound(w, run, path, inode, cfg)
    decreases |run|
  {
    if run != [] {
      StepHistory(w, run[0], path, inode, NodeMutation(0, NodeActor("", "", "", ""), None), cfg);
      HadWasBound(Next(w, run[0], cfg), run[1..], path, inode, cfg);
    }
  }

  lemma {:induction false} UpsertsHappened(w: World, run: seq<Action>, m: NodeMutation, cfg: Config)
    requires Possible(w, run, cfg) && m in After(w, run, cfg).past.upserts
    ensures m in w.past.upserts || EverUpserted(w, run, m, cfg)
    decreases |run|
  {
    if run != [] {
      StepHistory(w, run[0], "", 0, m, cfg);
      UpsertsHappened(Next(w, run[0], cfg), run[1..], m, cfg);
    }
  }

  // However writes, scans, crashes and outside changes interleave, an intent that is done had its
  // actor and node type recorded, by an upsert that reported success, on an inode its path named at
  // some moment of the run.
  lemma DoneImpliesUpsert(w: World, run: seq<Action>, k: nat, cfg: Config)
    requires Initial(w) && Possible(w, run, cfg) && cfg.hasNodes
    requires k < |After(w, run, cfg).store.journal| && After(w, run, cfg).store.journal[k].status.Done?
    ensures var it := After(w, run, cfg).store.journal[k];
            exists i: nat :: i != 0 && EverBound(w, run, it.absPath, i, cfg)
              && EverUpserted(w, run, NodeMutation(i, it.actor, it.nodeType), cfg)
  {
    RunKeepsHonest(w, run, cfg);
    var w' := After(w, run, cfg);
    var it := w'.store.journal[k];
    assert Witnessed(w'.past, it.absPath, it.actor, it.nodeType);
    var i: nat :| i != 0 && (it.absPath, i) in w'.past.had
      && NodeMutation(i, it.actor, it.nodeType) in w'.past.upserts;
    HadWasBound(w, run, it.absPath, i, cfg);
    UpsertsHappened(w, run, NodeMutation(i, it.actor, it.nodeType), cfg);
    assert EverBound(w, run, it.absPath, i, cfg);
  }
}
