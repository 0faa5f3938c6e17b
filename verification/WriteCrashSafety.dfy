// Crash safety of recorded writes: with exclusive recovery, no write that took effect on a path is
// lost unless the path is deleted afterwards, and once the last of them is done the path's inode has
// a row.
module WriteCrashSafety {
  import opened FileDomain
  import opened IntentLog
  import opened Reconciliation
  import opened WriteProtocol
  import opened WriteHonesty
  import opened WriteSafety

  // ---- What the outside may do to a path ----

  // A recorded write has taken effect on the path.
  predicate WrittenTo(w: World, path: string) {
    path in w.past.lastLanded
  }

  // The step does not delete the path once a write has taken effect on it.
  predicate KeepsPath(w: World, a: Action, path: string) {
    a.SetPath? && a.path == path && a.node.None? ==> !WrittenTo(w, path)
  }

  // Besides, from then on it neither puts another inode there nor deletes the row of the one there.
  predicate LeavesAlone(w: World, a: Action, path: string) {
    WrittenTo(w, path) ==>
      && (a.SetPath? ==> a.path != path)
      && (a.SetRow? && a.row.None? ==> !(path in w.tree && w.tree[path] == a.inode))
  }

  predicate KeptRun(w: World, run: seq<Action>, path: string, cfg: Config)
    requires Possible(w, run, cfg)
    decreases |run|
  {
    run == [] ||
    (Exclusive(w, run[0]) && KeepsPath(w, run[0], path) && KeptRun(Next(w, run[0], cfg), run[1..], path, cfg))
  }

  predicate QuietRun(w: World, run: seq<Action>, path: string, cfg: Config)
    requires Possible(w, run, cfg)
    decreases |run|
  {
    run == [] ||
    (Exclusive(w, run[0]) && LeavesAlone(w, run[0], path) && QuietRun(Next(w, run[0], cfg), run[1..], path, cfg))
  }

  // ---- Writes that took effect are not lost ----

  predicate HarmlessCause(c: AbortCause) {
    c.ErrorAfterLanding? || c.TriesExhausted?
  }

  // The intent of a write that took effect is not lost: pending, done, or aborted for a reason that
  // does not deny the write.
  predicate NotLost(it: Intent, causes: map<string, AbortCause>) {
    it.status.Aborted? ==> it.id in causes && HarmlessCause(causes[it.id])
  }

  ghost predicate LandingsTracked(w: World, path: string) {
    && (forall id :: id in w.past.landings ==> id in w.past.used)
    && (forall id :: id in w.past.landings && w.past.landings[id] == path ==> WrittenTo(w, path))
    && (forall k :: 0 <= k < |w.store.journal| && w.store.journal[k].id in w.past.landings ==>
          w.store.journal[k].absPath == w.past.landings[w.store.journal[k].id])
    && (WrittenTo(w, path) ==>
          var id := w.past.lastLanded[path]; id in w.past.landings && w.past.landings[id] == path)
    && (WrittenTo(w, path) ==> path in w.tree)
  }

  ghost predicate LandingsSafe(w: World, path: string) {
    var j := w.store.journal;
    forall k :: 0 <= k < |j| && j[k].absPath == path && j[k].id in w.past.landings ==> NotLost(j[k], w.past.causes)
  }

  ghost predicate RunTracked(w: World, id: string)
    requires id in w.running
  {
    var run := w.running[id];
    && (run.phase.Acting? || run.phase == Failing(false) ==> id !in w.past.landings)
    && (id in w.past.landings ==> w.past.landings[id] == run.req.path)
  }

  ghost predicate RunsTracked(w: World) {
    forall id :: id in w.running ==> RunTracked(w, id)
  }

  // What the scan found missing no write took effect on.
  ghost predicate MissingTracked(w: World, path: string) {
    w.scan.Statted? && w.scan.it.absPath == path && w.scan.stat.Missing? ==> !WrittenTo(w, path)
  }

  ghost predicate Tracked(w: World, path: string) {
    LandingsTracked(w, path) && LandingsSafe(w, path) && RunsTracked(w) && MissingTracked(w, path)
  }

  ghost predicate Safe(w: World, path: string, cfg: Config) {
    Honest(w, cfg) && Owned(w) && Tracked(w, path)
  }

  lemma StartTracked(w: World, req: Request, enqueue: CallResult, path: string, cfg: Config)
    requires Safe(w, path, cfg) && req.id !in w.past.used && w.scan.Idle?
    ensures Tracked(StartRun(w, req, enqueue), path)
  {
    var j, j' := w.store.journal, StartRun(w, req, enqueue).store.journal;
    assert !HasId(j, req.id);
    assert j' == j || j' == j + [IntentOf(req)];
  }

  lemma LandTracked(w: World, id: string, inode: nat, path: string, cfg: Config)
    requires Safe(w, path, cfg) && Enabled(w, Land(id, inode))
    ensures Tracked(LandRun(w, id, inode), path)
  {
    assert w.scan.Idle?;
    assert PendingIfPresent(w.store.journal, id);
  }

  lemma PhaseTracked(w: World, id: string, p: Phase, path: string, cfg: Config)
    requires Safe(w, path, cfg) && id in w.running && !p.Acting?
    requires p == Failing(false) ==> w.running[id].phase.Acting?
    ensures Tracked(SetPhase(w, id, p), path)
  {
  }

  lemma RecordTracked(w: World, id: string, result: CallResult, path: string, cfg: Config)
    requires Safe(w, path, cfg) && Enabled(w, Record(id, result))
    ensures Tracked(RecordRun(w, id, result, cfg), path)
  {
  }

  lemma FinishDoneTracked(w: World, id: string, applied: bool, path: string, cfg: Config)
    requires Safe(w, path, cfg) && Enabled(w, FinishDone(id, applied))
    ensures Tracked(FinishDoneRun(w, id, applied), path)
  {
  }

  lemma FinishAbortedTracked(w: World, id: string, applied: bool, path: string, cfg: Config)
    requires Safe(w, path, cfg) && Enabled(w, FinishAborted(id, applied))
    ensures Tracked(FinishAbortedRun(w, id, applied), path)
  {
  }

  lemma RunStepTracked(w: World, a: Action, path: string, cfg: Config)
    requires Safe(w, path, cfg) && Enabled(w, a) && Exclusive(w, a)
    requires a.Start? || a.Land? || a.Fail? || a.StatTarget? || a.Record? || a.FinishDone? || a.FinishAborted?
    ensures Tracked(Next(w, a, cfg), path)
  {
    hide StartRun, LandRun, RecordRun, FinishDoneRun, FinishAbortedRun, Tracked;
    match a
    case Start(req, enqueue) => StartTracked(w, req, enqueue, path, cfg);
    case Land(id, inode) => LandTracked(w, id, inode, path, cfg);
    case Fail(id) => PhaseTracked(w, id, Failing(w.running[id].phase.Landed?), path, cfg);
    case StatTarget(id, resolved) =>
      var target := w.running[id].req.path;
      PhaseTracked(w, id, Failing(true), path, cfg);
      if target in w.tree {
        PhaseTracked(w, id, Recording(if resolved then w.tree[target] else 0), path, cfg);
      }
    case Record(id, result) => RecordTracked(w, id, result, path, cfg);
    case FinishDone(id, applied) => FinishDoneTracked(w, id, applied, path, cfg);
    case FinishAborted(id, applied) => FinishAbortedTracked(w, id, applied, path, cfg);
  }

  // A mark by the scan: only what no write took effect on is aborted as missing.
  lemma ScanAbortTracked(w: World, applied: bool, cause: AbortCause, path: string, cfg: Config)
    requires Safe(w, path, cfg) && HoldsItem(w.scan) && w.running == map[]
    requires cause.TriesExhausted? || (w.scan.Statted? && w.scan.stat.Missing?)
    ensures Tracked(AbortedBy(w, w.scan.it.id, applied, cause).(scan := ScanRest(w.scan)), path)
  {
  }

  lemma ScanMoveTracked(w: World, j: Log, rows: Rows, upserts: set<NodeMutation>, scan: Scan, path: string, cfg: Config)
    requires Safe(w, path, cfg) && |j| == |w.store.journal| && !scan.Statted?
    requires forall k :: 0 <= k < |j| ==>
               && j[k].id == w.store.journal[k].id && j[k].absPath == w.store.journal[k].absPath
               && (j[k].status.Aborted? ==> w.store.journal[k].status.Aborted?)
    ensures Tracked(w.(store := Store(j, rows), past := w.past.(upserts := upserts), scan := scan), path)
  {
  }

  lemma ScanStepTracked(w: World, a: Action, path: string, cfg: Config)
    requires Safe(w, path, cfg) && Enabled(w, a) && ScanAction(a) && w.running == map[]
    ensures Tracked(Next(w, a, cfg), path)
  {
    hide Tracked, Honest, Owned;
    var j, past, w' := w.store.journal, w.past, Next(w, a, cfg);
    if a.ScanAbort? {
      ScanAbortTracked(w, a.applied, TargetMissing, path, cfg);
    } else if a.ScanRetry? && w.scan.it.attempts + 1 >= cfg.maxTries {
      ScanAbortTracked(w, a.applied, TriesExhausted, path, cfg);
    } else if a.ScanStat? {
      ScanStatTracked(w, a.mode, path, cfg);
    } else {
      ScanMoveTracked(w, w'.store.journal, w'.store.rows, w'.past.upserts, w'.scan, path, cfg);
      assert w' == w.(store := w'.store, past := w.past.(upserts := w'.past.upserts), scan := w'.scan);
    }
  }

  lemma ScanStatTracked(w: World, mode: StatMode, path: string, cfg: Config)
    requires Safe(w, path, cfg) && Enabled(w, ScanStat(mode))
    ensures Tracked(Next(w, ScanStat(mode), cfg), path)
  {
  }

  lemma ForgetTracked(w: World, a: Action, path: string, cfg: Config)
    requires Safe(w, path, cfg) && Enabled(w, a) && (a.EndScan? || a.Crash?)
    ensures Tracked(Next(w, a, cfg), path)
  {
  }

  lemma SetPathTracked(w: World, a: Action, path: string, cfg: Config)
    requires Safe(w, path, cfg) && a.SetPath? && KeepsPath(w, a, path)
    ensures Tracked(Next(w, a, cfg), path)
  {
  }

  lemma SetRowTracked(w: World, a: Action, path: string, cfg: Config)
    requires Safe(w, path, cfg) && a.SetRow? && KeepsPath(w, a, path)
    ensures Tracked(Next(w, a, cfg), path)
  {
  }

  lemma StepKeepsSafe(w: World, a: Action, path: string, cfg: Config)
    requires Safe(w, path, cfg) && Enabled(w, a) && Exclusive(w, a) && KeepsPath(w, a, path)
    ensures Safe(Next(w, a, cfg), path, cfg)
  {
    hide Honest, Owned, Tracked, Next, KeepsPath;
    StepKeepsHonest(w, a, cfg);
    StepKeepsOwned(w, a, cfg);
    if ScanAction(a) {
      ScanStepTracked(w, a, path, cfg);
    } else if a.SetPath? {
      SetPathTracked(w, a, path, cfg);
    } else if a.SetRow? {
      SetRowTracked(w, a, path, cfg);
    } else if a.EndScan? || a.Crash? {
      ForgetTracked(w, a, path, cfg);
    } else {
      RunStepTracked(w, a, path, cfg);
    }
  }

  lemma {:induction false} RunKeepsSafe(w: World, run: seq<Action>, path: string, cfg: Config)
    requires Safe(w, path, cfg) && Possible(w, run, cfg) && KeptRun(w, run, path, cfg)
    ensures Safe(After(w, run, cfg), path, cfg)
    decreases |run|
  {
    if run != [] {
      StepKeepsSafe(w, run[0], path, cfg);
      RunKeepsSafe(Next(w, run[0], cfg), run[1..], path, cfg);
    }
  }

  // ---- The last write's row ----

  ghost predicate CurrentHasRow(w: World, path: string) {
    path in w.tree && w.tree[path] in w.store.rows
  }

  // The last write that took effect on the path: what it statted is still there, and once it is
  // done the inode of the path has a row.
  ghost predicate LastRecorded(w: World, path: string)
    requires WrittenTo(w, path)
  {
    var id := w.past.lastLanded[path];
    && (forall k :: 0 <= k < |w.store.journal| && w.store.journal[k].id == id && w.store.journal[k].status.Done? ==>
          CurrentHasRow(w, path))
    && (id in w.running ==>
          && (w.running[id].phase.Recording? && w.running[id].phase.inode != 0 ==>
                path in w.tree && w.tree[path] == w.running[id].phase.inode)
          && (w.running[id].phase.Marking? ==> CurrentHasRow(w, path)))
  }

  // While the scan looks at an intent of the path, the path is as it was statted, and recorded before
  // the intent is marked.
  ghost predicate ScanRecorded(w: World, path: string) {
    && (w.scan.Statted? && w.scan.it.absPath == path && w.scan.stat.Present? && w.scan.stat.inode != 0 ==>
          path in w.tree && w.tree[path] == w.scan.stat.inode)
    && (w.scan.ToMark? && w.scan.it.absPath == path ==> CurrentHasRow(w, path))
  }

  ghost predicate RowTracked(w: World, path: string) {
    WrittenTo(w, path) ==> LastRecorded(w, path) && ScanRecorded(w, path)
  }

  ghost predicate Indexed(w: World, path: string, cfg: Config) {
    Safe(w, path, cfg) && RowTracked(w, path) && cfg.hasNodes
  }

  lemma StartIndexed(w: World, req: Request, enqueue: CallResult, path: string, cfg: Config)
    requires Indexed(w, path, cfg) && req.id !in w.past.used && w.scan.Idle?
    ensures RowTracked(StartRun(w, req, enqueue), path)
  {
    var j, j' := w.store.journal, StartRun(w, req, enqueue).store.journal;
    assert !HasId(j, req.id);
    assert j' == j || j' == j + [IntentOf(req)];
  }

  lemma LandIndexed(w: World, id: string, inode: nat, path: string, cfg: Config)
    requires Indexed(w, path, cfg) && Enabled(w, Land(id, inode))
    ensures RowTracked(LandRun(w, id, inode), path)
  {
    assert w.scan.Idle?;
    assert PendingIfPresent(w.store.journal, id);
  }

  lemma PhaseIndexed(w: World, id: string, p: Phase, path: string, cfg: Config)
    requires Indexed(w, path, cfg) && id in w.running && !p.Marking?
    requires p.Recording? && p.inode != 0 ==>
               w.running[id].req.path in w.tree && w.tree[w.running[id].req.path] == p.inode
    ensures RowTracked(SetPhase(w, id, p), path)
  {
  }

  lemma RecordIndexed(w: World, id: string, result: CallResult, path: string, cfg: Config)
    requires Indexed(w, path, cfg) && Enabled(w, Record(id, result))
    ensures RowTracked(RecordRun(w, id, result, cfg), path)
  {
  }

  lemma FinishIndexed(w: World, id: string, applied: bool, path: string, cfg: Config)
    requires Indexed(w, path, cfg) && id in w.running
    ensures w.running[id].phase.Marking? ==> RowTracked(FinishDoneRun(w, id, applied), path)
    ensures w.running[id].phase.Failing? ==> RowTracked(FinishAbortedRun(w, id, applied), path)
  {
  }

  lemma RunStepIndexed(w: World, a: Action, path: string, cfg: Config)
    requires Indexed(w, path, cfg) && Enabled(w, a) && Exclusive(w, a)
    requires a.Start? || a.Land? || a.Fail? || a.StatTarget? || a.Record? || a.FinishDone? || a.FinishAborted?
    ensures RowTracked(Next(w, a, cfg), path)
  {
    hide StartRun, LandRun, RecordRun, FinishDoneRun, FinishAbortedRun, RowTracked, Safe;
    match a
    case Start(req, enqueue) => StartIndexed(w, req, enqueue, path, cfg);
    case Land(id, inode) => LandIndexed(w, id, inode, path, cfg);
    case Fail(id) => PhaseIndexed(w, id, Failing(w.running[id].phase.Landed?), path, cfg);
    case StatTarget(id, resolved) =>
      var target := w.running[id].req.path;
      PhaseIndexed(w, id, Failing(true), path, cfg);
      if target in w.tree {
        PhaseIndexed(w, id, Recording(if resolved then w.tree[target] else 0), path, cfg);
      }
    case Record(id, result) => RecordIndexed(w, id, result, path, cfg);
    case FinishDone(id, applied) => FinishIndexed(w, id, applied, path, cfg);
    case FinishAborted(id, applied) => FinishIndexed(w, id, applied, path, cfg);
  }

  // A mark by the scan that does not call the intent done.
  lemma ScanUndoneIndexed(w: World, j: Log, causes: map<string, AbortCause>, path: string, cfg: Config)
    requires Indexed(w, path, cfg) && w.running == map[] && |j| == |w.store.journal| && !w.scan.Idle?
    requires forall k :: 0 <= k < |j| ==>
               j[k].id == w.store.journal[k].id && (j[k].status.Done? ==> w.store.journal[k].status.Done?)
    ensures RowTracked(w.(store := w.store.(journal := j), past := w.past.(causes := causes), scan := ScanRest(w.scan)),
                       path)
  {
  }

  lemma ScanUpsertIndexed(w: World, result: CallResult, path: string, cfg: Config)
    requires Indexed(w, path, cfg) && Enabled(w, ScanUpsert(result)) && w.running == map[]
    ensures RowTracked(UpsertScan(w, result, cfg), path)
  {
  }

  lemma ScanMarkIndexed(w: World, applied: bool, path: string, cfg: Config)
    requires Indexed(w, path, cfg) && Enabled(w, ScanMark(applied)) && w.running == map[]
    ensures RowTracked(Next(w, ScanMark(applied), cfg), path)
  {
  }

  lemma ScanStepIndexed(w: World, a: Action, path: string, cfg: Config)
    requires Indexed(w, path, cfg) && Enabled(w, a) && ScanAction(a) && w.running == map[]
    ensures RowTracked(Next(w, a, cfg), path)
  {
    hide Indexed, UpsertScan;
    var w' := Next(w, a, cfg);
    if a.ScanUpsert? {
      ScanUpsertIndexed(w, a.result, path, cfg);
    } else if a.ScanMark? {
      ScanMarkIndexed(w, a.applied, path, cfg);
    } else if a.ScanAbort? || a.ScanRetry? {
      hide RowTracked;
      ScanUndoneIndexed(w, w'.store.journal, w'.past.causes, path, cfg);
    } else {
      LookIndexed(w, a, path, cfg);
    }
  }

  lemma LookIndexed(w: World, a: Action, path: string, cfg: Config)
    requires Indexed(w, path, cfg) && Enabled(w, a) && (a.ListBatch? || a.ScanStat?)
    ensures RowTracked(Next(w, a, cfg), path)
  {
  }

  lemma ForgetIndexed(w: World, a: Action, path: string, cfg: Config)
    requires Indexed(w, path, cfg) && Enabled(w, a) && (a.EndScan? || a.Crash?)
    ensures RowTracked(Next(w, a, cfg), path)
  {
  }

  lemma SetPathIndexed(w: World, a: Action, path: string, cfg: Config)
    requires Indexed(w, path, cfg) && a.SetPath? && LeavesAlone(w, a, path)
    ensures RowTracked(Next(w, a, cfg), path)
  {
  }

  lemma SetRowIndexed(w: World, a: Action, path: string, cfg: Config)
    requires Indexed(w, path, cfg) && a.SetRow? && LeavesAlone(w, a, path)
    ensures RowTracked(Next(w, a, cfg), path)
  {
  }

  lemma StepKeepsIndexed(w: World, a: Action, path: string, cfg: Config)
    requires Indexed(w, path, cfg) && Enabled(w, a) && Exclusive(w, a) && LeavesAlone(w, a, path)
    ensures Indexed(Next(w, a, cfg), path, cfg)
  {
    hide Safe, RowTracked, Next;
    StepKeepsSafe(w, a, path, cfg);
    if ScanAction(a) {
      ScanStepIndexed(w, a, path, cfg);
    } else if a.SetPath? {
      SetPathIndexed(w, a, path, cfg);
    } else if a.SetRow? {
      SetRowIndexed(w, a, path, cfg);
    } else if a.EndScan? || a.Crash? {
      ForgetIndexed(w, a, path, cfg);
    } else {
      RunStepIndexed(w, a, path, cfg);
    }
  }

  lemma {:induction false} RunKeepsIndexed(w: World, run: seq<Action>, path: string, cfg: Config)
    requires Indexed(w, path, cfg) && Possible(w, run, cfg) && QuietRun(w, run, path, cfg)
    ensures Indexed(After(w, run, cfg), path, cfg)
    decreases |run|
  {
    if run != [] {
      StepKeepsIndexed(w, run[0], path, cfg);
      RunKeepsIndexed(Next(w, run[0], cfg), run[1..], path, cfg);
    }
  }

  // ---- Journaled writes stay in the journal ----

  ghost predicate Listed(w: World) {
    forall id <- w.past.enqueued :: id in Ids(w.store.journal)
  }

  lemma UpdatesKeepIds(j: Log, id: string)
    ensures forall st: Status, applied: bool :: Ids(MarkedIf(j, id, st, applied)) == Ids(j)
    ensures Ids(WithAttempt(j, id)) == Ids(j)
  {
  }

  lemma EnqueueKeepsIds(j: Log, it: Intent)
    ensures Ids(j) <= Ids(Enqueued(j, it)) && it.id in Ids(Enqueued(j, it))
  {
    var ids, ids' := Ids(j), Ids(Enqueued(j, it));
    if HasId(j, it.id) {
      assert ids' == ids;
      var k :| 0 <= k < |j| && j[k].id == it.id;
      assert ids[k] == it.id;
    } else {
      assert ids' == ids + [it.id];
    }
  }

  lemma StepKeepsIds(w: World, a: Action, cfg: Config)
    requires Enabled(w, a)
    ensures Ids(w.store.journal) <= Ids(Next(w, a, cfg).store.journal)
    ensures a.Start? && a.enqueue.Succeeded? ==> a.req.id in Ids(Next(w, a, cfg).store.journal)
  {
    var j := w.store.journal;
    if a.Start? {
      EnqueueKeepsIds(j, IntentOf(a.req));
    } else if a.FinishDone? || a.FinishAborted? {
      UpdatesKeepIds(j, a.id);
    } else if a.ScanAbort? || a.ScanRetry? || a.ScanMark? {
      UpdatesKeepIds(j, w.scan.it.id);
    }
  }

  lemma StepKeepsListed(w: World, a: Action, cfg: Config)
    requires Listed(w) && Enabled(w, a)
    ensures Listed(Next(w, a, cfg))
  {
    StepKeepsIds(w, a, cfg);
    var w' := Next(w, a, cfg);
    var ids, ids' := Ids(w.store.journal), Ids(w'.store.journal);
    forall id <- w.past.enqueued ensures id in ids' {
      var k :| 0 <= k < |ids| && ids[k] == id;
      assert ids'[k] == id;
    }
  }

  lemma {:induction false} RunKeepsListed(w: World, run: seq<Action>, cfg: Config)
    requires Listed(w) && Possible(w, run, cfg)
    ensures Listed(After(w, run, cfg))
    decreases |run|
  {
    if run != [] {
      StepKeepsListed(w, run[0], cfg);
      RunKeepsListed(Next(w, run[0], cfg), run[1..], cfg);
    }
  }

  // ---- Crash safety ----

  // What became of a write that took effect.
  ghost predicate Accounted(it: Intent, past: History, hasNodes: bool) {
    match it.status
    case Pending => true
    case Done => hasNodes ==> Witnessed(past, it.absPath, it.actor, it.nodeType)
    case Aborted => it.id in past.causes && HarmlessCause(past.causes[it.id])
  }

  // ---- What an aborted intent says ----

  // Every aborted entry has a recorded cause, and an error after landing is one of a call that landed.
  ghost predicate CausesKnown(w: World) {
    && (forall k :: 0 <= k < |w.store.journal| && w.store.journal[k].status.Aborted? ==>
          w.store.journal[k].id in w.past.causes)
    && (forall id :: id in w.past.causes && w.past.causes[id].ErrorAfterLanding? ==> id in w.past.landings)
    && (forall id :: id in w.running && (w.running[id].phase.Landed? || w.running[id].phase == Failing(true)) ==>
          id in w.past.landings)
  }

  lemma RunStepKeepsCauses(w: World, a: Action, cfg: Config)
    requires CausesKnown(w) && Enabled(w, a)
    requires a.Start? || a.Land? || a.Fail? || a.StatTarget? || a.Record?
    ensures CausesKnown(Next(w, a, cfg))
  {
  }

  lemma MarkKeepsCauses(w: World, a: Action, cfg: Config)
    requires CausesKnown(w) && Enabled(w, a)
    requires a.FinishDone? || a.FinishAborted? || a.ScanAbort? || a.ScanMark?
    ensures CausesKnown(Next(w, a, cfg))
  {
  }

  lemma OtherKeepsCauses(w: World, a: Action, cfg: Config)
    requires CausesKnown(w) && Enabled(w, a)
    requires a.ListBatch? || a.ScanStat? || a.ScanUpsert? || a.ScanRetry? || a.EndScan?
          || a.Crash? || a.SetPath? || a.SetRow?
    ensures CausesKnown(Next(w, a, cfg))
  {
  }

  lemma {:induction false} RunKeepsCauses(w: World, run: seq<Action>, cfg: Config)
    requires CausesKnown(w) && Possible(w, run, cfg)
    ensures CausesKnown(After(w, run, cfg))
    decreases |run|
  {
    if run != [] {
      hide CausesKnown, Next;
      var a := run[0];
      if a.Start? || a.Land? || a.Fail? || a.StatTarget? || a.Record? {
        RunStepKeepsCauses(w, a, cfg);
      } else if a.FinishDone? || a.FinishAborted? || a.ScanAbort? || a.ScanMark? {
        MarkKeepsCauses(w, a, cfg);
      } else {
        OtherKeepsCauses(w, a, cfg);
      }
      RunKeepsCauses(Next(w, a, cfg), run[1..], cfg);
    }
  }

  // What an aborted intent tells of a path not deleted after a write landed on it. Its write took
  // effect exactly when it was aborted for an error after landing, unless recovery ran out of tries,
  // which tells nothing.
  lemma AbortedMeansNotLanded(w: World, run: seq<Action>, path: string, k: nat, cfg: Config)
    requires Initial(w) && Possible(w, run, cfg) && KeptRun(w, run, path, cfg)
    requires var j := After(w, run, cfg).store.journal;
             k < |j| && j[k].absPath == path && j[k].status.Aborted?
    ensures var w' := After(w, run, cfg);
            var id := w'.store.journal[k].id;
            && id in w'.past.causes
            && (!w'.past.causes[id].TriesExhausted? ==>
                  (id in w'.past.landings <==> w'.past.causes[id].ErrorAfterLanding?))
  {
    RunKeepsSafe(w, run, path, cfg);
    RunKeepsCauses(w, run, cfg);
  }

  // However writes, scans, crashes and outside changes follow one another, a journaled write that took
  // effect on a path not deleted since has an intent, and that intent is pending, or done with its
  // owner recorded on an inode the path had, or aborted because the write reported an error after
  // taking effect or because recovery ran out of tries.
  lemma LandedWritesAreSafe(w: World, run: seq<Action>, path: string, id: string, cfg: Config)
    requires Initial(w) && Possible(w, run, cfg) && KeptRun(w, run, path, cfg)
    requires var past := After(w, run, cfg).past;
             id in past.enqueued && id in past.landings && past.landings[id] == path
    ensures var w' := After(w, run, cfg);
            exists k :: 0 <= k < |w'.store.journal| && w'.store.journal[k].id == id
              && w'.store.journal[k].absPath == path && Accounted(w'.store.journal[k], w'.past, cfg.hasNodes)
  {
    RunKeepsSafe(w, run, path, cfg);
    RunKeepsListed(w, run, cfg);
    var w' := After(w, run, cfg);
    var ids := Ids(w'.store.journal);
    var k :| 0 <= k < |ids| && ids[k] == id;
    assert w'.store.journal[k].id == id && NotLost(w'.store.journal[k], w'.past.causes);
  }

  // Once the last write that took effect on a path is done, the inode the path has now has a row,
  // however many writers raced for the path, if from the first of them on nothing else put an inode
  // there or deleted the row of the one there.
  lemma LastDoneHasRow(w: World, run: seq<Action>, path: string, k: nat, cfg: Config)
    requires Initial(w) && Possible(w, run, cfg) && QuietRun(w, run, path, cfg) && cfg.hasNodes
    requires var w' := After(w, run, cfg);
             && WrittenTo(w', path) && k < |w'.store.journal|
             && w'.store.journal[k].id == w'.past.lastLanded[path] && w'.store.journal[k].status.Done?
    ensures CurrentHasRow(After(w, run, cfg), path)
  {
    RunKeepsIndexed(w, run, path, cfg);
  }
}
