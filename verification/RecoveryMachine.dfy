// A whole recovery pass on the write protocol's machine: nothing coming between, it is the function
// Recover, and after a crash one steady pass restores every landed write.
module RecoveryMachine {
  import opened FileDomain
  import opened IntentLog
  import opened Reconciliation
  import opened RecoveryEquivalence
  import opened WriteProtocol
  import opened WriteHonesty
  import opened WriteSafety
  import opened WriteCrashSafety
  import opened WriteOwnership
  import opened Recorder

  // ---- Runs one after the other ----

  lemma {:induction false} RunsCompose(w: World, a: seq<Action>, b: seq<Action>, cfg: Config)
    requires Possible(w, a, cfg) && Possible(After(w, a, cfg), b, cfg)
    ensures Possible(w, a + b, cfg) && After(w, a + b, cfg) == After(After(w, a, cfg), b, cfg)
    decreases |a|
  {
    if a == [] {
      assert a + b == b;
    } else {
      assert (a + b)[1..] == a[1..] + b;
      RunsCompose(Next(w, a[0], cfg), a[1..], b, cfg);
    }
  }

  // The run is a stretch of scanning: it changes the scan, the journal, the index and the history only.
  predicate ScanOnly(run: seq<Action>) {
    forall a <- run :: ScanAction(a) || a.EndScan?
  }

  lemma ScanStepLeavesAlone(w: World, a: Action, cfg: Config)
    requires Enabled(w, a) && (ScanAction(a) || a.EndScan?)
    ensures var w' := Next(w, a, cfg);
            && w'.running == w.running && w'.tree == w.tree
            && w'.past.lastLanded == w.past.lastLanded && w'.past.enqueued == w.past.enqueued
  {
  }

  lemma {:induction false} ScanLeavesAlone(w: World, run: seq<Action>, path: string, cfg: Config)
    requires Possible(w, run, cfg) && ScanOnly(run) && w.running == map[]
    ensures QuietRun(w, run, path, cfg) && After(w, run, cfg).running == map[] && After(w, run, cfg).tree == w.tree
    ensures After(w, run, cfg).past.lastLanded == w.past.lastLanded
    ensures After(w, run, cfg).past.enqueued == w.past.enqueued
    decreases |run|
  {
    if run != [] {
      assert run[0] in run;
      ScanStepLeavesAlone(w, run[0], cfg);
      ScanLeavesAlone(Next(w, run[0], cfg), run[1..], path, cfg);
    }
  }

  // ---- The machine's scan takes the reconciliation's steps ----

  function ScanSteps(it: Intent, mode: StatMode, a: Answer, cfg: Config): seq<Action> {
    [ScanStat(mode)] +
    match a.stat
    case StatFailed => [ScanRetry(a.markApplied)]
    case Missing => [ScanAbort(a.markApplied)]
    case Present(inode) =>
      if inode == 0 then [ScanRetry(a.markApplied)]
      else if cfg.hasNodes && a.upsert.Failed? then [ScanUpsert(a.upsert), ScanRetry(a.markApplied)]
      else [ScanUpsert(a.upsert), ScanMark(a.markApplied)]
  }

  // Reconciling the next listed intent without interference is what Reconcile says it is.
  lemma ScanAloneIsReconcile(w: World, mode: StatMode, a: Answer, cfg: Config)
    requires w.scan.Scanning? && w.scan.queue != [] && Enabled(w, ScanStat(mode))
    requires a.stat == StatOf(w.tree, w.scan.queue[0].absPath, mode)
    ensures var it, run := w.scan.queue[0], ScanSteps(w.scan.queue[0], mode, a, cfg);
            && Possible(w, run, cfg)
            && After(w, run, cfg).store == Reconcile(w.store, it, a, cfg).0
            && After(w, run, cfg).scan == Scanning(w.scan.queue[1..])
            && After(w, run, cfg).tree == w.tree && After(w, run, cfg).running == w.running
  {
    var run := ScanSteps(w.scan.queue[0], mode, a, cfg);
    var w1 := Next(w, ScanStat(mode), cfg);
    if |run| == 2 {
      OneStep(w1, run[1], cfg);
      OneMore(w, run[0], [run[1]], cfg);
    } else {
      var w2 := Next(w1, run[1], cfg);
      OneStep(w2, run[2], cfg);
      OneMore(w1, run[1], [run[2]], cfg);
      OneMore(w, run[0], [run[1], run[2]], cfg);
    }
  }

  // ---- A pass ----

  // How the storage has to answer so that the machine's tree gives the answers of env.
  ghost predicate Truthful(env: Env, tree: map<string, nat>, modes: (nat, string) -> StatMode) {
    forall k: nat, p: string ::
      && (modes(k, p).InodeUnresolved? ==> p in tree)
      && env.answers(k, p).stat == StatOf(tree, p, modes(k, p))
  }

  // The run takes the machine to this store, with the tree and the calls in flight as they were.
  ghost predicate Reaches(w: World, run: seq<Action>, s: Store, cfg: Config) {
    && Possible(w, run, cfg) && ScanOnly(run)
    && After(w, run, cfg).store == s && After(w, run, cfg).tree == w.tree && After(w, run, cfg).running == w.running
    && !After(w, run, cfg).scan.Statted? && !After(w, run, cfg).scan.Retrying? && !After(w, run, cfg).scan.ToMark?
  }

  lemma {:induction false} MachineSweeps(w: World, env: Env, modes: (nat, string) -> StatMode, total: Stats,
                                         cfg: Config) returns (run: seq<Action>)
    requires w.scan.Scanning? && Truthful(env, w.tree, modes)
    ensures Reaches(w, run, Sweep(w.store, w.scan.queue, env, total, cfg).store, cfg)
    ensures After(w, run, cfg).scan.Scanning?
    ensures !Sweep(w.store, w.scan.queue, env, total, cfg).cancelled ==> After(w, run, cfg).scan.queue == []
    decreases |w.scan.queue|
  {
    var queue := w.scan.queue;
    if queue == [] {
      run := [];
    } else {
      var it := queue[0];
      var mode, a := modes(total.scanned, it.absPath), env.answers(total.scanned, it.absPath);
      var head := ScanSteps(it, mode, a, cfg);
      ScanAloneIsReconcile(w, mode, a, cfg);
      var w1 := After(w, head, cfg);
      var (s1, o) := Reconcile(w.store, it, a, cfg);
      if env.CancelledAfter(total.Count(o).scanned) {
        run := head;
      } else {
        var rest := MachineSweeps(w1, env, modes, total.Count(o), cfg);
        RunsCompose(w, head, rest, cfg);
        run := head + rest;
      }
    }
  }

  lemma {:induction false} MachinePasses(w: World, env: Env, modes: (nat, string) -> StatMode, round: nat, total: Stats,
                                         cfg: Config) returns (run: seq<Action>)
    requires w.scan.Idle? || (w.scan.Scanning? && w.scan.queue == [])
    requires Truthful(env, w.tree, modes) && UniqueIds(w.store.journal)
    requires SureToEndOn(w.store.journal, env, cfg) && cfg.batchSize >= 1
    ensures Reaches(w, run, Pass(w.store, env, round, total, cfg).store, cfg)
    decreases if env.deadline.Some? then env.deadline.value - total.scanned else Budget(w.store.journal, cfg.maxTries)
  {
    var pending := Take(PendingOf(w.store.journal), cfg.batchSize);
    run := [];
    if env.listOk(round) && pending != [] {
      var w1 := Next(w, ListBatch, cfg);
      OneStep(w, ListBatch, cfg);
      var r := Sweep(w.store, pending, env, total, cfg);
      var sweep := MachineSweeps(w1, env, modes, total, cfg);
      RunsCompose(w, [ListBatch], sweep, cfg);
      run := [ListBatch] + sweep;
      if !r.cancelled && r.stats.Resolved() != total.Resolved() && |pending| >= cfg.batchSize {
        BatchInSync(w.store.journal, cfg.batchSize);
        SweepUnique(w.store, pending, env, total, cfg);
        SweepScans(w.store, pending, env, total, cfg);
        SweepSpendsUnlessBounded(w.store, pending, env, total, cfg);
        var w2 := After(w, run, cfg);
        var rest := MachinePasses(w2, env, modes, round + 1, r.stats, cfg);
        RunsCompose(w, run, rest, cfg);
        run := run + rest;
      }
    }
  }

  // The machine, scanning from start to end with nothing in between, does what Recover says.
  lemma PassAloneIsRecover(w: World, env: Env, modes: (nat, string) -> StatMode, cfg: Config) returns (run: seq<Action>)
    requires w.scan.Idle? && Truthful(env, w.tree, modes)
    requires UniqueIds(w.store.journal) && SureToEndOn(w.store.journal, env, cfg) && cfg.batchSize >= 1
    ensures Reaches(w, run, Recover(w.store, env, cfg).store, cfg)
  {
    run := MachinePasses(w, env, modes, 0, NO_STATS, cfg);
  }

  // ---- From a crash to the end of recovery ----

  lemma {:induction false} QuietRunsCompose(w: World, a: seq<Action>, b: seq<Action>, path: string, cfg: Config)
    requires Possible(w, a, cfg) && Possible(After(w, a, cfg), b, cfg)
    requires QuietRun(w, a, path, cfg) && QuietRun(After(w, a, cfg), b, path, cfg)
    ensures Possible(w, a + b, cfg) && QuietRun(w, a + b, path, cfg)
    decreases |a|
  {
    RunsCompose(w, a, b, cfg);
    if a == [] {
      assert a + b == b;
    } else {
      assert (a + b)[1..] == a[1..] + b;
      QuietRunsCompose(Next(w, a[0], cfg), a[1..], b, path, cfg);
    }
  }

  // The intent of the last write on the path was enqueued, and is pending or done.
  ghost predicate LastNotAborted(w: World, path: string) {
    && WrittenTo(w, path) && w.past.lastLanded[path] in w.past.enqueued
    && forall k :: 0 <= k < |w.store.journal| && w.store.journal[k].id == w.past.lastLanded[path] ==>
         !w.store.journal[k].status.Aborted?
  }

  // A run that crashes.
  function Crashed(w: World, run: seq<Action>, cfg: Config): World
    requires Possible(w, run, cfg)
  {
    Next(After(w, run, cfg), Crash, cfg)
  }

  lemma CrashedRun(w: World, run: seq<Action>, path: string, cfg: Config)
    requires Possible(w, run, cfg) && QuietRun(w, run, path, cfg)
    ensures Possible(w, run + [Crash], cfg) && QuietRun(w, run + [Crash], path, cfg)
    ensures After(w, run + [Crash], cfg) == Crashed(w, run, cfg)
  {
    OneStep(After(w, run, cfg), Crash, cfg);
    RunsCompose(w, run, [Crash], cfg);
    QuietRunsCompose(w, run, [Crash], path, cfg);
  }

  lemma SteadyIsTruthful(env: Env, tree: map<string, nat>) returns (modes: (nat, string) -> StatMode)
    requires Steady(env, tree)
    ensures Truthful(env, tree, modes)
  {
    modes := (k, p) => StatWorks;
  }

  // Whatever recorded writes did before a crash, one pass over a tree that holds still and whose inodes
  // resolve leaves nothing pending, and gives a row to the inode of every quiet path whose last write
  // was journaled and had not been given up; where inodes are fresh, the row of a write to that path.
  lemma CrashThenRecover(w: World, run: seq<Action>, env: Env, cfg: Config) returns (recovery: seq<Action>)
    requires Initial(w) && Possible(w, run, cfg) && cfg.hasNodes && cfg.batchSize >= 1
    requires Resolvable(Crashed(w, run, cfg).tree) && Steady(env, Crashed(w, run, cfg).tree)
    ensures UniqueIds(Crashed(w, run, cfg).store.journal)
    ensures var w1 := Crashed(w, run, cfg);
            && Reaches(w1, recovery, Recover(w1.store, env, cfg).store, cfg)
            && PendingOf(After(w1, recovery, cfg).store.journal) == []
            && (forall path :: QuietRun(w, run, path, cfg) && LastNotAborted(w1, path) ==>
                  CurrentHasRow(After(w1, recovery, cfg), path))
            && (forall path ::
                  QuietRun(w, run, path, cfg) && FreshRun(w, run, path, cfg) && LastNotAborted(w1, path) ==>
                  RowOfWriter(After(w1, recovery, cfg), run, path))
  {
    var w1 := Crashed(w, run, cfg);
    RunKeepsHonest(w, run, cfg);
    var modes := SteadyIsTruthful(env, w1.tree);
    recovery := PassAloneIsRecover(w1, env, modes, cfg);
    BatchSizeIndependence(w1.store, env, w1.tree, cfg);
    forall path | QuietRun(w, run, path, cfg) && LastNotAborted(w1, path)
      ensures CurrentHasRow(After(w1, recovery, cfg), path)
    {
      QuietPathHasRow(w, run, recovery, env, path, cfg);
    }
    forall path | QuietRun(w, run, path, cfg) && LastNotAborted(w1, path) && FreshRun(w, run, path, cfg)
      ensures RowOfWriter(After(w1, recovery, cfg), run, path)
    {
      QuietPathHasRow(w, run, recovery, env, path, cfg);
      FreshPathRow(w, run, recovery, path, cfg);
    }
  }

  lemma {:induction false} FreshRunsCompose(w: World, a: seq<Action>, b: seq<Action>, path: string, cfg: Config)
    requires Possible(w, a, cfg) && Possible(After(w, a, cfg), b, cfg)
    requires FreshRun(w, a, path, cfg) && FreshRun(After(w, a, cfg), b, path, cfg)
    ensures Possible(w, a + b, cfg) && FreshRun(w, a + b, path, cfg)
    decreases |a|
  {
    RunsCompose(w, a, b, cfg);
    if a == [] {
      assert a + b == b;
    } else {
      assert (a + b)[1..] == a[1..] + b;
      FreshRunsCompose(Next(w, a[0], cfg), a[1..], b, path, cfg);
    }
  }

  lemma {:induction false} CrashAndScanAreFresh(w: World, run: seq<Action>, path: string, cfg: Config)
    requires Possible(w, run, cfg) && forall a <- run :: ScanAction(a) || a.EndScan? || a.Crash?
    ensures FreshRun(w, run, path, cfg)
    decreases |run|
  {
    if run != [] {
      assert run[0] in run;
      CrashAndScanAreFresh(Next(w, run[0], cfg), run[1..], path, cfg);
    }
  }

  // A row there after the recovery is that of a write before the crash.
  lemma FreshPathRow(w: World, run: seq<Action>, recovery: seq<Action>, path: string, cfg: Config)
    requires Initial(w) && Possible(w, run, cfg) && cfg.hasNodes
    requires QuietRun(w, run, path, cfg) && FreshRun(w, run, path, cfg) && WrittenTo(Crashed(w, run, cfg), path)
    requires var w1 := Crashed(w, run, cfg);
             Possible(w1, recovery, cfg) && ScanOnly(recovery) && CurrentHasRow(After(w1, recovery, cfg), path)
    ensures RowOfWriter(After(Crashed(w, run, cfg), recovery, cfg), run, path)
  {
    hide After, Possible, QuietRun, FreshRun, Next;
    var w1, rest := Crashed(w, run, cfg), [Crash] + recovery;
    CrashThen(w, run, recovery, path, cfg);
    RunsCompose(w, run, rest, cfg);
    QuietRunsCompose(w, run, rest, path, cfg);
    CrashAndScanAreFresh(After(w, run, cfg), rest, path, cfg);
    FreshRunsCompose(w, run, rest, path, cfg);
    TracedRowOfWriter(w, run + rest, path, cfg);
    var w2 := After(w, run + rest, cfg);
    var a :| a in run + rest && a.Start? && a.req.path == path
      && w2.store.rows[w2.tree[path]] == RecordOf(NodeMutation(w2.tree[path], a.req.actor, a.req.nodeType));
    assert a in run;
  }

  lemma CrashThen(w: World, run: seq<Action>, recovery: seq<Action>, path: string, cfg: Config)
    requires Possible(w, run, cfg)
    requires Possible(Crashed(w, run, cfg), recovery, cfg) && ScanOnly(recovery)
    ensures var w0, rest := After(w, run, cfg), [Crash] + recovery;
            && Possible(w0, rest, cfg) && After(w0, rest, cfg) == After(Crashed(w, run, cfg), recovery, cfg)
            && QuietRun(w0, rest, path, cfg)
            && After(w0, rest, cfg).past.lastLanded == Crashed(w, run, cfg).past.lastLanded
  {
    var w0, w1 := After(w, run, cfg), Crashed(w, run, cfg);
    OneMore(w0, Crash, recovery, cfg);
    ScanLeavesAlone(w1, recovery, path, cfg);
    assert ([Crash] + recovery)[1..] == recovery;
  }

  lemma QuietPathHasRow(w: World, run: seq<Action>, recovery: seq<Action>, env: Env, path: string, cfg: Config)
    requires Initial(w) && Possible(w, run, cfg) && QuietRun(w, run, path, cfg) && cfg.hasNodes && cfg.batchSize >= 1
    requires var w1 := Crashed(w, run, cfg);
             && Resolvable(w1.tree) && Steady(env, w1.tree) && UniqueIds(w1.store.journal)
             && LastNotAborted(w1, path) && Reaches(w1, recovery, Recover(w1.store, env, cfg).store, cfg)
    ensures CurrentHasRow(After(Crashed(w, run, cfg), recovery, cfg), path)
  {
    hide After, Possible, QuietRun, CurrentHasRow, Resolvable, Steady, Recover, ScanOnly, UniqueIds, PendingOf;
    var w1 := Crashed(w, run, cfg);
    var w2 := After(w1, recovery, cfg);
    CrashedRun(w, run, path, cfg);
    ScanLeavesAlone(w1, recovery, path, cfg);
    RunsCompose(w, run + [Crash], recovery, cfg);
    QuietRunsCompose(w, run + [Crash], recovery, path, cfg);
    var k := LastIsDone(w, run, w2, path, env, cfg);
    LastDoneHasRow(w, run + [Crash] + recovery, path, k, cfg);
  }

  // After that pass the entry of the last write is done.
  lemma LastIsDone(w: World, run: seq<Action>, w2: World, path: string, env: Env, cfg: Config) returns (k: nat)
    requires Initial(w) && Possible(w, run, cfg) && QuietRun(w, run, path, cfg) && cfg.hasNodes && cfg.batchSize >= 1
    requires var w1 := Crashed(w, run, cfg);
             && Resolvable(w1.tree) && Steady(env, w1.tree) && UniqueIds(w1.store.journal)
             && LastNotAborted(w1, path) && w2.store == Recover(w1.store, env, cfg).store
             && w2.past.lastLanded == w1.past.lastLanded
    ensures k < |w2.store.journal| && w2.store.journal[k].id == w2.past.lastLanded[path]
    ensures w2.store.journal[k].status.Done?
  {
    var w1 := Crashed(w, run, cfg);
    CrashedRun(w, run, path, cfg);
    RunKeepsListed(w, run + [Crash], cfg);
    RunKeepsIndexed(w, run + [Crash], path, cfg);
    var ids := Ids(w1.store.journal);
    k :| 0 <= k < |ids| && ids[k] == w1.past.lastLanded[path];
    BatchSizeIndependence(w1.store, env, w1.tree, cfg);
    assert w1.store.journal[k].absPath == path && path in w1.tree;
  }
}
