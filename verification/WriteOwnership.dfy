// Whose row it is: where inodes are not reused, the row of a path's inode is that of a recorded write
// to the path.
module WriteOwnership {
  import opened FileDomain
  import opened IntentLog
  import opened Reconciliation
  import opened WriteProtocol
  import opened WriteHonesty
  import opened WriteSafety
  import opened WriteCrashSafety

  // ---- Who asked for what ----

  ghost predicate Asked(past: History, path: string, actor: NodeActor, t: Option<NodeType>) {
    exists req :: req in past.asked && req.path == path && req.actor == actor && req.nodeType == t
  }

  ghost predicate ItemAsked(past: History, it: Intent) {
    Asked(past, it.absPath, it.actor, it.nodeType)
  }

  ghost predicate LogAsked(past: History, its: Log) {
    forall k :: 0 <= k < |its| ==> ItemAsked(past, its[k])
  }

  ghost predicate RunsAsked(past: History, running: map<string, InFlight>) {
    forall id :: id in running ==> running[id].req in past.asked
  }

  ghost predicate ScanAsked(past: History, scan: Scan) {
    && (!scan.Idle? ==> LogAsked(past, scan.queue))
    && (HoldsItem(scan) ==> ItemAsked(past, scan.it))
  }

  // Every entry, every call in flight and everything in the scan's hands is some call's.
  ghost predicate AllAsked(w: World) {
    LogAsked(w.past, w.store.journal) && RunsAsked(w.past, w.running) && ScanAsked(w.past, w.scan)
  }

  lemma AskedKept(past: History, past': History, its: Log)
    requires past.asked <= past'.asked && LogAsked(past, its)
    ensures LogAsked(past', its)
  {
    forall k | 0 <= k < |its| ensures ItemAsked(past', its[k]) {
      var req :| req in past.asked && req.path == its[k].absPath && req.actor == its[k].actor
        && req.nodeType == its[k].nodeType;
      assert req in past'.asked;
    }
  }

  // Entries whose path, actor and type stay are asked for as before.
  lemma UpdatedAsked(past: History, its: Log, its': Log)
    requires LogAsked(past, its) && |its'| == |its|
    requires forall k :: 0 <= k < |its| ==>
               its'[k].absPath == its[k].absPath && its'[k].actor == its[k].actor && its'[k].nodeType == its[k].nodeType
    ensures LogAsked(past, its')
  {
    forall k | 0 <= k < |its'| ensures ItemAsked(past, its'[k]) {
      assert ItemAsked(past, its[k]);
    }
  }

  lemma StartAsked(w: World, req: Request, enqueue: CallResult)
    requires AllAsked(w) && !HasId(w.store.journal, req.id)
    ensures AllAsked(StartRun(w, req, enqueue))
  {
    var w' := StartRun(w, req, enqueue);
    var j' := w'.store.journal;
    assert j' == w.store.journal || j' == w.store.journal + [IntentOf(req)];
    AskedKept(w.past, w'.past, w.store.journal);
    assert req in w'.past.asked && ItemAsked(w'.past, IntentOf(req));
    if !w.scan.Idle? {
      AskedKept(w.past, w'.past, w.scan.queue);
    }
    if HoldsItem(w.scan) {
      AskedKept(w.past, w'.past, [w.scan.it]);
      assert ItemAsked(w'.past, [w.scan.it][0]);
    }
  }

  lemma ListAsked(w: World, n: nat)
    requires AllAsked(w)
    ensures LogAsked(w.past, Take(PendingOf(w.store.journal), n))
  {
    var j, batch := w.store.journal, Take(PendingOf(w.store.journal), n);
    PendingMembers(j);
    forall k | 0 <= k < |batch| ensures ItemAsked(w.past, batch[k]) {
      assert batch[k] in PendingOf(j);
      var i := PositionOf(j, batch[k]);
    }
  }

  lemma RunStepAsked(w: World, a: Action, cfg: Config)
    requires AllAsked(w) && Enabled(w, a) && (a.Land? || a.Fail? || a.StatTarget? || a.Record?)
    ensures AllAsked(Next(w, a, cfg))
  {
    hide LogAsked;
    AskedSame(w.past, Next(w, a, cfg).past, w.store.journal, w.scan);
  }

  lemma AskedSame(past: History, past': History, its: Log, scan: Scan)
    requires past'.asked == past.asked && LogAsked(past, its) && ScanAsked(past, scan)
    ensures LogAsked(past', its) && ScanAsked(past', scan)
  {
    AskedKept(past, past', its);
    if !scan.Idle? {
      AskedKept(past, past', scan.queue);
    }
    if HoldsItem(scan) {
      AskedKept(past, past', [scan.it]);
      assert ItemAsked(past', [scan.it][0]);
    }
  }

  // Nobody new asks, and every entry keeps its path, actor and type.
  ghost predicate Updates(w: World, w': World) {
    && |w'.store.journal| == |w.store.journal| && w'.past.asked == w.past.asked
    && (forall id :: id in w'.running ==> id in w.running && w'.running[id] == w.running[id])
    && forall k :: 0 <= k < |w.store.journal| ==>
         && w'.store.journal[k].absPath == w.store.journal[k].absPath
         && w'.store.journal[k].actor == w.store.journal[k].actor
         && w'.store.journal[k].nodeType == w.store.journal[k].nodeType
  }

  lemma MarkUpdates(w: World, a: Action, cfg: Config)
    requires Enabled(w, a) && (a.FinishDone? || a.FinishAborted? || a.ScanAbort? || a.ScanMark?)
    ensures Updates(w, Next(w, a, cfg))
  {
  }

  lemma OtherStepUpdates(w: World, a: Action, cfg: Config)
    requires Enabled(w, a) && (a.ScanStat? || a.ScanRetry? || a.ScanUpsert? || a.EndScan?
                               || a.Crash? || a.SetPath? || a.SetRow?)
    ensures Updates(w, Next(w, a, cfg))
  {
  }

  lemma OtherStepAsked(w: World, a: Action, cfg: Config)
    requires AllAsked(w) && Enabled(w, a) && !a.Start? && !a.Land? && !a.Fail? && !a.StatTarget? && !a.Record?
    ensures AllAsked(Next(w, a, cfg))
  {
    var w' := Next(w, a, cfg);
    if a.ListBatch? {
      ListAsked(w, cfg.batchSize);
    } else {
      hide LogAsked, ScanAsked, Next;
      if a.FinishDone? || a.FinishAborted? || a.ScanAbort? || a.ScanMark? {
        MarkUpdates(w, a, cfg);
      } else {
        OtherStepUpdates(w, a, cfg);
      }
      UpdatedAsked(w.past, w.store.journal, w'.store.journal);
      NextScanAsked(w, a, cfg);
      AskedSame(w.past, w'.past, w'.store.journal, w'.scan);
    }
  }

  lemma NextScanAsked(w: World, a: Action, cfg: Config)
    requires ScanAsked(w.past, w.scan) && Enabled(w, a) && !a.ListBatch?
    ensures ScanAsked(w.past, Next(w, a, cfg).scan)
  {
  }

  // ---- One inode, one path ----

  // New inodes are fresh, and once a write landed on the path nothing outside gives its inode another
  // name or a row.
  ghost predicate FreshStep(w: World, a: Action, path: string) {
    && (a.Land? ==> a.inode !in w.store.rows && forall p :: (p, a.inode) !in w.past.had)
    && (WrittenTo(w, path) && path in w.tree ==>
          && (a.SetPath? && a.node.Some? ==> a.node.value != w.tree[path])
          && (a.SetRow? && a.row.Some? ==> a.inode != w.tree[path]))
  }

  ghost predicate FreshRun(w: World, run: seq<Action>, path: string, cfg: Config)
    requires Possible(w, run, cfg)
    decreases |run|
  {
    run == [] || (FreshStep(w, run[0], path) && FreshRun(Next(w, run[0], cfg), run[1..], path, cfg))
  }

  ghost predicate SoleInode(w: World, path: string) {
    WrittenTo(w, path) ==> path in w.tree && forall p :: (p, w.tree[path]) in w.past.had ==> p == path
  }

  // The row is what a write to the path by some call records.
  ghost predicate RowFrom(past: History, path: string, i: nat, row: NodeRecord) {
    exists req :: req in past.asked && req.path == path && row == RecordOf(NodeMutation(i, req.actor, req.nodeType))
  }

  ghost predicate RowAsked(w: World, path: string) {
    WrittenTo(w, path) && path in w.tree && w.tree[path] in w.store.rows ==>
      RowFrom(w.past, path, w.tree[path], w.store.rows[w.tree[path]])
  }

  ghost predicate Traced(w: World, path: string, cfg: Config) {
    Indexed(w, path, cfg) && AllAsked(w) && SoleInode(w, path) && RowAsked(w, path)
  }

  lemma LandTraced(w: World, a: Action, path: string, cfg: Config)
    requires Traced(w, path, cfg) && Enabled(w, a) && a.Land? && FreshStep(w, a, path)
    ensures SoleInode(Next(w, a, cfg), path) && RowAsked(Next(w, a, cfg), path)
  {
    hide AllAsked;
    assert path in w.tree ==> (path, w.tree[path]) in w.past.had;
    var w' := Next(w, a, cfg);
    if WrittenTo(w, path) && w.running[a.id].req.path != path {
      RowFromKept(w, w', path);
    }
  }

  // What stays in its place is as before.
  lemma RowFromKept(w: World, w': World, path: string)
    requires RowAsked(w, path) && WrittenTo(w, path) && w.past.asked <= w'.past.asked
    requires path in w.tree && path in w'.tree && w'.tree[path] == w.tree[path]
    requires w.tree[path] in w'.store.rows ==>
               w.tree[path] in w.store.rows && w'.store.rows[w.tree[path]] == w.store.rows[w.tree[path]]
    ensures RowAsked(w', path)
  {
    var i := w.tree[path];
    if i in w'.store.rows {
      var req :| req in w.past.asked && req.path == path
        && w.store.rows[i] == RecordOf(NodeMutation(i, req.actor, req.nodeType));
      assert req in w'.past.asked;
    }
  }

  lemma RecordTraced(w: World, a: Action, path: string, cfg: Config)
    requires Traced(w, path, cfg) && Enabled(w, a) && a.Record?
    ensures SoleInode(Next(w, a, cfg), path) && RowAsked(Next(w, a, cfg), path)
  {
    var w', run := Next(w, a, cfg), w.running[a.id];
    assert run.req in w.past.asked;
    if WrittenTo(w, path) {
      if run.phase.inode == w.tree[path] && w'.store.rows != w.store.rows {
        assert (run.req.path, run.phase.inode) in w.past.had;
        assert RowFrom(w'.past, path, w.tree[path], w'.store.rows[w.tree[path]]);
      } else {
        RowFromKept(w, w', path);
      }
    }
  }

  lemma ScanUpsertTraced(w: World, a: Action, path: string, cfg: Config)
    requires Traced(w, path, cfg) && Enabled(w, a) && a.ScanUpsert?
    ensures SoleInode(Next(w, a, cfg), path) && RowAsked(Next(w, a, cfg), path)
  {
    var w', it := Next(w, a, cfg), w.scan.it;
    if WrittenTo(w, path) {
      if w.scan.stat.inode == w.tree[path] && w'.store.rows != w.store.rows {
        assert (it.absPath, w.scan.stat.inode) in w.past.had;
        var req :| req in w.past.asked && req.path == it.absPath && req.actor == it.actor
          && req.nodeType == it.nodeType;
        assert req in w'.past.asked;
        assert RowFrom(w'.past, path, w.tree[path], w'.store.rows[w.tree[path]]);
      } else {
        RowFromKept(w, w', path);
      }
    }
  }

  lemma OutsideTraced(w: World, a: Action, path: string, cfg: Config)
    requires Traced(w, path, cfg) && FreshStep(w, a, path) && LeavesAlone(w, a, path) && (a.SetPath? || a.SetRow?)
    ensures SoleInode(Next(w, a, cfg), path) && RowAsked(Next(w, a, cfg), path)
  {
    if WrittenTo(w, path) {
      RowFromKept(w, Next(w, a, cfg), path);
    }
  }

  lemma StillSame(w: World, a: Action, cfg: Config)
    requires Enabled(w, a) && !a.Land? && !a.Record? && !a.ScanUpsert? && !a.SetPath? && !a.SetRow?
    ensures var w' := Next(w, a, cfg);
            && w'.tree == w.tree && w'.store.rows == w.store.rows && w'.past.had == w.past.had
            && w'.past.lastLanded == w.past.lastLanded && w.past.asked <= w'.past.asked
  {
  }

  lemma StillTraced(w: World, a: Action, path: string, cfg: Config)
    requires Traced(w, path, cfg) && Enabled(w, a)
    requires !a.Land? && !a.Record? && !a.ScanUpsert? && !a.SetPath? && !a.SetRow?
    ensures SoleInode(Next(w, a, cfg), path) && RowAsked(Next(w, a, cfg), path)
  {
    hide Next, AllAsked, Indexed;
    StillSame(w, a, cfg);
    if WrittenTo(w, path) {
      RowFromKept(w, Next(w, a, cfg), path);
    }
  }

  lemma StepKeepsAsked(w: World, a: Action, cfg: Config)
    requires Honest(w, cfg) && AllAsked(w) && Enabled(w, a)
    ensures AllAsked(Next(w, a, cfg))
  {
    hide AllAsked;
    if a.Start? {
      assert !HasId(w.store.journal, a.req.id);
      StartAsked(w, a.req, a.enqueue);
    } else if a.Land? || a.Fail? || a.StatTarget? || a.Record? {
      RunStepAsked(w, a, cfg);
    } else {
      OtherStepAsked(w, a, cfg);
    }
  }

  lemma StepKeepsTraced(w: World, a: Action, path: string, cfg: Config)
    requires Traced(w, path, cfg) && Enabled(w, a)
    requires Exclusive(w, a) && LeavesAlone(w, a, path) && FreshStep(w, a, path)
    ensures Traced(Next(w, a, cfg), path, cfg)
  {
    hide Next, AllAsked, SoleInode, RowAsked, FreshStep, LeavesAlone, Honest, Owned, Tracked, RowTracked;
    StepKeepsIndexed(w, a, path, cfg);
    StepKeepsAsked(w, a, cfg);
    if a.Land? {
      LandTraced(w, a, path, cfg);
    } else if a.Record? {
      RecordTraced(w, a, path, cfg);
    } else if a.ScanUpsert? {
      ScanUpsertTraced(w, a, path, cfg);
    } else if a.SetPath? || a.SetRow? {
      OutsideTraced(w, a, path, cfg);
    } else {
      StillTraced(w, a, path, cfg);
    }
  }

  lemma {:induction false} RunKeepsTraced(w: World, run: seq<Action>, path: string, cfg: Config)
    requires Traced(w, path, cfg) && Possible(w, run, cfg)
    requires QuietRun(w, run, path, cfg) && FreshRun(w, run, path, cfg)
    ensures Traced(After(w, run, cfg), path, cfg)
    decreases |run|
  {
    if run != [] {
      StepKeepsTraced(w, run[0], path, cfg);
      RunKeepsTraced(Next(w, run[0], cfg), run[1..], path, cfg);
    }
  }

  lemma {:induction false} AskedInRun(w: World, run: seq<Action>, req: Request, cfg: Config)
    requires Possible(w, run, cfg) && req in After(w, run, cfg).past.asked
    ensures req in w.past.asked || exists a :: a in run && a.Start? && a.req == req
    decreases |run|
  {
    if run != [] {
      var w1 := Next(w, run[0], cfg);
      AskedInRun(w1, run[1..], req, cfg);
      if req in w1.past.asked && req !in w.past.asked {
        assert run[0] in run && run[0].Start? && run[0].req == req;
      } else if req !in w.past.asked {
        var a :| a in run[1..] && a.Start? && a.req == req;
        assert a in run;
      }
    }
  }

  // The row of the path's inode is what some call of the run, made for this path, records.
  ghost predicate RowOfWriter(w': World, run: seq<Action>, path: string) {
    && CurrentHasRow(w', path)
    && exists a :: a in run && a.Start? && a.req.path == path
         && w'.store.rows[w'.tree[path]] == RecordOf(NodeMutation(w'.tree[path], a.req.actor, a.req.nodeType))
  }

  lemma TracedRowOfWriter(w: World, run: seq<Action>, path: string, cfg: Config)
    requires Initial(w) && Possible(w, run, cfg) && cfg.hasNodes
    requires QuietRun(w, run, path, cfg) && FreshRun(w, run, path, cfg)
    requires WrittenTo(After(w, run, cfg), path) && CurrentHasRow(After(w, run, cfg), path)
    ensures RowOfWriter(After(w, run, cfg), run, path)
  {
    RunKeepsTraced(w, run, path, cfg);
    var w' := After(w, run, cfg);
    var i := w'.tree[path];
    var req :| req in w'.past.asked && req.path == path
      && w'.store.rows[i] == RecordOf(NodeMutation(i, req.actor, req.nodeType));
    AskedInRun(w, run, req, cfg);
    var a :| a in run && a.Start? && a.req == req;
  }

  // Once the last write that took effect on the path is done, the row of the inode the path has now
  // names the actor and the type of some recorded write to this very path.
  lemma LastDoneNamesWriter(w: World, run: seq<Action>, path: string, k: nat, cfg: Config)
    requires Initial(w) && Possible(w, run, cfg) && cfg.hasNodes
    requires QuietRun(w, run, path, cfg) && FreshRun(w, run, path, cfg)
    requires var w' := After(w, run, cfg);
             && WrittenTo(w', path) && k < |w'.store.journal|
             && w'.store.journal[k].id == w'.past.lastLanded[path] && w'.store.journal[k].status.Done?
    ensures RowOfWriter(After(w, run, cfg), run, path)
  {
    LastDoneHasRow(w, run, path, k, cfg);
    TracedRowOfWriter(w, run, path, cfg);
  }
}
