// What recovery does when the storage holds still and every call succeeds: the batched loop is one
// fold over the pending intents in enqueue order, and cutting it short any number of times changes
// nothing in the end.
module RecoveryEquivalence {
  import opened FileDomain
  import opened IntentLog
  import opened Reconciliation

  // The inodes of the existing paths.
  type PathTable = map<string, nat>

  ghost predicate Resolvable(tree: PathTable) {
    forall p :: p in tree ==> tree[p] != 0
  }

  function TrueAnswer(tree: PathTable, path: string): Answer {
    Answer(if path in tree then Present(tree[path]) else Missing, Succeeded, true)
  }

  // Nothing fails, nothing is cancelled, and the tree does not change.
  ghost predicate Steady(env: Env, tree: PathTable) {
    && env.deadline.None?
    && (forall n :: env.listOk(n))
    && (forall k: nat, p :: env.answers(k, p) == TrueAnswer(tree, p))
  }

  // As Steady, but the pass may end early at any point: before a listing, after a reconciliation, or
  // inside one, when the row is written and the journal update is not.
  ghost predicate CutShort(env: Env, tree: PathTable) {
    forall k: nat, p ::
      && env.answers(k, p) == TrueAnswer(tree, p).(markApplied := env.answers(k, p).markApplied)
      && (!env.answers(k, p).markApplied ==> env.CancelledAfter(k + 1))
  }

  // ---- The simple form ----

  function ReconcileOne(s: Store, it: Intent, tree: PathTable, cfg: Config): Store {
    Reconcile(s, it, TrueAnswer(tree, it.absPath), cfg).0
  }

  function FoldAll(s: Store, its: Log, tree: PathTable, cfg: Config): Store
    decreases |its|
  {
    if its == [] then s else FoldAll(ReconcileOne(s, its[0], tree, cfg), its[1..], tree, cfg)
  }

  function Complete(s: Store, tree: PathTable, cfg: Config): Store {
    FoldAll(s, PendingOf(s.journal), tree, cfg)
  }

  lemma FoldSplit(s: Store, a: Log, b: Log, tree: PathTable, cfg: Config)
    ensures FoldAll(s, a + b, tree, cfg) == FoldAll(FoldAll(s, a, tree, cfg), b, tree, cfg)
    decreases |a|
  {
    if a == [] {
      assert a + b == b;
    } else {
      assert (a + b)[1..] == a[1..] + b;
      FoldSplit(ReconcileOne(s, a[0], tree, cfg), a[1..], b, tree, cfg);
    }
  }

  // ---- The head of the pending list ----

  // Reconciling the oldest pending intent leaves the others pending, in order.
  lemma HeadResolved(s: Store, tree: PathTable, cfg: Config)
    requires UniqueIds(s.journal) && PendingOf(s.journal) != [] && Resolvable(tree)
    ensures var s1 := ReconcileOne(s, PendingOf(s.journal)[0], tree, cfg);
            && UniqueIds(s1.journal)
            && PendingOf(s1.journal) == PendingOf(s.journal)[1..]
  {
    ResolveOldest(s.journal, Done);
    ResolveOldest(s.journal, Aborted);
  }

  // Whether or not its journal update survives, reconciling the oldest pending intent does not
  // change where recovery ends.
  lemma HeadKeepsEnd(s: Store, a: Answer, tree: PathTable, cfg: Config)
    requires UniqueIds(s.journal) && PendingOf(s.journal) != [] && Resolvable(tree)
    requires a == TrueAnswer(tree, PendingOf(s.journal)[0].absPath).(markApplied := a.markApplied)
    ensures var s1 := Reconcile(s, PendingOf(s.journal)[0], a, cfg).0;
            && UniqueIds(s1.journal)
            && Complete(s1, tree, cfg) == Complete(s, tree, cfg)
  {
    var it := PendingOf(s.journal)[0];
    var s1 := Reconcile(s, it, a, cfg).0;
    HeadResolved(s, tree, cfg);
    if a.markApplied {
      assert s1 == ReconcileOne(s, it, tree, cfg);
    } else {
      assert s1.journal == s.journal;
      assert ReconcileOne(s1, it, tree, cfg) == ReconcileOne(s, it, tree, cfg);
    }
  }

  // ---- Batches are irrelevant ----

  lemma Slices(p: Log, n: nat)
    requires 0 < n <= |p|
    ensures p[..n] != [] && p[..n][0] == p[0]
    ensures p[..n][1..] == p[1..][..n - 1]
    ensures p[1..][n - 1..] == p[n..]
  {
  }

  lemma {:induction false} SteadySweep(s: Store, n: nat, env: Env, total: Stats, tree: PathTable, cfg: Config)
    requires UniqueIds(s.journal) && n <= |PendingOf(s.journal)| && Resolvable(tree) && Steady(env, tree)
    ensures var batch := PendingOf(s.journal)[..n];
            var r := Sweep(s, batch, env, total, cfg);
            && r.store == FoldAll(s, batch, tree, cfg)
            && UniqueIds(r.store.journal)
            && PendingOf(r.store.journal) == PendingOf(s.journal)[n..]
    decreases n
  {
    if n > 0 {
      var pending := PendingOf(s.journal);
      var s1 := ReconcileOne(s, pending[0], tree, cfg);
      HeadResolved(s, tree, cfg);
      var o := Reconcile(s, pending[0], TrueAnswer(tree, pending[0].absPath), cfg).1;
      SteadySweep(s1, n - 1, env, total.Count(o), tree, cfg);
      Slices(pending, n);
    }
  }

  // Over a steady tree every reconciliation of a batch is terminal.
  lemma {:induction false} SteadySweepProgresses(s: Store, batch: Log, env: Env, total: Stats, tree: PathTable,
                                                 cfg: Config)
    requires Resolvable(tree) && Steady(env, tree)
    ensures var r := Sweep(s, batch, env, total, cfg);
            !r.cancelled && r.stats.Resolved() == total.Resolved() + |batch|
    decreases |batch|
  {
    if batch != [] {
      var o := Reconcile(s, batch[0], TrueAnswer(tree, batch[0].absPath), cfg).1;
      SteadySweepProgresses(ReconcileOne(s, batch[0], tree, cfg), batch[1..], env, total.Count(o), tree, cfg);
    }
  }

  lemma {:induction false} SteadyPass(s: Store, env: Env, round: nat, total: Stats, tree: PathTable, cfg: Config)
    requires UniqueIds(s.journal) && cfg.batchSize >= 1 && Resolvable(tree) && Steady(env, tree)
    ensures var r := Pass(s, env, round, total, cfg);
            && r.store == Complete(s, tree, cfg) && PendingOf(r.store.journal) == [] && r.end.Finished?
            && UniqueIds(r.store.journal)
    decreases |PendingOf(s.journal)|
  {
    var pending := PendingOf(s.journal);
    if pending != [] {
      var batch := Take(pending, cfg.batchSize);
      var n := |batch|;
      assert batch == pending[..n];
      var r := Sweep(s, batch, env, total, cfg);
      SteadySweep(s, n, env, total, tree, cfg);
      SteadySweepProgresses(s, batch, env, total, tree, cfg);
      assert pending == batch + pending[n..];
      FoldSplit(s, batch, pending[n..], tree, cfg);
      if n >= cfg.batchSize {
        SteadyPass(r.store, env, round + 1, r.stats, tree, cfg);
      } else {
        assert pending[n..] == [];
      }
    }
  }

  // ---- Closed form of the result ----

  function ResolvedEntry(e: Intent, tree: PathTable): Intent {
    if !e.status.Pending? then e else e.(status := if e.absPath in tree then Done else Aborted)
  }

  // The youngest intent of a list whose path has the given inode.
  function YoungestNaming(its: Log, tree: PathTable, inode: nat): Option<Intent> {
    if its == [] then None
    else
      var last := its[|its| - 1];
      if last.absPath in tree && tree[last.absPath] == inode then Some(last)
      else YoungestNaming(its[..|its| - 1], tree, inode)
  }

  function NamedInodes(its: Log, tree: PathTable): set<nat> {
    set it <- its | it.absPath in tree :: tree[it.absPath]
  }

  // One row per named inode: that of its youngest intent.
  function YoungestRows(its: Log, tree: PathTable): (r: Rows)
    ensures r.Keys == NamedInodes(its, tree)
  {
    map i | i in NamedInodes(its, tree) ::
      YoungestNamed(its, tree, i);
      RecordOf(MutationOf(YoungestNaming(its, tree, i).value, i))
  }

  function FoldedRows(rows: Rows, its: Log, tree: PathTable): Rows {
    rows + YoungestRows(its, tree)
  }

  lemma YoungestNamed(its: Log, tree: PathTable, i: nat)
    ensures YoungestNaming(its, tree, i).Some? <==> i in NamedInodes(its, tree)
  {
    if its != [] {
      YoungestNamed(its[..|its| - 1], tree, i);
      assert its == its[..|its| - 1] + [its[|its| - 1]];
    }
  }

  function RowsAfter(rows: Rows, it: Intent, tree: PathTable): Rows {
    if it.absPath in tree then UpsertRow(rows, MutationOf(it, tree[it.absPath])) else rows
  }

  lemma NamedStep(its: Log, it: Intent, tree: PathTable)
    ensures NamedInodes(its + [it], tree) ==
            NamedInodes(its, tree) + if it.absPath in tree then {tree[it.absPath]} else {}
    ensures forall i :: YoungestNaming(its + [it], tree, i) ==
              if it.absPath in tree && tree[it.absPath] == i then Some(it) else YoungestNaming(its, tree, i)
  {
    var all := its + [it];
    assert all[..|its|] == its && all[|its|] == it;
    assert forall x :: x in all <==> x in its || x == it;
  }

  lemma YoungestRowsStep(its: Log, it: Intent, tree: PathTable)
    ensures YoungestRows(its + [it], tree) == RowsAfter(YoungestRows(its, tree), it, tree)
  {
    var left, right := YoungestRows(its + [it], tree), RowsAfter(YoungestRows(its, tree), it, tree);
    NamedStep(its, it, tree);
    assert left.Keys == right.Keys;
    forall i | i in left ensures left[i] == right[i] {
      YoungestNamed(its, tree, i);
    }
  }

  lemma FoldedRowsStep(rows: Rows, its: Log, it: Intent, tree: PathTable)
    ensures FoldedRows(rows, its + [it], tree) == RowsAfter(FoldedRows(rows, its, tree), it, tree)
  {
    YoungestRowsStep(its, it, tree);
    if it.absPath in tree {
      var m := MutationOf(it, tree[it.absPath]);
      OverlayUpdate(rows, YoungestRows(its, tree), m.inodeID, RecordOf(m));
    }
  }

  lemma OverlayUpdate(rows: Rows, top: Rows, i: nat, r: NodeRecord)
    ensures rows + top[i := r] == (rows + top)[i := r]
  {
  }

  function RowsFold(rows: Rows, its: Log, tree: PathTable): Rows
    decreases |its|
  {
    if its == [] then rows else RowsFold(RowsAfter(rows, its[0], tree), its[1..], tree)
  }

  lemma RowsFoldStep(rows: Rows, its: Log, it: Intent, tree: PathTable)
    ensures RowsFold(rows, its + [it], tree) == RowsAfter(RowsFold(rows, its, tree), it, tree)
    decreases |its|
  {
    if its != [] {
      assert (its + [it])[1..] == its[1..] + [it];
      RowsFoldStep(RowsAfter(rows, its[0], tree), its[1..], it, tree);
    }
  }

  lemma {:induction false} RowsFoldClosed(rows: Rows, its: Log, tree: PathTable)
    ensures RowsFold(rows, its, tree) == FoldedRows(rows, its, tree)
    decreases |its|
  {
    if its == [] {
      assert FoldedRows(rows, its, tree) == rows;
    } else {
      var n := |its| - 1;
      assert its == its[..n] + [its[n]];
      RowsFoldClosed(rows, its[..n], tree);
      RowsFoldStep(rows, its[..n], its[n], tree);
      FoldedRowsStep(rows, its[..n], its[n], tree);
    }
  }

  lemma {:induction false} FoldRows(s: Store, its: Log, tree: PathTable, cfg: Config)
    requires Resolvable(tree)
    ensures FoldAll(s, its, tree, cfg).rows == if cfg.hasNodes then RowsFold(s.rows, its, tree) else s.rows
    decreases |its|
  {
    if its != [] {
      FoldRows(ReconcileOne(s, its[0], tree, cfg), its[1..], tree, cfg);
    }
  }

  lemma {:induction false} FoldJournal(s: Store, batch: Log, tree: PathTable, cfg: Config)
    requires InSync(s.journal, batch) && Resolvable(tree)
    ensures var j' := FoldAll(s, batch, tree, cfg).journal;
            && |j'| == |s.journal|
            && forall i :: 0 <= i < |s.journal| ==>
                 j'[i] == if s.journal[i] in batch then ResolvedEntry(s.journal[i], tree) else s.journal[i]
    decreases |batch|
  {
    if batch != [] {
      var j, s1 := s.journal, ReconcileOne(s, batch[0], tree, cfg);
      StaysInSync(s, batch, TrueAnswer(tree, batch[0].absPath), cfg);
      ReconcileTouches(s, batch[0], TrueAnswer(tree, batch[0].absPath), cfg);
      FoldJournal(s1, batch[1..], tree, cfg);
      var p := PositionOf(j, batch[0]);
      forall i | 0 <= i < |j|
        ensures FoldAll(s, batch, tree, cfg).journal[i] == if j[i] in batch then ResolvedEntry(j[i], tree) else j[i]
      {
        if j[i].id == batch[0].id {
          assert i == p by { assert !(i < p) && !(p < i); }
          assert s1.journal[i] == ResolvedEntry(j[i], tree);
          assert s1.journal[i] !in batch[1..];
        } else {
          assert s1.journal[i] == j[i];
        }
      }
    }
  }

  // Batch-size independence: over a tree that holds still, a pass with any batch size is the fold of
  // one reconciliation over the pending intents in enqueue order. Nothing stays pending, an intent
  // ends done exactly when its path exists, and every row comes from the youngest pending intent
  // that names its inode, or is the old one; without an index no row changes.
  lemma BatchSizeIndependence(s: Store, env: Env, tree: PathTable, cfg: Config)
    requires UniqueIds(s.journal) && cfg.batchSize >= 1 && Resolvable(tree) && Steady(env, tree)
    ensures var r := Recover(s, env, cfg);
            && r.end.Finished?
            && r.store == FoldAll(s, PendingOf(s.journal), tree, cfg)
            && PendingOf(r.store.journal) == []
            && |r.store.journal| == |s.journal|
            && (forall i :: 0 <= i < |s.journal| ==> r.store.journal[i] == ResolvedEntry(s.journal[i], tree))
            && r.store.rows == if cfg.hasNodes then FoldedRows(s.rows, PendingOf(s.journal), tree) else s.rows
  {
    SteadyPass(s, env, 0, NO_STATS, tree, cfg);
    PendingMembers(s.journal);
    FoldJournal(s, PendingOf(s.journal), tree, cfg);
    FoldRows(s, PendingOf(s.journal), tree, cfg);
    RowsFoldClosed(s.rows, PendingOf(s.journal), tree);
  }

  // ---- Interruption ----

  lemma {:induction false} CutSweepKeepsEnd(s: Store, n: nat, env: Env, total: Stats, tree: PathTable, cfg: Config)
    requires UniqueIds(s.journal) && n <= |PendingOf(s.journal)| && Resolvable(tree) && CutShort(env, tree)
    ensures var r := Sweep(s, PendingOf(s.journal)[..n], env, total, cfg);
            && UniqueIds(r.store.journal)
            && Complete(r.store, tree, cfg) == Complete(s, tree, cfg)
            && (!r.cancelled ==> PendingOf(r.store.journal) == PendingOf(s.journal)[n..])
    decreases n
  {
    if n > 0 {
      var pending := PendingOf(s.journal);
      var a := env.answers(total.scanned, pending[0].absPath);
      var (s1, o) := Reconcile(s, pending[0], a, cfg);
      HeadKeepsEnd(s, a, tree, cfg);
      Slices(pending, n);
      if !env.CancelledAfter(total.scanned + 1) {
        assert a == TrueAnswer(tree, pending[0].absPath);
        HeadResolved(s, tree, cfg);
        CutSweepKeepsEnd(s1, n - 1, env, total.Count(o), tree, cfg);
      }
    }
  }

  lemma {:induction false} CutPassKeepsEnd(s: Store, env: Env, round: nat, total: Stats, tree: PathTable, cfg: Config)
    requires UniqueIds(s.journal) && cfg.batchSize >= 1 && Resolvable(tree) && CutShort(env, tree)
    requires SureToEnd(env)
    ensures var r := Pass(s, env, round, total, cfg);
            && UniqueIds(r.store.journal)
            && Complete(r.store, tree, cfg) == Complete(s, tree, cfg)
    decreases |PendingOf(s.journal)|
  {
    var pending := PendingOf(s.journal);
    var batch := Take(pending, cfg.batchSize);
    var n := |batch|;
    assert batch == pending[..n];
    if env.listOk(round) && pending != [] {
      var r := Sweep(s, batch, env, total, cfg);
      CutSweepKeepsEnd(s, n, env, total, tree, cfg);
      if !r.cancelled && r.stats.Resolved() != total.Resolved() && n >= cfg.batchSize {
        CutPassKeepsEnd(r.store, env, round + 1, r.stats, tree, cfg);
      }
    }
  }

  lemma CutShortEnds(env: Env, tree: PathTable)
    requires CutShort(env, tree)
    ensures SureToEnd(env)
  {
  }

  // The store after one interrupted pass per element of cuts.
  function AfterCuts(s: Store, cuts: seq<Env>, tree: PathTable, cfg: Config): (r: Store)
    requires UniqueIds(s.journal) && cfg.batchSize >= 1 && Resolvable(tree)
    requires forall c <- cuts :: CutShort(c, tree)
    ensures UniqueIds(r.journal)
    ensures Complete(r, tree, cfg) == Complete(s, tree, cfg)
    decreases |cuts|
  {
    if cuts == [] then s
    else
      CutShortEnds(cuts[0], tree);
      CutPassKeepsEnd(s, cuts[0], 0, NO_STATS, tree, cfg);
      AfterCuts(Recover(s, cuts[0], cfg).store, cuts[1..], tree, cfg)
  }

  // Interrupted recovery equals uninterrupted recovery: after any number of passes that were cut
  // short at any point, a complete pass ends in the rows and the journal that one complete pass
  // from the start would have produced.
  lemma InterruptedEqualsUninterrupted(s: Store, cuts: seq<Env>, env: Env, tree: PathTable, cfg: Config)
    requires UniqueIds(s.journal) && cfg.batchSize >= 1 && Resolvable(tree)
    requires (forall c <- cuts :: CutShort(c, tree)) && Steady(env, tree)
    ensures Recover(AfterCuts(s, cuts, tree, cfg), env, cfg).store == Recover(s, env, cfg).store
  {
    SteadyPass(s, env, 0, NO_STATS, tree, cfg);
    SteadyPass(AfterCuts(s, cuts, tree, cfg), env, 0, NO_STATS, tree, cfg);
  }
}
