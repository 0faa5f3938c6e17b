// What the statistics of a pass stand for in the journal, and why it ended.
module RecoveryAccounts {
  import opened IntentLog
  import opened Reconciliation
  import opened RecoveryRetries
  import opened RecoveryLoop

  // ---- What is counted ----

  function Having(j: Log, st: Status): nat {
    if j == [] then 0 else (if j[0].status == st then 1 else 0) + Having(j[1..], st)
  }

  function Attempts(j: Log): nat {
    if j == [] then 0 else j[0].attempts + Attempts(j[1..])
  }

  lemma {:induction false} CountsSplit(a: Log, b: Log, st: Status)
    ensures Having(a + b, st) == Having(a, st) + Having(b, st)
    ensures Attempts(a + b) == Attempts(a) + Attempts(b)
    decreases |a|
  {
    if a == [] {
      assert a + b == b;
    } else {
      assert (a + b)[1..] == a[1..] + b;
      CountsSplit(a[1..], b, st);
    }
  }

  lemma CountsAround(a: Log, e: Intent, b: Log, st: Status)
    ensures Having(a + [e] + b, st) == Having(a, st) + (if e.status == st then 1 else 0) + Having(b, st)
    ensures Attempts(a + [e] + b) == Attempts(a) + e.attempts + Attempts(b)
  {
    CountsSplit(a + [e], b, st);
    CountsSplit(a, [e], st);
    assert [e][1..] == [];
    assert Having([e], st) == (if e.status == st then 1 else 0) + Having([], st);
    assert Attempts([e]) == e.attempts + Attempts([]);
  }

  lemma CountsUpdated(j: Log, j': Log, i: nat, e: Intent, st: Status)
    requires i < |j| && OnlyEntry(j, j', i, e)
    ensures Having(j', st) - (if e.status == st then 1 else 0) == Having(j, st) - (if j[i].status == st then 1 else 0)
    ensures Attempts(j') - e.attempts == Attempts(j) - j[i].attempts
  {
    hide Having, Attempts;
    assert j == j[..i] + [j[i]] + j[i + 1..];
    assert j' == j[..i] + [e] + j[i + 1..];
    CountsAround(j[..i], j[i], j[i + 1..], st);
    CountsAround(j[..i], e, j[i + 1..], st);
  }

  // The journal's counts and the statistics move together.
  ghost predicate Tallied(j: Log, total: Stats, j': Log, total': Stats) {
    && Having(j', Done) - Having(j, Done) == total'.completed - total.completed
    && Having(j', Aborted) - Having(j, Aborted) == total'.aborted - total.aborted
    && Attempts(j') - Attempts(j) == total'.retried - total.retried
  }

  lemma ReconcileTallies(s: Store, it: Intent, a: Answer, cfg: Config, total: Stats)
    requires UniqueIds(s.journal) && it in s.journal && it.status.Pending? && a.markApplied
    ensures var (s', o) := Reconcile(s, it, a, cfg);
            Tallied(s.journal, total, s'.journal, total.Count(o))
  {
    hide Reconcile, Having, Attempts;
    var i := PositionOf(s.journal, it);
    ReconcileCases(s, i, a, cfg);
    var j, j' := s.journal, Reconcile(s, it, a, cfg).0.journal;
    CountsUpdated(j, j', i, j'[i], Done);
    CountsUpdated(j, j', i, j'[i], Aborted);
  }

  lemma {:induction false} SweepTallies(s: Store, batch: Log, env: Env, total: Stats, cfg: Config)
    requires InSync(s.journal, batch) && HealthyMarks(env)
    ensures var r := Sweep(s, batch, env, total, cfg);
            Tallied(s.journal, total, r.store.journal, r.stats)
    decreases |batch|
  {
    if batch != [] {
      hide Reconcile, Having, Attempts;
      var a := env.answers(total.scanned, batch[0].absPath);
      var (s1, o) := Reconcile(s, batch[0], a, cfg);
      assert batch[0] in batch;
      ReconcileTallies(s, batch[0], a, cfg, total);
      StaysInSync(s, batch, a, cfg);
      SweepTallies(s1, batch[1..], env, total.Count(o), cfg);
    }
  }

  lemma {:induction false} PassTalliesFrom(s: Store, env: Env, round: nat, total: Stats, cfg: Config)
    requires UniqueIds(s.journal) && HealthyMarks(env) && cfg.batchSize >= 1
    ensures var r := Pass(s, env, round, total, cfg);
            Tallied(s.journal, total, r.store.journal, r.stats)
    decreases Budget(s.journal, cfg.maxTries)
  {
    hide Having, Attempts;
    var pending := Take(PendingOf(s.journal), cfg.batchSize);
    if env.listOk(round) && pending != [] {
      var r := Sweep(s, pending, env, total, cfg);
      BatchInSync(s.journal, cfg.batchSize);
      SweepTallies(s, pending, env, total, cfg);
      SweepSpends(s, pending, env, total, cfg);
      if !r.cancelled && r.stats.Resolved() != total.Resolved() && |pending| >= cfg.batchSize {
        SweepUnique(s, pending, env, total, cfg);
        SweepScans(s, pending, env, total, cfg);
        PassTalliesFrom(r.store, env, round + 1, r.stats, cfg);
      }
    }
  }

  // With a healthy journal, completed is the number of intents that became done, aborted that of those
  // that became aborted, and retried the number of attempts counted.
  lemma PassTallies(s: Store, env: Env, cfg: Config)
    requires UniqueIds(s.journal) && HealthyMarks(env) && cfg.batchSize >= 1
    ensures var r := Recover(s, env, cfg);
            && r.stats.completed == Having(r.store.journal, Done) - Having(s.journal, Done)
            && r.stats.aborted == Having(r.store.journal, Aborted) - Having(s.journal, Aborted)
            && r.stats.retried == Attempts(r.store.journal) - Attempts(s.journal)
  {
    PassTalliesFrom(s, env, 0, NO_STATS, cfg);
  }

  // ---- Why a pass ends ----

  lemma {:induction false} SweepCancelled(s: Store, batch: Log, env: Env, total: Stats, cfg: Config)
    requires !env.CancelledAfter(total.scanned) || total.scanned == 0
    ensures var r := Sweep(s, batch, env, total, cfg);
            && (r.cancelled <==> r.stats.scanned > 0 && env.CancelledAfter(r.stats.scanned) && batch != [])
            && (batch == [] ==> r.stats == total)
            && (r.cancelled ==> r.stats.scanned == if env.deadline.value == 0 then 1 else env.deadline.value)
    decreases |batch|
  {
    if batch != [] {
      var (s1, o) := Reconcile(s, batch[0], env.answers(total.scanned, batch[0].absPath), cfg);
      if !env.CancelledAfter(total.Count(o).scanned) {
        SweepCancelled(s1, batch[1..], env, total.Count(o), cfg);
        if batch[1..] == [] {
          assert Sweep(s1, batch[1..], env, total.Count(o), cfg).stats == total.Count(o);
        }
      }
    }
  }

  lemma {:induction false} PassCancelled(s: Store, env: Env, round: nat, total: Stats, cfg: Config)
    requires UniqueIds(s.journal) && SureToEndOn(s.journal, env, cfg) && cfg.batchSize >= 1
    requires !env.CancelledAfter(total.scanned) || total.scanned == 0
    ensures var r := Pass(s, env, round, total, cfg);
            && (r.end.Cancelled? <==> r.stats.scanned > 0 && env.CancelledAfter(r.stats.scanned))
            && (r.end.Cancelled? ==> r.stats.scanned == if env.deadline.value == 0 then 1 else env.deadline.value)
    decreases if env.deadline.Some? then env.deadline.value - total.scanned else Budget(s.journal, cfg.maxTries)
  {
    var pending := Take(PendingOf(s.journal), cfg.batchSize);
    if env.listOk(round) && pending != [] {
      var r := Sweep(s, pending, env, total, cfg);
      BatchInSync(s.journal, cfg.batchSize);
      SweepCancelled(s, pending, env, total, cfg);
      SweepScans(s, pending, env, total, cfg);
      if !r.cancelled && r.stats.Resolved() != total.Resolved() && |pending| >= cfg.batchSize {
        SweepUnique(s, pending, env, total, cfg);
        SweepSpendsUnlessBounded(s, pending, env, total, cfg);
        PassCancelled(r.store, env, round + 1, r.stats, cfg);
      }
    }
  }

  // The n-th round of the loop begins with a listing that fails.
  ghost predicate FailsAt(s: Store, env: Env, round: nat, total: Stats, cfg: Config, n: nat) {
    Rounds(s, env, round, total, cfg, n).Running? && !env.listOk(round + n)
  }

  // The round goes by and leaves something to do.
  ghost predicate GoesOn(s: Store, env: Env, round: nat, total: Stats, cfg: Config) {
    var pending := Take(PendingOf(s.journal), cfg.batchSize);
    var r := Sweep(s, pending, env, total, cfg);
    env.listOk(round) && pending != [] && !r.cancelled && r.stats.Resolved() != total.Resolved()
    && |pending| >= cfg.batchSize
  }

  lemma FailsLater(s: Store, env: Env, round: nat, total: Stats, cfg: Config, n: nat)
    ensures var r := Sweep(s, Take(PendingOf(s.journal), cfg.batchSize), env, total, cfg);
            GoesOn(s, env, round, total, cfg) ==>
              (FailsAt(s, env, round, total, cfg, n) <==>
                 n > 0 && FailsAt(r.store, env, round + 1, r.stats, cfg, n - 1))
    ensures !GoesOn(s, env, round, total, cfg) ==>
              (FailsAt(s, env, round, total, cfg, n) <==> n == 0 && !env.listOk(round))
  {
  }

  lemma {:induction false} PassListFailed(s: Store, env: Env, round: nat, total: Stats, cfg: Config)
    requires UniqueIds(s.journal) && SureToEndOn(s.journal, env, cfg) && cfg.batchSize >= 1
    ensures Pass(s, env, round, total, cfg).end.ListFailed? <==> exists n: nat :: FailsAt(s, env, round, total, cfg, n)
    decreases if env.deadline.Some? then env.deadline.value - total.scanned else Budget(s.journal, cfg.maxTries)
  {
    hide FailsAt;
    var pending := Take(PendingOf(s.journal), cfg.batchSize);
    var r := Sweep(s, pending, env, total, cfg);
    if GoesOn(s, env, round, total, cfg) {
      BatchInSync(s.journal, cfg.batchSize);
      SweepUnique(s, pending, env, total, cfg);
      SweepScans(s, pending, env, total, cfg);
      SweepSpendsUnlessBounded(s, pending, env, total, cfg);
      PassListFailed(r.store, env, round + 1, r.stats, cfg);
      var next := round + 1;
      if n: nat :| FailsAt(r.store, env, next, r.stats, cfg, n) {
        FailsLater(s, env, round, total, cfg, n + 1);
        assert FailsAt(s, env, round, total, cfg, n + 1);
      }
      if n: nat :| FailsAt(s, env, round, total, cfg, n) {
        FailsLater(s, env, round, total, cfg, n);
        assert FailsAt(r.store, env, round + 1, r.stats, cfg, n - 1);
      }
    } else {
      FailsLater(s, env, round, total, cfg, 0);
      if n: nat :| FailsAt(s, env, round, total, cfg, n) {
        FailsLater(s, env, round, total, cfg, n);
      }
    }
  }

  // A pass ends as cancelled exactly when it has scanned up to its deadline, where it then stops; and for
  // a failed listing exactly when the loop comes to a round whose listing fails.
  lemma WhyAPassEnds(s: Store, env: Env, cfg: Config)
    requires UniqueIds(s.journal) && SureToEndOn(s.journal, env, cfg) && cfg.batchSize >= 1
    ensures var r := Recover(s, env, cfg);
            && (r.end.Cancelled? <==>
                  env.deadline.Some? && r.stats.scanned > 0 && r.stats.scanned >= env.deadline.value)
            && (r.end.Cancelled? ==> r.stats.scanned == if env.deadline.value == 0 then 1 else env.deadline.value)
            && (r.end.ListFailed? <==> exists n: nat :: FailsAt(s, env, 0, NO_STATS, cfg, n))
  {
    PassCancelled(s, env, 0, NO_STATS, cfg);
    PassListFailed(s, env, 0, NO_STATS, cfg);
  }
}
