// What one reconciliation does in every case, and how often an intent whose visits fail is tried.
module RecoveryRetries {
  import opened FileDomain
  import opened IntentLog
  import opened Reconciliation
  import opened RecoveryConvergence

  // The stat failed, the inode did not resolve, or the row could not be written.
  predicate Fails(a: Answer, cfg: Config) {
    match a.stat
    case StatFailed => true
    case Missing => false
    case Present(inode) => inode == 0 || (cfg.hasNodes && a.upsert.Failed?)
  }

  ghost predicate OnlyEntry(j: Log, j': Log, i: nat, e: Intent)
    requires i < |j|
  {
    |j'| == |j| && j'[i] == e && forall k :: 0 <= k < |j| && k != i ==> j'[k] == j[k]
  }

  // Every case of a reconciliation whose mark works. A failed visit counts one attempt, and leaves the
  // intent pending exactly while tries are left; a missing target aborts it; otherwise it is done.
  lemma ReconcileCases(s: Store, i: nat, a: Answer, cfg: Config)
    requires UniqueIds(s.journal) && i < |s.journal| && s.journal[i].status.Pending? && a.markApplied
    ensures var e := s.journal[i];
            var (s', o) := Reconcile(s, e, a, cfg);
            && (Fails(a, cfg) && e.attempts + 1 < cfg.maxTries ==>
                  o == OutcomeRetried
                  && OnlyEntry(s.journal, s'.journal, i, e.(status := Pending, attempts := e.attempts + 1)))
            && (Fails(a, cfg) && e.attempts + 1 >= cfg.maxTries ==>
                  o == OutcomeAborted && OnlyEntry(s.journal, s'.journal, i, e.(status := Aborted)))
            && (a.stat.Missing? ==> o == OutcomeAborted && OnlyEntry(s.journal, s'.journal, i, e.(status := Aborted)))
            && (!Fails(a, cfg) && a.stat.Present? ==>
                  o == OutcomeCompleted && OnlyEntry(s.journal, s'.journal, i, e.(status := Done)))
  {
    OthersDiffer(s.journal, i);
  }

  // Its effect on the index: a row for the statted inode, if the upsert took effect.
  lemma ReconcileRows(s: Store, it: Intent, a: Answer, cfg: Config)
    ensures var s' := Reconcile(s, it, a, cfg).0;
            if cfg.hasNodes && a.stat.Present? && a.stat.inode != 0 && a.upsert.Applied()
            then && s'.rows.Keys == s.rows.Keys + {a.stat.inode}
                 && s'.rows[a.stat.inode].actor == it.actor
                 && (it.nodeType.Some? ==> s'.rows[a.stat.inode].nodeType == it.nodeType.value)
                 && (it.nodeType.None? ==> s'.rows[a.stat.inode].nodeType == File)
                 && forall n :: n in s.rows && n != a.stat.inode ==> s'.rows[n] == s.rows[n]
            else s'.rows == s.rows
  {
  }

  lemma OthersDiffer(j: Log, i: nat)
    requires UniqueIds(j) && i < |j|
    ensures forall k :: 0 <= k < |j| && k != i ==> j[k].id != j[i].id
  {
    forall k | 0 <= k < |j| && k != i ensures j[k].id != j[i].id {
      assert k < i || i < k;
    }
  }

  // ---- Tries over a pass ----

  // A pending entry after k failed visits.
  function Tried(e: Intent, k: nat, m: nat): Intent {
    if k == 0 then e
    else if e.attempts + k < m then e.(attempts := e.attempts + k)
    else e.(status := Aborted, attempts := if e.attempts + 1 < m then m - 1 else e.attempts)
  }

  // Every visit of a target with this path fails.
  ghost predicate AlwaysFails(env: Env, path: string, cfg: Config) {
    forall k: nat :: Fails(env.answers(k, path), cfg)
  }

  // How often a batch visits the intent with this id before it is cancelled, if it is.
  function BatchVisits(batch: Log, env: Env, scanned: nat, id: string): nat
    decreases |batch|
  {
    if batch == [] then 0
    else
      (if batch[0].id == id then 1 else 0)
      + if env.CancelledAfter(scanned + 1) then 0 else BatchVisits(batch[1..], env, scanned + 1, id)
  }

  // How often a pass visits it.
  function PassVisits(s: Store, env: Env, round: nat, total: Stats, cfg: Config, id: string): nat
    requires UniqueIds(s.journal) && HealthyMarks(env) && cfg.batchSize >= 1
    decreases Budget(s.journal, cfg.maxTries)
  {
    var pending := Take(PendingOf(s.journal), cfg.batchSize);
    if !env.listOk(round) || pending == [] then 0
    else
      var r := Sweep(s, pending, env, total, cfg);
      BatchInSync(s.journal, cfg.batchSize);
      SweepUnique(s, pending, env, total, cfg);
      SweepScans(s, pending, env, total, cfg);
      SweepSpends(s, pending, env, total, cfg);
      BatchVisits(pending, env, total.scanned, id)
      + if r.cancelled || r.stats.Resolved() == total.Resolved() || |pending| < cfg.batchSize then 0
        else PassVisits(r.store, env, round + 1, r.stats, cfg, id)
  }

  lemma {:induction false} NoVisits(batch: Log, env: Env, scanned: nat, id: string)
    requires forall b <- batch :: b.id != id
    ensures BatchVisits(batch, env, scanned, id) == 0
    decreases |batch|
  {
    if batch != [] {
      NoVisits(batch[1..], env, scanned + 1, id);
    }
  }

  lemma {:induction false} UnvisitedStays(s: Store, batch: Log, env: Env, total: Stats, cfg: Config, i: nat)
    requires InSync(s.journal, batch) && i < |s.journal| && forall b <- batch :: b.id != s.journal[i].id
    ensures var j' := Sweep(s, batch, env, total, cfg).store.journal;
            |j'| == |s.journal| && j'[i] == s.journal[i]
    decreases |batch|
  {
    if batch != [] {
      var a := env.answers(total.scanned, batch[0].absPath);
      var (s1, o) := Reconcile(s, batch[0], a, cfg);
      ReconcileTouches(s, batch[0], a, cfg);
      StaysInSync(s, batch, a, cfg);
      assert batch[0].id != s.journal[i].id;
      UnvisitedStays(s1, batch[1..], env, total.Count(o), cfg, i);
    }
  }

  // The visit of the entry, when it comes first in the batch.
  lemma FirstTries(s: Store, batch: Log, env: Env, k: nat, cfg: Config, i: nat)
    requires InSync(s.journal, batch) && batch != [] && i < |s.journal| && s.journal[i].id == batch[0].id
    requires HealthyMarks(env) && AlwaysFails(env, s.journal[i].absPath, cfg)
    ensures var j' := Reconcile(s, batch[0], env.answers(k, batch[0].absPath), cfg).0.journal;
            && |j'| == |s.journal| && j'[i] == Tried(s.journal[i], 1, cfg.maxTries)
            && j'[i].id == s.journal[i].id
    ensures forall b <- batch[1..] :: b.id != s.journal[i].id
  {
    assert batch[0] in batch;
    EntryIs(s.journal, batch[0], i);
    ReconcileCases(s, i, env.answers(k, batch[0].absPath), cfg);
    forall b <- batch[1..] ensures b.id != batch[0].id {
      var k :| 1 <= k < |batch| && batch[k] == b;
      assert batch[0].id != batch[k].id;
    }
  }

  // Another intent's visit leaves the entry alone.
  lemma OtherTries(s: Store, it: Intent, a: Answer, cfg: Config, i: nat)
    requires i < |s.journal| && it.id != s.journal[i].id
    ensures var j' := Reconcile(s, it, a, cfg).0.journal;
            |j'| == |s.journal| && j'[i] == s.journal[i]
  {
    ReconcileTouches(s, it, a, cfg);
  }

  lemma TriedNever(e: Intent, m: nat)
    ensures Tried(e, 0, m) == e
  {
  }

  // In one batch the entry is visited at most once.
  lemma {:induction false} SweepTries(s: Store, batch: Log, env: Env, total: Stats, cfg: Config, i: nat)
    requires InSync(s.journal, batch) && HealthyMarks(env) && i < |s.journal| && s.journal[i].status.Pending?
    requires AlwaysFails(env, s.journal[i].absPath, cfg)
    ensures var j' := Sweep(s, batch, env, total, cfg).store.journal;
            var v := BatchVisits(batch, env, total.scanned, s.journal[i].id);
            |j'| == |s.journal| && v <= 1 && j'[i] == Tried(s.journal[i], v, cfg.maxTries)
    decreases |batch|
  {
    hide Reconcile, Tried, HealthyMarks, AlwaysFails, InSync;
    var e := s.journal[i];
    TriedNever(e, cfg.maxTries);
    if batch != [] {
      var a := env.answers(total.scanned, batch[0].absPath);
      var (s1, o) := Reconcile(s, batch[0], a, cfg);
      StaysInSync(s, batch, a, cfg);
      if batch[0].id == e.id {
        FirstTries(s, batch, env, total.scanned, cfg, i);
        NoVisits(batch[1..], env, total.scanned + 1, e.id);
        UnvisitedStays(s1, batch[1..], env, total.Count(o), cfg, i);
      } else {
        OtherTries(s, batch[0], a, cfg, i);
        SweepTries(s1, batch[1..], env, total.Count(o), cfg, i);
      }
    }
  }

  lemma EntryIs(j: Log, it: Intent, i: nat)
    requires UniqueIds(j) && it in j && i < |j| && j[i].id == it.id
    ensures j[i] == it
  {
    var p := PositionOf(j, it);
    assert !(i < p) && !(p < i);
  }

  lemma TriedAgain(e: Intent, k: nat, n: nat, m: nat)
    requires e.status.Pending? && Tried(e, k, m).status.Pending?
    ensures Tried(Tried(e, k, m), n, m) == Tried(e, k + n, m)
  {
  }

  // An entry that is not pending is not visited again, and stays as it is.
  lemma {:induction false} ResolvedUnvisited(s: Store, env: Env, round: nat, total: Stats, cfg: Config, i: nat)
    requires UniqueIds(s.journal) && HealthyMarks(env) && cfg.batchSize >= 1
    requires i < |s.journal| && !s.journal[i].status.Pending?
    ensures PassVisits(s, env, round, total, cfg, s.journal[i].id) == 0
    ensures var j' := Pass(s, env, round, total, cfg).store.journal;
            |j'| == |s.journal| && j'[i] == s.journal[i]
    decreases Budget(s.journal, cfg.maxTries)
  {
    var pending := Take(PendingOf(s.journal), cfg.batchSize);
    if env.listOk(round) && pending != [] {
      var r := Sweep(s, pending, env, total, cfg);
      BatchInSync(s.journal, cfg.batchSize);
      SweepUnique(s, pending, env, total, cfg);
      SweepScans(s, pending, env, total, cfg);
      SweepSpends(s, pending, env, total, cfg);
      forall b <- pending ensures b.id != s.journal[i].id {
        if b.id == s.journal[i].id {
          EntryIs(s.journal, b, i);
        }
      }
      NoVisits(pending, env, total.scanned, s.journal[i].id);
      UnvisitedStays(s, pending, env, total, cfg, i);
      if !r.cancelled && r.stats.Resolved() != total.Resolved() && |pending| >= cfg.batchSize {
        ResolvedUnvisited(r.store, env, round + 1, r.stats, cfg, i);
      }
    }
  }

  lemma {:induction false} PassTries(s: Store, env: Env, round: nat, total: Stats, cfg: Config, i: nat)
    requires UniqueIds(s.journal) && HealthyMarks(env) && cfg.batchSize >= 1
    requires i < |s.journal| && s.journal[i].status.Pending? && AlwaysFails(env, s.journal[i].absPath, cfg)
    ensures var j' := Pass(s, env, round, total, cfg).store.journal;
            && |j'| == |s.journal|
            && j'[i] == Tried(s.journal[i], PassVisits(s, env, round, total, cfg, s.journal[i].id), cfg.maxTries)
    decreases Budget(s.journal, cfg.maxTries)
  {
    var e := s.journal[i];
    var pending := Take(PendingOf(s.journal), cfg.batchSize);
    if env.listOk(round) && pending != [] {
      var r := Sweep(s, pending, env, total, cfg);
      BatchInSync(s.journal, cfg.batchSize);
      SweepUnique(s, pending, env, total, cfg);
      SweepScans(s, pending, env, total, cfg);
      SweepSpends(s, pending, env, total, cfg);
      SweepTries(s, pending, env, total, cfg, i);
      var v := BatchVisits(pending, env, total.scanned, e.id);
      if !r.cancelled && r.stats.Resolved() != total.Resolved() && |pending| >= cfg.batchSize {
        var e1 := r.store.journal[i];
        if e1.status.Pending? {
          PassTries(r.store, env, round + 1, r.stats, cfg, i);
          TriedAgain(e, v, PassVisits(r.store, env, round + 1, r.stats, cfg, e.id), cfg.maxTries);
        } else {
          ResolvedUnvisited(r.store, env, round + 1, r.stats, cfg, i);
        }
      }
    }
  }

  // ---- Tries over passes ----

  // How often n passes visit the intent.
  function Visits(s: Store, envs: nat -> Env, n: nat, cfg: Config, id: string): nat
    requires UniqueIds(s.journal) && cfg.batchSize >= 1 && forall i :: WellBehaved(envs(i))
  {
    if n == 0 then 0
    else
      Visits(s, envs, n - 1, cfg, id)
      + PassVisits(Calls(s, envs, n - 1, cfg), envs(n - 1), 0, NO_STATS, cfg, id)
  }

  lemma TriedKeeps(e: Intent, k: nat, m: nat)
    ensures Tried(e, k, m).id == e.id && Tried(e, k, m).absPath == e.absPath
  {
  }

  lemma TriedPassAgain(s: Store, env: Env, cfg: Config, i: nat, e: Intent, k: nat)
    requires UniqueIds(s.journal) && WellBehaved(env) && cfg.batchSize >= 1 && i < |s.journal|
    requires e.status.Pending? && s.journal[i] == Tried(e, k, cfg.maxTries) && AlwaysFails(env, e.absPath, cfg)
    ensures var v := PassVisits(s, env, 0, NO_STATS, cfg, e.id);
            var j' := Recover(s, env, cfg).store.journal;
            |j'| == |s.journal| && j'[i] == Tried(e, k + v, cfg.maxTries)
  {
    hide PassVisits, Pass, Tried, AlwaysFails;
    TriedKeeps(e, k, cfg.maxTries);
    if s.journal[i].status.Pending? {
      PassTries(s, env, 0, NO_STATS, cfg, i);
      TriedAgain(e, k, PassVisits(s, env, 0, NO_STATS, cfg, e.id), cfg.maxTries);
    } else {
      ResolvedUnvisited(s, env, 0, NO_STATS, cfg, i);
    }
  }

  lemma {:induction false} CallsTry(s: Store, envs: nat -> Env, n: nat, cfg: Config, i: nat)
    requires UniqueIds(s.journal) && cfg.batchSize >= 1 && forall m :: WellBehaved(envs(m))
    requires i < |s.journal| && s.journal[i].status.Pending?
    requires forall m :: AlwaysFails(envs(m), s.journal[i].absPath, cfg)
    ensures Calls(s, envs, n, cfg).journal[i]
            == Tried(s.journal[i], Visits(s, envs, n, cfg, s.journal[i].id), cfg.maxTries)
    decreases n
  {
    hide Tried, PassVisits, Pass, WellBehaved, AlwaysFails;
    if n > 0 {
      CallsTry(s, envs, n - 1, cfg, i);
      assert AlwaysFails(envs(n - 1), s.journal[i].absPath, cfg) && WellBehaved(envs(n - 1));
      TriedPassAgain(Calls(s, envs, n - 1, cfg), envs(n - 1), cfg, i, s.journal[i],
                     Visits(s, envs, n - 1, cfg, s.journal[i].id));
    } else {
      TriedNever(s.journal[i], cfg.maxTries);
    }
  }

  // However passes follow one another, an intent all of whose visits fail is tried as often as it is
  // visited: after k visits it is pending still, with k more attempts, exactly when k is 0 or its
  // attempts and k together stay below the cap, and aborted otherwise.
  lemma FailingIntentIsRetried(s: Store, envs: nat -> Env, n: nat, cfg: Config, i: nat)
    requires UniqueIds(s.journal) && cfg.batchSize >= 1 && forall m :: WellBehaved(envs(m))
    requires i < |s.journal| && s.journal[i].status.Pending?
    requires forall m :: AlwaysFails(envs(m), s.journal[i].absPath, cfg)
    ensures var e, k := s.journal[i], Visits(s, envs, n, cfg, s.journal[i].id);
            var e' := Calls(s, envs, n, cfg).journal[i];
            && (e'.status.Pending? <==> k == 0 || e.attempts + k < cfg.maxTries)
            && (e'.status.Pending? ==> e' == e.(attempts := e.attempts + k))
            && (!e'.status.Pending? ==> e'.status.Aborted?)
  {
    hide Calls, Visits, WellBehaved, AlwaysFails;
    CallsTry(s, envs, n, cfg, i);
  }
}
