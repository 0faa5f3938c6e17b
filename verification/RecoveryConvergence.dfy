// Accounting of one recovery pass and the number of passes after which nothing is pending, whatever
// the storage and the index answer, provided no journal update is lost.
module RecoveryConvergence {
  import opened FileDomain
  import opened IntentLog
  import opened Reconciliation

  // ---- One pass ----

  predicate Balanced(t: Stats) {
    t.scanned == t.completed + t.aborted + t.retried
  }

  lemma {:induction false} SweepAccounts(s: Store, batch: Log, env: Env, total: Stats, cfg: Config)
    requires InSync(s.journal, batch) && HealthyMarks(env) && Balanced(total)
    ensures var r := Sweep(s, batch, env, total, cfg);
            && Balanced(r.stats)
            && |PendingOf(r.store.journal)| + r.stats.Resolved() == |PendingOf(s.journal)| + total.Resolved()
    decreases |batch|
  {
    if batch != [] {
      var a := env.answers(total.scanned, batch[0].absPath);
      var (s1, o) := Reconcile(s, batch[0], a, cfg);
      StaysInSync(s, batch, a, cfg);
      ReconcileSpends(s, batch[0], a, cfg);
      SweepAccounts(s1, batch[1..], env, total.Count(o), cfg);
    }
  }

  lemma {:induction false} PassAccountsFrom(s: Store, env: Env, round: nat, total: Stats, cfg: Config)
    requires UniqueIds(s.journal) && HealthyMarks(env) && cfg.batchSize >= 1 && Balanced(total)
    ensures var r := Pass(s, env, round, total, cfg);
            && Balanced(r.stats)
            && |PendingOf(r.store.journal)| + r.stats.Resolved() == |PendingOf(s.journal)| + total.Resolved()
            && r.stats.scanned + Budget(r.store.journal, cfg.maxTries)
               <= total.scanned + Budget(s.journal, cfg.maxTries)
    decreases Budget(s.journal, cfg.maxTries)
  {
    var pending := Take(PendingOf(s.journal), cfg.batchSize);
    if env.listOk(round) && pending != [] {
      var r := Sweep(s, pending, env, total, cfg);
      BatchInSync(s.journal, cfg.batchSize);
      SweepAccounts(s, pending, env, total, cfg);
      SweepSpends(s, pending, env, total, cfg);
      if !r.cancelled && r.stats.Resolved() != total.Resolved() && |pending| >= cfg.batchSize {
        SweepUnique(s, pending, env, total, cfg);
        SweepScans(s, pending, env, total, cfg);
        PassAccountsFrom(r.store, env, round + 1, r.stats, cfg);
      }
    }
  }

  // With a healthy journal, and however the stats and upserts turn out, a pass scans no more often
  // than the initial budget allows, splits what it scanned into its three outcomes, and resolves
  // exactly the intents it counts as completed or aborted.
  lemma PassAccounts(s: Store, env: Env, cfg: Config)
    requires UniqueIds(s.journal) && HealthyMarks(env) && cfg.batchSize >= 1
    ensures var r := Recover(s, env, cfg);
            && r.stats.scanned == r.stats.completed + r.stats.aborted + r.stats.retried
            && r.stats.completed + r.stats.aborted == |PendingOf(s.journal)| - |PendingOf(r.store.journal)|
            && r.stats.scanned <= Budget(s.journal, cfg.maxTries)
  {
    PassAccountsFrom(s, env, 0, NO_STATS, cfg);
  }

  // Why the journal must be healthy, or the context bounded: a batch whose targets are all missing
  // and whose marks are all lost counts as progress and leaves the store as it was, so the same
  // full batch is listed again.
  lemma {:induction false} LostMarksMakeNoProgress(s: Store, batch: Log, env: Env, total: Stats, cfg: Config)
    requires env.deadline.None? && forall n, p :: env.answers(n, p) == Answer(Missing, Succeeded, false)
    ensures Sweep(s, batch, env, total, cfg) ==
            SweepResult(s, Stats(total.scanned + |batch|, total.completed, total.aborted + |batch|, total.retried),
                        false)
    decreases |batch|
  {
    if batch != [] {
      LostMarksMakeNoProgress(s, batch[1..], env, total.Count(OutcomeAborted), cfg);
    }
  }

  // ---- What later journals look like ----

  // b is what an entry a may have become: resolved entries stay, attempts only grow, and an attempt
  // is only counted while tries are left.
  predicate Later(a: Intent, b: Intent, m: nat) {
    && (!a.status.Pending? ==> b == a)
    && a.attempts <= b.attempts
    && (b.attempts == a.attempts || b.attempts < m)
  }

  ghost predicate LaterLog(j: Log, j': Log, m: nat) {
    |j'| == |j| && forall i :: 0 <= i < |j| ==> Later(j[i], j'[i], m)
  }

  // The entry was reconciled at least once in between.
  predicate Visited(a: Intent, b: Intent, m: nat) {
    b.status.Pending? ==> a.attempts < b.attempts < m
  }

  // The entry at i is among the first n pending ones.
  predicate AmongOldest(j: Log, i: nat, n: nat)
    requires i < |j|
  {
    j[i].status.Pending? && |PendingOf(j[..i])| < n
  }

  lemma OldestListed(j: Log, i: nat, n: nat)
    requires i < |j| && AmongOldest(j, i, n)
    ensures j[i] in Take(PendingOf(j), n)
  {
    PendingAt(j, i);
    var rank := |PendingOf(j[..i])|;
    assert Take(PendingOf(j), n)[rank] == j[i];
  }

  lemma ReconcileVisits(s: Store, it: Intent, a: Answer, cfg: Config)
    requires UniqueIds(s.journal) && it in s.journal && it.status.Pending? && a.markApplied
    ensures var j' := Reconcile(s, it, a, cfg).0.journal;
            && LaterLog(s.journal, j', cfg.maxTries)
            && forall i :: 0 <= i < |s.journal| && s.journal[i] == it ==> Visited(it, j'[i], cfg.maxTries)
  {
    ReconcileTouches(s, it, a, cfg);
    var p := PositionOf(s.journal, it);
    forall i | 0 <= i < |s.journal| && s.journal[i].id == it.id ensures i == p {
      assert !(i < p) && !(p < i);
    }
  }

  lemma {:induction false} SweepVisits(s: Store, batch: Log, env: Env, total: Stats, cfg: Config)
    requires InSync(s.journal, batch) && HealthyMarks(env) && env.deadline.None?
    ensures LaterLog(s.journal, Sweep(s, batch, env, total, cfg).store.journal, cfg.maxTries)
    ensures var j' := Sweep(s, batch, env, total, cfg).store.journal;
            forall i :: 0 <= i < |s.journal| && s.journal[i] in batch ==> Visited(s.journal[i], j'[i], cfg.maxTries)
    decreases |batch|
  {
    if batch != [] {
      var a := env.answers(total.scanned, batch[0].absPath);
      var (s1, o) := Reconcile(s, batch[0], a, cfg);
      StaysInSync(s, batch, a, cfg);
      ReconcileTouches(s, batch[0], a, cfg);
      ReconcileVisits(s, batch[0], a, cfg);
      SweepVisits(s1, batch[1..], env, total.Count(o), cfg);
      var j' := Sweep(s, batch, env, total, cfg).store.journal;
      forall i | 0 <= i < |s.journal| && s.journal[i] in batch
        ensures Visited(s.journal[i], j'[i], cfg.maxTries)
      {
        if s.journal[i] != batch[0] {
          var b :| 1 <= b < |batch| && batch[b] == s.journal[i];
          assert batch[b].id != batch[0].id;
          assert s1.journal[i] == s.journal[i] && s.journal[i] in batch[1..];
        }
      }
    }
  }

  // ---- Passes one after the other ----

  // A pass that is not cancelled, whose listings succeed and whose journal updates all take effect.
  ghost predicate WellBehaved(env: Env) {
    HealthyMarks(env) && env.deadline.None? && forall n :: env.listOk(n)
  }

  // The convergence argument needs only this about one pass from j to j'.
  ghost predicate Moves(j: Log, j': Log, cfg: Config) {
    && LaterLog(j, j', cfg.maxTries)
    && forall i :: 0 <= i < |j| && AmongOldest(j, i, cfg.batchSize) ==> Visited(j[i], j'[i], cfg.maxTries)
  }

  lemma BatchMoves(s: Store, env: Env, total: Stats, cfg: Config)
    requires UniqueIds(s.journal) && WellBehaved(env)
    ensures Moves(s.journal, Sweep(s, Take(PendingOf(s.journal), cfg.batchSize), env, total, cfg).store.journal, cfg)
  {
    var j, batch := s.journal, Take(PendingOf(s.journal), cfg.batchSize);
    BatchInSync(j, cfg.batchSize);
    SweepVisits(s, batch, env, total, cfg);
    forall i | 0 <= i < |j| && AmongOldest(j, i, cfg.batchSize) ensures j[i] in batch {
      OldestListed(j, i, cfg.batchSize);
    }
  }

  lemma MovesThenLater(j: Log, j1: Log, j2: Log, cfg: Config)
    requires Moves(j, j1, cfg) && LaterLog(j1, j2, cfg.maxTries)
    ensures Moves(j, j2, cfg)
  {
  }

  lemma BatchShrinksBudget(s: Store, env: Env, total: Stats, cfg: Config)
    requires UniqueIds(s.journal) && WellBehaved(env) && Take(PendingOf(s.journal), cfg.batchSize) != []
    ensures var r := Sweep(s, Take(PendingOf(s.journal), cfg.batchSize), env, total, cfg);
            UniqueIds(r.store.journal) && Budget(r.store.journal, cfg.maxTries) < Budget(s.journal, cfg.maxTries)
  {
    var pending := Take(PendingOf(s.journal), cfg.batchSize);
    BatchInSync(s.journal, cfg.batchSize);
    SweepUnique(s, pending, env, total, cfg);
    SweepScans(s, pending, env, total, cfg);
    SweepSpends(s, pending, env, total, cfg);
  }

  lemma {:induction false} PassMoves(s: Store, env: Env, round: nat, total: Stats, cfg: Config)
    requires UniqueIds(s.journal) && WellBehaved(env) && cfg.batchSize >= 1
    ensures Moves(s.journal, Pass(s, env, round, total, cfg).store.journal, cfg)
    ensures UniqueIds(Pass(s, env, round, total, cfg).store.journal)
    decreases Budget(s.journal, cfg.maxTries)
  {
    var pending := Take(PendingOf(s.journal), cfg.batchSize);
    BatchMoves(s, env, total, cfg);
    if pending != [] {
      var r := Sweep(s, pending, env, total, cfg);
      BatchShrinksBudget(s, env, total, cfg);
      SweepScans(s, pending, env, total, cfg);
      if r.stats.Resolved() != total.Resolved() && |pending| >= cfg.batchSize {
        PassMoves(r.store, env, round + 1, r.stats, cfg);
        MovesThenLater(s.journal, r.store.journal, Pass(s, env, round, total, cfg).store.journal, cfg);
      }
    }
  }

  // The store after n passes, the i-th of them in the surroundings envs(i).
  function Calls(s: Store, envs: nat -> Env, n: nat, cfg: Config): (r: Store)
    requires UniqueIds(s.journal) && cfg.batchSize >= 1 && forall i :: WellBehaved(envs(i))
    ensures UniqueIds(r.journal) && |r.journal| == |s.journal|
  {
    if n == 0 then s
    else
      var before := Calls(s, envs, n - 1, cfg);
      PassMoves(before, envs(n - 1), 0, NO_STATS, cfg);
      Recover(before, envs(n - 1), cfg).store
  }

  ghost predicate AllMove(js: seq<Log>, cfg: Config) {
    js != [] && forall n :: 0 <= n < |js| - 1 ==> Moves(js[n], js[n + 1], cfg)
  }

  // Fewer intents are pending before any place of a later journal.
  lemma RankShrinks(j: Log, j': Log, m: nat, i: nat)
    requires LaterLog(j, j', m) && i <= |j|
    ensures |PendingOf(j'[..i])| <= |PendingOf(j[..i])|
  {
    if i > 0 {
      RankShrinks(j, j', m, i - 1);
      assert j[..i] == j[..i - 1] + [j[i - 1]] && j'[..i] == j'[..i - 1] + [j'[i - 1]];
      PendingSplit(j[..i - 1], [j[i - 1]]);
      PendingSplit(j'[..i - 1], [j'[i - 1]]);
    }
  }

  lemma {:induction false} LaterOverAll(js: seq<Log>, cfg: Config)
    requires AllMove(js, cfg)
    ensures LaterLog(js[0], js[|js| - 1], cfg.maxTries)
    decreases |js|
  {
    if |js| > 1 {
      LaterOverAll(js[..|js| - 1], cfg);
    }
  }

  // An intent among the oldest at the start is resolved at the end, or has been tried every time.
  lemma {:induction false} OldestTried(js: seq<Log>, i: nat, cfg: Config)
    requires AllMove(js, cfg)
    requires i < |js[0]| && AmongOldest(js[0], i, cfg.batchSize)
    ensures |js[|js| - 1]| == |js[0]|
    ensures var e := js[|js| - 1][i];
            e.status.Pending? ==> |js| - 1 <= e.attempts && (|js| > 1 ==> e.attempts < cfg.maxTries)
    decreases |js|
  {
    LaterOverAll(js, cfg);
    if |js| > 1 {
      var earlier := js[..|js| - 1];
      var before := js[|js| - 2];
      OldestTried(earlier, i, cfg);
      LaterOverAll(earlier, cfg);
      RankShrinks(js[0], before, cfg.maxTries, i);
      assert Moves(before, js[|js| - 1], cfg);
      assert before[i].status.Pending? ==> AmongOldest(before, i, cfg.batchSize);
    }
  }

  // If the b oldest pending intents of j are resolved in j', at least b fewer are pending.
  lemma OldestGone(j: Log, j': Log, m: nat, b: nat, i: nat)
    requires LaterLog(j, j', m) && i <= |j|
    requires forall k :: 0 <= k < |j| && AmongOldest(j, k, b) ==> !j'[k].status.Pending?
    ensures |PendingOf(j'[..i])| == 0 || |PendingOf(j'[..i])| + b <= |PendingOf(j[..i])|
  {
    if i > 0 {
      OldestGone(j, j', m, b, i - 1);
      assert j[..i] == j[..i - 1] + [j[i - 1]] && j'[..i] == j'[..i - 1] + [j'[i - 1]];
      PendingSplit(j[..i - 1], [j[i - 1]]);
      PendingSplit(j'[..i - 1], [j'[i - 1]]);
      assert !AmongOldest(j, i - 1, b) || !j'[i - 1].status.Pending?;
    }
  }

  // maxTries passes resolve a batch.
  lemma TriesResolveBatch(js: seq<Log>, cfg: Config)
    requires AllMove(js, cfg) && |js| == cfg.maxTries + 1 && cfg.maxTries >= 1
    ensures var n := |PendingOf(js[cfg.maxTries])|;
            n == 0 || n + cfg.batchSize <= |PendingOf(js[0])|
  {
    var j, j' := js[0], js[cfg.maxTries];
    LaterOverAll(js, cfg);
    forall k | 0 <= k < |j| && AmongOldest(j, k, cfg.batchSize) ensures !j'[k].status.Pending? {
      OldestTried(js, k, cfg);
    }
    OldestGone(j, j', cfg.maxTries, cfg.batchSize, |j|);
    assert j[..|j|] == j && j'[..|j'|] == j';
  }

  // q times maxTries passes resolve q batches.
  lemma {:induction false} BatchesResolved(js: seq<Log>, q: nat, cfg: Config)
    requires AllMove(js, cfg) && cfg.maxTries >= 1 && |js| - 1 == q * cfg.maxTries
    ensures var n := |PendingOf(js[|js| - 1])|;
            n == 0 || n + q * cfg.batchSize <= |PendingOf(js[0])|
    decreases q
  {
    if q > 0 {
      MulStep(q, cfg.maxTries);
      MulStep(q, cfg.batchSize);
      var c := |js| - 1 - cfg.maxTries;
      BatchesResolved(js[..c + 1], q - 1, cfg);
      TriesResolveBatch(js[c..], cfg);
    }
  }

  lemma MulStep(q: nat, d: nat)
    requires q > 0
    ensures q * d == (q - 1) * d + d && (q - 1) * d >= 0
  {
  }

  // The journals before and after each of n passes.
  ghost function Journals(s: Store, envs: nat -> Env, n: nat, cfg: Config): (js: seq<Log>)
    requires UniqueIds(s.journal) && cfg.batchSize >= 1 && forall i :: WellBehaved(envs(i))
    ensures |js| == n + 1 && js[0] == s.journal && js[n] == Calls(s, envs, n, cfg).journal
    ensures AllMove(js, cfg)
  {
    if n == 0 then [s.journal]
    else
      var earlier := Journals(s, envs, n - 1, cfg);
      NextCall(s, envs, n - 1, cfg);
      earlier + [Calls(s, envs, n, cfg).journal]
  }

  // One more pass: the journal moves on, and the oldest pending intents are visited.
  lemma NextCall(s: Store, envs: nat -> Env, n: nat, cfg: Config)
    requires UniqueIds(s.journal) && cfg.batchSize >= 1 && forall i :: WellBehaved(envs(i))
    ensures Moves(Calls(s, envs, n, cfg).journal, Calls(s, envs, n + 1, cfg).journal, cfg)
  {
    PassMoves(Calls(s, envs, n, cfg), envs(n), 0, NO_STATS, cfg);
  }

  function CeilDiv(n: nat, d: nat): nat
    requires d >= 1
  {
    (n + d - 1) / d
  }

  // The convergence bound: however the storage and the index answer, ceil(N / batchSize) * maxTries
  // passes resolve N pending intents.
  lemma ConvergenceBound(s: Store, envs: nat -> Env, cfg: Config)
    requires UniqueIds(s.journal) && cfg.batchSize >= 1 && cfg.maxTries >= 1 && forall i :: WellBehaved(envs(i))
    ensures var n := |PendingOf(s.journal)|;
            PendingOf(Calls(s, envs, CeilDiv(n, cfg.batchSize) * cfg.maxTries, cfg).journal) == []
  {
    var n, q := |PendingOf(s.journal)|, CeilDiv(|PendingOf(s.journal)|, cfg.batchSize);
    assert q * cfg.batchSize >= n;
    BatchesResolved(Journals(s, envs, q * cfg.maxTries, cfg), q, cfg);
  }
}
