// The recovery scan as a function of the journal, the index and everything the outside world may
// answer: what one reconciliation, one batch and one whole pass do.
module Reconciliation {
  import opened FileDomain
  import opened IntentLog

  // The durable state a pass works on.
  datatype Store = Store(journal: Log, rows: Rows)

  // The inode 0 stands for a path that exists but whose inode could not be resolved.
  datatype StatResult = StatFailed | Missing | Present(inode: nat)

  // Everything the outside world answers while one intent is reconciled. The journal's own calls
  // are only ever ignored on error, so what matters about one is whether it took effect.
  datatype Answer = Answer(stat: StatResult, upsert: CallResult, markApplied: bool)

  datatype Outcome = OutcomeCompleted | OutcomeAborted | OutcomeRetried

  datatype Config = Config(batchSize: nat, maxTries: nat, hasNodes: bool)

  const DEFAULTS := Config(200, 5, true)

  datatype Stats = Stats(scanned: nat, completed: nat, aborted: nat, retried: nat) {
    function Count(o: Outcome): Stats {
      match o
      case OutcomeCompleted => Stats(scanned + 1, completed + 1, aborted, retried)
      case OutcomeAborted => Stats(scanned + 1, completed, aborted + 1, retried)
      case OutcomeRetried => Stats(scanned + 1, completed, aborted, retried + 1)
    }

    function Resolved(): nat {
      completed + aborted
    }
  }

  const NO_STATS := Stats(0, 0, 0, 0)

  // answers(k, path) answers the k-th reconciliation of the pass; listOk(n) says whether the n-th
  // listing succeeds; from the deadline-th reconciliation on the context is cancelled.
  datatype Env = Env(answers: (nat, string) -> Answer, listOk: nat -> bool, deadline: Option<nat>) {
    predicate CancelledAfter(scanned: nat) {
      deadline.Some? && scanned >= deadline.value
    }
  }

  // ---- One reconciliation ----

  function MutationOf(it: Intent, inode: nat): NodeMutation {
    NodeMutation(inode, it.actor, it.nodeType)
  }

  function MarkedIf(j: Log, id: string, st: Status, applied: bool): Log {
    if applied then WithStatus(j, id, st) else j
  }

  function RetryOrAbort(j: Log, it: Intent, applied: bool, maxTries: nat): (Log, Outcome) {
    if it.attempts + 1 >= maxTries
    then (MarkedIf(j, it.id, Aborted, applied), OutcomeAborted)
    else (if applied then WithAttempt(j, it.id) else j, OutcomeRetried)
  }

  function Retry(s: Store, it: Intent, applied: bool, maxTries: nat): (Store, Outcome) {
    var (j, o) := RetryOrAbort(s.journal, it, applied, maxTries);
    (s.(journal := j), o)
  }

  function Reconcile(s: Store, it: Intent, a: Answer, cfg: Config): (Store, Outcome) {
    match a.stat
    case StatFailed => Retry(s, it, a.markApplied, cfg.maxTries)
    case Missing => (s.(journal := MarkedIf(s.journal, it.id, Aborted, a.markApplied)), OutcomeAborted)
    case Present(inode) =>
      if inode == 0 then Retry(s, it, a.markApplied, cfg.maxTries)
      else
        var touched := cfg.hasNodes && a.upsert.Applied();
        var s1 := if touched then s.(rows := UpsertRow(s.rows, MutationOf(it, inode))) else s;
        if cfg.hasNodes && a.upsert.Failed? then Retry(s1, it, a.markApplied, cfg.maxTries)
        else (s1.(journal := MarkedIf(s1.journal, it.id, Done, a.markApplied)), OutcomeCompleted)
  }

  // ---- One batch ----

  datatype SweepResult = SweepResult(store: Store, stats: Stats, cancelled: bool)

  // Reconciles a listed batch in order, total being the stats of the pass so far.
  function Sweep(s: Store, batch: Log, env: Env, total: Stats, cfg: Config): SweepResult
    decreases |batch|
  {
    if batch == [] then SweepResult(s, total, false)
    else
      var (s1, o) := Reconcile(s, batch[0], env.answers(total.scanned, batch[0].absPath), cfg);
      var t := total.Count(o);
      if env.CancelledAfter(t.scanned) then SweepResult(s1, t, true)
      else Sweep(s1, batch[1..], env, t, cfg)
  }

  // ---- One pass ----

  datatype PassEnd = Finished | ListFailed | Cancelled

  datatype PassResult = PassResult(store: Store, stats: Stats, end: PassEnd)

  ghost predicate HealthyMarks(env: Env) {
    forall k, p :: env.answers(k, p).markApplied
  }

  // A pass is sure to end when its context has a deadline, or when no journal update is lost.
  ghost predicate SureToEnd(env: Env) {
    env.deadline.None? ==> HealthyMarks(env)
  }

  // So is one with less than a batch to do: it ends after its only round.
  ghost predicate SureToEndOn(j: Log, env: Env, cfg: Config) {
    SureToEnd(env) || |PendingOf(j)| < cfg.batchSize
  }

  // What a pending intent can still cost: the reconciliations it may take before it is resolved.
  function Cost(it: Intent, maxTries: nat): nat {
    if !it.status.Pending? then 0 else if it.attempts + 1 < maxTries then maxTries - it.attempts else 1
  }

  function Budget(j: Log, maxTries: nat): nat {
    if j == [] then 0 else Cost(j[0], maxTries) + Budget(j[1..], maxTries)
  }

  function Pass(s: Store, env: Env, round: nat, total: Stats, cfg: Config): PassResult
    requires UniqueIds(s.journal) && SureToEndOn(s.journal, env, cfg) && cfg.batchSize >= 1
    decreases if env.deadline.Some? then env.deadline.value - total.scanned else Budget(s.journal, cfg.maxTries)
  {
    if !env.listOk(round) then PassResult(s, total, ListFailed)
    else
      var pending := Take(PendingOf(s.journal), cfg.batchSize);
      if pending == [] then PassResult(s, total, Finished)
      else
        var r := Sweep(s, pending, env, total, cfg);
        if r.cancelled then PassResult(r.store, r.stats, Cancelled)
        else if r.stats.Resolved() == total.Resolved() || |pending| < cfg.batchSize
        then PassResult(r.store, r.stats, Finished)
        else
          BatchInSync(s.journal, cfg.batchSize);
          SweepUnique(s, pending, env, total, cfg);
          SweepScans(s, pending, env, total, cfg);
          SweepSpendsUnlessBounded(s, pending, env, total, cfg);
          Pass(r.store, env, round + 1, r.stats, cfg)
  }

  function Recover(s: Store, env: Env, cfg: Config): PassResult
    requires UniqueIds(s.journal) && SureToEndOn(s.journal, env, cfg) && cfg.batchSize >= 1
  {
    Pass(s, env, 0, NO_STATS, cfg)
  }

  // ---- Accounting ----

  // A batch whose entries are still in the journal as they were listed.
  ghost predicate InSync(j: Log, batch: Log) {
    && UniqueIds(j) && UniqueIds(batch)
    && (forall b <- batch :: b in j && b.status.Pending?)
  }

  lemma BatchInSync(j: Log, n: nat)
    requires UniqueIds(j)
    ensures InSync(j, Take(PendingOf(j), n))
  {
    PendingMembers(j);
  }

  lemma BudgetSplit(a: Log, b: Log, m: nat)
    ensures Budget(a + b, m) == Budget(a, m) + Budget(b, m)
  {
    if a == [] {
      assert a + b == b;
    } else {
      assert (a + b)[1..] == a[1..] + b;
      BudgetSplit(a[1..], b, m);
    }
  }

  // With no tries left to spend, the budget counts the pending intents.
  lemma BudgetCounts(j: Log)
    ensures Budget(j, 0) == |PendingOf(j)|
  {
  }

  lemma BudgetPointUpdate(j: Log, j': Log, i: nat, m: nat)
    requires |j| == |j'| && i < |j|
    requires forall k :: 0 <= k < |j| && k != i ==> j'[k] == j[k]
    ensures Budget(j', m) == Budget(j, m) - Cost(j[i], m) + Cost(j'[i], m)
  {
    assert j == j[..i] + [j[i]] + j[i + 1..];
    assert j' == j[..i] + [j'[i]] + j[i + 1..];
    BudgetSplit(j[..i] + [j[i]], j[i + 1..], m);
    BudgetSplit(j[..i] + [j'[i]], j[i + 1..], m);
    BudgetSplit(j[..i], [j[i]], m);
    BudgetSplit(j[..i], [j'[i]], m);
  }

  // What an outcome makes of the entry it is about.
  function Settled(e: Intent, o: Outcome, applied: bool): Intent {
    if !applied then e
    else match o
      case OutcomeCompleted => e.(status := Done)
      case OutcomeAborted => e.(status := Aborted)
      case OutcomeRetried => e.(attempts := e.attempts + 1)
  }

  ghost predicate Touched(j: Log, j': Log, id: string, o: Outcome, applied: bool) {
    && |j'| == |j|
    && forall k :: 0 <= k < |j| ==> j'[k] == if j[k].id == id then Settled(j[k], o, applied) else j[k]
  }

  lemma TouchedKeepsIds(j: Log, j': Log, id: string, o: Outcome, applied: bool)
    requires Touched(j, j', id, o, applied)
    ensures Ids(j') == Ids(j)
  {
  }

  lemma MarkTouches(j: Log, id: string, o: Outcome, applied: bool)
    requires !o.OutcomeRetried?
    ensures Touched(j, MarkedIf(j, id, if o.OutcomeCompleted? then Done else Aborted, applied), id, o, applied)
  {
  }

  lemma RetryTouches(j: Log, it: Intent, applied: bool, maxTries: nat)
    ensures var (j', o) := RetryOrAbort(j, it, applied, maxTries);
            && Touched(j, j', it.id, o, applied)
            && (o.OutcomeRetried? ==> it.attempts + 1 < maxTries)
  {
  }

  // Reconciling an intent touches the entries with its id only, in the way its outcome says.
  lemma ReconcileTouches(s: Store, it: Intent, a: Answer, cfg: Config)
    ensures var (s', o) := Reconcile(s, it, a, cfg);
            && Touched(s.journal, s'.journal, it.id, o, a.markApplied)
            && (o.OutcomeRetried? ==> it.attempts + 1 < cfg.maxTries)
    ensures Ids(Reconcile(s, it, a, cfg).0.journal) == Ids(s.journal)
  {
    var (s', o) := Reconcile(s, it, a, cfg);
    RetryTouches(s.journal, it, a.markApplied, cfg.maxTries);
    MarkTouches(s.journal, it.id, OutcomeCompleted, a.markApplied);
    MarkTouches(s.journal, it.id, OutcomeAborted, a.markApplied);
    TouchedKeepsIds(s.journal, s'.journal, it.id, o, a.markApplied);
  }

  // Reconciling a listed intent spends at least one unit of the budget and lowers the number of
  // pending intents exactly when the outcome is terminal.
  lemma ReconcileSpends(s: Store, it: Intent, a: Answer, cfg: Config)
    requires UniqueIds(s.journal) && it in s.journal && it.status.Pending? && a.markApplied
    ensures var (s', o) := Reconcile(s, it, a, cfg);
            && Budget(s'.journal, cfg.maxTries) < Budget(s.journal, cfg.maxTries)
            && |PendingOf(s'.journal)| == |PendingOf(s.journal)| - if o.OutcomeRetried? then 0 else 1
  {
    var i := PositionOf(s.journal, it);
    ReconcileTouches(s, it, a, cfg);
    var (s', o) := Reconcile(s, it, a, cfg);
    EntrySpends(s.journal, s'.journal, i, o, cfg.maxTries);
  }

  lemma EntrySpends(j: Log, j': Log, i: nat, o: Outcome, m: nat)
    requires UniqueIds(j) && i < |j| && j[i].status.Pending? && Touched(j, j', j[i].id, o, true)
    requires o.OutcomeRetried? ==> j[i].attempts + 1 < m
    ensures Budget(j', m) < Budget(j, m)
    ensures |PendingOf(j')| == |PendingOf(j)| - if o.OutcomeRetried? then 0 else 1
  {
    forall k | 0 <= k < |j| && k != i ensures j[k].id != j[i].id {
      assert k < i || i < k;
    }
    BudgetPointUpdate(j, j', i, m);
    BudgetPointUpdate(j, j', i, 0);
    BudgetCounts(j);
    BudgetCounts(j');
  }

  lemma StaysInSync(s: Store, batch: Log, a: Answer, cfg: Config)
    requires batch != [] && InSync(s.journal, batch)
    ensures InSync(Reconcile(s, batch[0], a, cfg).0.journal, batch[1..])
  {
    var j, j' := s.journal, Reconcile(s, batch[0], a, cfg).0.journal;
    ReconcileTouches(s, batch[0], a, cfg);
    SameIdsUnique(j, j');
    forall k | 1 <= k < |batch| ensures batch[k] in j' && batch[k].status.Pending? {
      assert batch[k] in batch && batch[0].id != batch[k].id;
      var i := PositionOf(j, batch[k]);
      assert j'[i] == batch[k];
    }
  }

  // A batch leaves every id in place.
  lemma {:induction false} SweepKeepsIds(s: Store, batch: Log, env: Env, total: Stats, cfg: Config)
    ensures Ids(Sweep(s, batch, env, total, cfg).store.journal) == Ids(s.journal)
    decreases |batch|
  {
    if batch != [] {
      var a := env.answers(total.scanned, batch[0].absPath);
      var (s1, o) := Reconcile(s, batch[0], a, cfg);
      ReconcileTouches(s, batch[0], a, cfg);
      SweepKeepsIds(s1, batch[1..], env, total.Count(o), cfg);
    }
  }

  // Unless it is cancelled, a batch counts each listed intent once.
  lemma {:induction false} SweepScans(s: Store, batch: Log, env: Env, total: Stats, cfg: Config)
    ensures var r := Sweep(s, batch, env, total, cfg);
            !r.cancelled ==>
              && r.stats.scanned == total.scanned + |batch|
              && (batch != [] ==> !env.CancelledAfter(r.stats.scanned))
    ensures env.deadline.None? ==> !Sweep(s, batch, env, total, cfg).cancelled
    decreases |batch|
  {
    if batch != [] {
      var (s1, o) := Reconcile(s, batch[0], env.answers(total.scanned, batch[0].absPath), cfg);
      SweepScans(s1, batch[1..], env, total.Count(o), cfg);
    }
  }

  // With a healthy journal every reconciliation of a batch spends from the budget.
  lemma {:induction false} SweepSpends(s: Store, batch: Log, env: Env, total: Stats, cfg: Config)
    requires InSync(s.journal, batch) && HealthyMarks(env)
    ensures var r := Sweep(s, batch, env, total, cfg);
            Budget(r.store.journal, cfg.maxTries) + r.stats.scanned <= Budget(s.journal, cfg.maxTries) + total.scanned
    decreases |batch|
  {
    if batch != [] {
      var a := env.answers(total.scanned, batch[0].absPath);
      var (s1, o) := Reconcile(s, batch[0], a, cfg);
      StaysInSync(s, batch, a, cfg);
      ReconcileSpends(s, batch[0], a, cfg);
      SweepSpends(s1, batch[1..], env, total.Count(o), cfg);
    }
  }

  lemma SweepUnique(s: Store, batch: Log, env: Env, total: Stats, cfg: Config)
    requires UniqueIds(s.journal)
    ensures UniqueIds(Sweep(s, batch, env, total, cfg).store.journal)
  {
    SweepKeepsIds(s, batch, env, total, cfg);
    SameIdsUnique(s.journal, Sweep(s, batch, env, total, cfg).store.journal);
  }

  lemma SweepSpendsUnlessBounded(s: Store, batch: Log, env: Env, total: Stats, cfg: Config)
    requires InSync(s.journal, batch) && SureToEnd(env)
    ensures var r := Sweep(s, batch, env, total, cfg);
            env.deadline.None? ==>
              Budget(r.store.journal, cfg.maxTries) + r.stats.scanned <= Budget(s.journal, cfg.maxTries) + total.scanned
  {
    if env.deadline.None? {
      SweepSpends(s, batch, env, total, cfg);
    }
  }
}
