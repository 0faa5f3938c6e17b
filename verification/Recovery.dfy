// The recovery scan over the stores themselves: the loop of the program, proved against the
// functions of module Reconciliation.
module Recovery {
  import opened FileDomain
  import opened IntentLog
  import opened IntentStore
  import opened NodeStore
  import opened Reconciliation

  class Recoverer {
    const intents: FileIntentStore?
    const nodes: FileNodeStore?
    const hasInspector: bool
    const batchSize: nat
    const maxTries: nat

    constructor (intents: FileIntentStore?, nodes: FileNodeStore?, hasInspector: bool)
      ensures this.intents == intents && this.nodes == nodes && this.hasInspector == hasInspector
      ensures batchSize == DEFAULTS.batchSize && maxTries == DEFAULTS.maxTries
    {
      this.intents, this.nodes, this.hasInspector := intents, nodes, hasInspector;
      batchSize, maxTries := DEFAULTS.batchSize, DEFAULTS.maxTries;
    }

    ghost predicate Valid()
      reads intents
    {
      batchSize >= 1 && intents != null && intents.Valid()
    }

    function Cfg(): Config {
      Config(batchSize, maxTries, nodes != null)
    }

    ghost function State(): Store
      reads intents, nodes
      requires Valid()
    {
      Store(intents.Contents, if nodes == null then map[] else nodes.nodes)
    }

    method RetryOrAbort(intent: Intent, markApplied: bool) returns (outcome: Outcome)
      requires Valid()
      modifies intents
      ensures Valid()
      ensures (State(), outcome) == Retry(old(State()), intent, markApplied, maxTries)
    {
      if intent.attempts + 1 >= maxTries {
        if markApplied {
          intents.MarkAborted(intent.id);
        }
        return OutcomeAborted;
      }
      if markApplied {
        intents.IncrementAttempt(intent.id);
      }
      return OutcomeRetried;
    }

    method ReconcileIntent(intent: Intent, a: Answer) returns (outcome: Outcome)
      requires Valid()
      modifies intents, nodes
      ensures Valid()
      ensures (State(), outcome) == Reconcile(old(State()), intent, a, Cfg())
    {
      if a.stat.StatFailed? {
        outcome := RetryOrAbort(intent, a.markApplied);
        return;
      }
      if a.stat.Missing? {
        if a.markApplied {
          intents.MarkAborted(intent.id);
        }
        return OutcomeAborted;
      }
      if a.stat.inode == 0 {
        outcome := RetryOrAbort(intent, a.markApplied);
        return;
      }
      if nodes != null {
        if a.upsert.Applied() {
          nodes.UpsertCreatedOrUpdated(NodeMutation(a.stat.inode, intent.actor, intent.nodeType));
        }
        if a.upsert.Failed? {
          outcome := RetryOrAbort(intent, a.markApplied);
          return;
        }
      }
      if a.markApplied {
        intents.MarkDone(intent.id);
      }
      return OutcomeCompleted;
    }

    // The inner loop of the scan: reconciles a listed batch in order.
    method ReconcileBatch(pending: Log, env: Env, before: Stats)
      returns (total: Stats, progressed: bool, cancelled: bool)
      requires Valid()
      modifies intents, nodes
      ensures Valid()
      ensures SweepResult(State(), total, cancelled) == Sweep(old(State()), pending, env, before, Cfg())
      ensures progressed <==> total.Resolved() != before.Resolved()
      ensures total.Resolved() >= before.Resolved()
    {
      total, progressed := before, false;
      ghost var goal := Sweep(State(), pending, env, before, Cfg());
      var rest := pending;
      while rest != []
        invariant Valid()
        invariant if progressed then total.Resolved() > before.Resolved() else total.Resolved() == before.Resolved()
        invariant goal == Sweep(State(), rest, env, total, Cfg())
        decreases |rest|
      {
        var intent := rest[0];
        rest := rest[1..];
        var outcome := ReconcileIntent(intent, env.answers(total.scanned, intent.absPath));
        total := total.Count(outcome);
        progressed := progressed || !outcome.OutcomeRetried?;
        if env.CancelledAfter(total.scanned) {
          return total, progressed, true;
        }
      }
      cancelled := false;
    }

    // A pass without stores does nothing; any other pass does what Recover says.
    method RecoverAll(env: Env) returns (total: Stats, end: PassEnd)
      requires intents != null && hasInspector ==> Valid() && SureToEndOn(State().journal, env, Cfg())
      modifies intents, nodes
      ensures intents == null || !hasInspector ==> total == NO_STATS && end == Finished
      ensures intents != null && hasInspector ==>
                && Valid()
                && PassResult(State(), total, end) == Recover(old(State()), env, Cfg())
      ensures intents != null && !hasInspector ==> unchanged(intents) && (nodes != null ==> unchanged(nodes))
    {
      total, end := NO_STATS, Finished;
      if intents == null || !hasInspector {
        return;
      }
      var round := 0;
      ghost var goal := Recover(State(), env, Cfg());
      while true
        invariant Valid() && SureToEndOn(State().journal, env, Cfg()) && Pass(State(), env, round, total, Cfg()) == goal
        decreases if env.deadline.Some? then env.deadline.value - total.scanned
                  else Budget(State().journal, maxTries)
      {
        if !env.listOk(round) {
          return total, ListFailed;
        }
        var pending := intents.ListPending(batchSize);
        if |pending| == 0 {
          break;
        }
        ProgressOf(State(), pending, env, total);
        var progressed, cancelled;
        total, progressed, cancelled := ReconcileBatch(pending, env, total);
        if cancelled {
          return total, Cancelled;
        }
        if !progressed || |pending| < batchSize {
          break;
        }
        round := round + 1;
      }
    }

    lemma ProgressOf(s: Store, pending: Log, env: Env, total: Stats)
      requires Valid() && UniqueIds(s.journal) && SureToEndOn(s.journal, env, Cfg())
      requires pending == Take(PendingOf(s.journal), batchSize) && pending != []
      ensures var r := Sweep(s, pending, env, total, Cfg());
              && UniqueIds(r.store.journal)
              && (!r.cancelled ==> r.stats.scanned == total.scanned + |pending| && !env.CancelledAfter(r.stats.scanned))
              && (SureToEnd(env) && env.deadline.None? ==>
                    Budget(r.store.journal, maxTries) + r.stats.scanned <= Budget(s.journal, maxTries) + total.scanned)
    {
      BatchInSync(s.journal, batchSize);
      SweepUnique(s, pending, env, total, Cfg());
      SweepScans(s, pending, env, total, Cfg());
      if SureToEnd(env) {
        SweepSpendsUnlessBounded(s, pending, env, total, Cfg());
      }
    }
  }
}
