// The recovery loop for a number of rounds, whether or not it ends: it is the pass where the pass is
// known to end, and there are surroundings in which it runs on forever.
module RecoveryLoop {
  import opened FileDomain
  import opened IntentLog
  import opened Reconciliation
  import opened RecoveryConvergence

  datatype Progress = Running(store: Store, stats: Stats) | Ended(result: PassResult)

  // Where the loop stands after at most n rounds more.
  function Rounds(s: Store, env: Env, round: nat, total: Stats, cfg: Config, n: nat): Progress
    decreases n
  {
    if n == 0 then Running(s, total)
    else if !env.listOk(round) then Ended(PassResult(s, total, ListFailed))
    else
      var pending := Take(PendingOf(s.journal), cfg.batchSize);
      if pending == [] then Ended(PassResult(s, total, Finished))
      else
        var r := Sweep(s, pending, env, total, cfg);
        if r.cancelled then Ended(PassResult(r.store, r.stats, Cancelled))
        else if r.stats.Resolved() == total.Resolved() || |pending| < cfg.batchSize
        then Ended(PassResult(r.store, r.stats, Finished))
        else Rounds(r.store, env, round + 1, r.stats, cfg, n - 1)
  }

  // When no journal update is lost, or there is a deadline, or less than a batch is pending, the loop
  // ends after some number of rounds, as the pass does.
  lemma {:induction false} LoopEndsAsPass(s: Store, env: Env, round: nat, total: Stats, cfg: Config) returns (n: nat)
    requires UniqueIds(s.journal) && SureToEndOn(s.journal, env, cfg) && cfg.batchSize >= 1
    ensures Rounds(s, env, round, total, cfg, n) == Ended(Pass(s, env, round, total, cfg))
    decreases if env.deadline.Some? then env.deadline.value - total.scanned else Budget(s.journal, cfg.maxTries)
  {
    var pending := Take(PendingOf(s.journal), cfg.batchSize);
    n := 1;
    if env.listOk(round) && pending != [] {
      var r := Sweep(s, pending, env, total, cfg);
      if !r.cancelled && r.stats.Resolved() != total.Resolved() && |pending| >= cfg.batchSize {
        BatchInSync(s.journal, cfg.batchSize);
        SweepUnique(s, pending, env, total, cfg);
        SweepScans(s, pending, env, total, cfg);
        SweepSpendsUnlessBounded(s, pending, env, total, cfg);
        var m := LoopEndsAsPass(r.store, env, round + 1, r.stats, cfg);
        n := m + 1;
      }
    }
  }

  // A journal that loses its updates, with a full batch of missing targets, working listings and no
  // deadline: however many rounds have gone by, the loop is running still, with everything as it was.
  lemma {:induction false} LostMarksRunForever(s: Store, env: Env, round: nat, total: Stats, cfg: Config, n: nat)
    requires cfg.batchSize >= 1 && |PendingOf(s.journal)| >= cfg.batchSize
    requires env.deadline.None? && forall i :: env.listOk(i)
    requires forall k, p :: env.answers(k, p) == Answer(Missing, Succeeded, false)
    ensures Rounds(s, env, round, total, cfg, n)
            == Running(s, Stats(total.scanned + n * cfg.batchSize, total.completed,
                                total.aborted + n * cfg.batchSize, total.retried))
    decreases n
  {
    if n > 0 {
      var pending := Take(PendingOf(s.journal), cfg.batchSize);
      LostMarksMakeNoProgress(s, pending, env, total, cfg);
      LostMarksRunForever(s, env, round + 1, Sweep(s, pending, env, total, cfg).stats, cfg, n - 1);
      MulStep(n, cfg.batchSize);
    }
  }

  ghost predicate LoopEnds(s: Store, env: Env, cfg: Config) {
    exists n: nat :: Rounds(s, env, 0, NO_STATS, cfg, n).Ended?
  }

  // Exactly when a pass is sure to end, whatever the storage, the journal and the index answer: there
  // is a deadline, or less than a batch is pending when it starts.
  lemma EndsWhateverHappens(s: Store, deadline: Option<nat>, cfg: Config)
    requires UniqueIds(s.journal) && cfg.batchSize >= 1
    ensures (forall env: Env :: env.deadline == deadline ==> LoopEnds(s, env, cfg)) <==>
            deadline.Some? || |PendingOf(s.journal)| < cfg.batchSize
  {
    if deadline.Some? || |PendingOf(s.journal)| < cfg.batchSize {
      forall env: Env | env.deadline == deadline ensures LoopEnds(s, env, cfg) {
        var n := LoopEndsAsPass(s, env, 0, NO_STATS, cfg);
      }
    } else {
      var lossy := Env((k, p) => Answer(Missing, Succeeded, false), n => true, None);
      forall n: nat ensures !Rounds(s, lossy, 0, NO_STATS, cfg, n).Ended? {
        LostMarksRunForever(s, lossy, 0, NO_STATS, cfg, n);
      }
      assert lossy.deadline == deadline && !LoopEnds(s, lossy, cfg);
    }
  }
}
