// Over every run, exhausted tries mean what they say: the aborted intent had all but its last try
// counted.
module WriteTries {
  import opened FileDomain
  import opened IntentLog
  import opened Reconciliation
  import opened WriteProtocol
  import opened WriteHonesty
  import opened WriteSafety

  // The journal counts no fewer attempts than the item had when it was listed.
  ghost predicate NotAhead(j: Log, it: Intent) {
    forall k :: 0 <= k < |j| && j[k].id == it.id ==> j[k].attempts >= it.attempts
  }

  ghost predicate QueueNotAhead(j: Log, its: Log) {
    forall k :: 0 <= k < |its| ==> NotAhead(j, its[k])
  }

  ghost predicate ExhaustedCounted(j: Log, causes: map<string, AbortCause>, m: nat) {
    forall k :: 0 <= k < |j| && j[k].status.Aborted? && j[k].id in causes && causes[j[k].id].TriesExhausted? ==>
      j[k].attempts + 1 >= m
  }

  ghost predicate ScanNotAhead(j: Log, scan: Scan) {
    && (!scan.Idle? ==> QueueNotAhead(j, scan.queue))
    && (HoldsItem(scan) ==> NotAhead(j, scan.it))
  }

  ghost predicate TriesKnown(w: World, cfg: Config) {
    && ExhaustedCounted(w.store.journal, w.past.causes, cfg.maxTries)
    && ScanNotAhead(w.store.journal, w.scan)
  }

  // Entries whose attempts do not fall keep items behind them.
  ghost predicate Counts(j: Log, j': Log) {
    |j'| == |j| && forall k :: 0 <= k < |j| ==> j'[k].id == j[k].id && j'[k].attempts >= j[k].attempts
  }

  lemma StillBehind(j: Log, j': Log, scan: Scan)
    requires Counts(j, j') && ScanNotAhead(j, scan)
    ensures ScanNotAhead(j', scan)
  {
    if !scan.Idle? {
      forall k | 0 <= k < |scan.queue| ensures NotAhead(j', scan.queue[k]) {
        assert NotAhead(j, scan.queue[k]);
      }
    }
  }

  lemma StartTries(w: World, req: Request, enqueue: CallResult, cfg: Config)
    requires Honest(w, cfg) && TriesKnown(w, cfg) && req.id !in w.past.used
    ensures TriesKnown(StartRun(w, req, enqueue), cfg)
  {
    var j, j' := w.store.journal, StartRun(w, req, enqueue).store.journal;
    assert !HasId(j, req.id);
    assert j' == j || j' == j + [IntentOf(req)];
    if !w.scan.Idle? {
      forall k | 0 <= k < |w.scan.queue| ensures NotAhead(j', w.scan.queue[k]) {
        assert ItemHonest(j, w.past, w.scan.queue[k]) && NotAhead(j, w.scan.queue[k]);
      }
    }
  }

  lemma FinishTries(w: World, a: Action, cfg: Config)
    requires TriesKnown(w, cfg) && Enabled(w, a) && (a.FinishDone? || a.FinishAborted?)
    ensures TriesKnown(Next(w, a, cfg), cfg)
  {
    hide ScanNotAhead;
    var w' := Next(w, a, cfg);
    assert Counts(w.store.journal, w'.store.journal);
    StillBehind(w.store.journal, w'.store.journal, w.scan);
  }

  lemma ListTries(w: World, cfg: Config)
    requires Honest(w, cfg) && TriesKnown(w, cfg) && Enabled(w, ListBatch)
    ensures TriesKnown(Next(w, ListBatch, cfg), cfg)
  {
    var j, batch := w.store.journal, Take(PendingOf(w.store.journal), cfg.batchSize);
    PendingMembers(j);
    forall k | 0 <= k < |batch| ensures NotAhead(j, batch[k]) {
      assert batch[k] in PendingOf(j);
      var p := PositionOf(j, batch[k]);
      forall i | 0 <= i < |j| && j[i].id == j[p].id ensures i == p {
        assert !(i < p) && !(p < i);
      }
    }
  }

  // The item of a mark by the scan is at least as far in the journal.
  lemma ScanMarkTries(w: World, a: Action, cfg: Config)
    requires TriesKnown(w, cfg) && Enabled(w, a) && (a.ScanAbort? || a.ScanRetry? || a.ScanMark?)
    ensures TriesKnown(Next(w, a, cfg), cfg)
  {
    hide QueueNotAhead;
    var w' := Next(w, a, cfg);
    assert Counts(w.store.journal, w'.store.journal);
    StillBehind(w.store.journal, w'.store.journal, Scanning(w.scan.queue));
  }

  lemma OtherTries(w: World, a: Action, cfg: Config)
    requires TriesKnown(w, cfg) && Enabled(w, a)
    requires a.Land? || a.Fail? || a.StatTarget? || a.Record? || a.ScanStat? || a.ScanUpsert? || a.EndScan?
          || a.Crash? || a.SetPath? || a.SetRow?
    ensures TriesKnown(Next(w, a, cfg), cfg)
  {
    hide NotAhead;
    assert Next(w, a, cfg).store.journal == w.store.journal;
  }

  lemma StepKeepsTries(w: World, a: Action, cfg: Config)
    requires Honest(w, cfg) && TriesKnown(w, cfg) && Enabled(w, a)
    ensures TriesKnown(Next(w, a, cfg), cfg)
  {
    hide TriesKnown, Honest;
    if a.Start? {
      StartTries(w, a.req, a.enqueue, cfg);
    } else if a.FinishDone? || a.FinishAborted? {
      FinishTries(w, a, cfg);
    } else if a.ListBatch? {
      ListTries(w, cfg);
    } else if a.ScanAbort? || a.ScanRetry? || a.ScanMark? {
      ScanMarkTries(w, a, cfg);
    } else {
      OtherTries(w, a, cfg);
    }
  }

  lemma {:induction false} RunKeepsTries(w: World, run: seq<Action>, cfg: Config)
    requires Honest(w, cfg) && TriesKnown(w, cfg) && Possible(w, run, cfg)
    ensures TriesKnown(After(w, run, cfg), cfg)
    decreases |run|
  {
    if run != [] {
      StepKeepsHonest(w, run[0], cfg);
      StepKeepsTries(w, run[0], cfg);
      RunKeepsTries(Next(w, run[0], cfg), run[1..], cfg);
    }
  }

  // In every interleaving, an intent aborted for exhausted tries has maxTries - 1 attempts counted.
  lemma ExhaustedWereTried(w: World, run: seq<Action>, k: nat, cfg: Config)
    requires Initial(w) && Possible(w, run, cfg)
    requires var w' := After(w, run, cfg);
             && k < |w'.store.journal| && w'.store.journal[k].status.Aborted?
             && w'.store.journal[k].id in w'.past.causes && w'.past.causes[w'.store.journal[k].id].TriesExhausted?
    ensures After(w, run, cfg).store.journal[k].attempts + 1 >= cfg.maxTries
  {
    RunKeepsTries(w, run, cfg);
  }
}
