// The recorder that wraps a storage action into the write-ahead protocol, and the proof that the
// write protocol's machine takes exactly its steps, and the scan's, when nothing comes between them.
module Recorder {
  import opened FileDomain
  import opened IntentLog
  import opened IntentStore
  import opened NodeStore
  import opened Reconciliation
  import opened WriteProtocol
  import opened WriteSafety

  // What the storage action did: the inode it statted (0 when unresolved), or an error before or
  // after it took effect.
  datatype ActionResult = ActionOk(inode: nat) | ActionErr(landed: bool)

  // What the stores answer during one call.
  datatype Faults = Faults(enqueue: CallResult, upsert: CallResult, markApplied: bool)

  // What one recorded call makes of the stores.
  function RecordedRun(s: Store, req: Request, action: ActionResult, f: Faults, hasNodes: bool): Store {
    var s1 := if f.enqueue.Applied() then s.(journal := Enqueued(s.journal, IntentOf(req))) else s;
    match action
    case ActionErr(_) => MarkedByRun(s1, req.id, Aborted, f)
    case ActionOk(inode) =>
      if !hasNodes then MarkedByRun(s1, req.id, Done, f)
      else if inode == 0 then s1
      else
        var s2 := if f.upsert.Applied()
                  then s1.(rows := UpsertRow(s1.rows, NodeMutation(inode, req.actor, req.nodeType))) else s1;
        if f.upsert.Failed? then s2 else MarkedByRun(s2, req.id, Done, f)
  }

  function MarkedByRun(s: Store, id: string, st: Status, f: Faults): Store {
    if f.enqueue.Succeeded? then s.(journal := MarkedIf(s.journal, id, st, f.markApplied)) else s
  }

  class NodeRecorder {
    const nodes: FileNodeStore?
    const intents: FileIntentStore?

    constructor (nodes: FileNodeStore?, intents: FileIntentStore?)
      ensures this.nodes == nodes && this.intents == intents
    {
      this.nodes, this.intents := nodes, intents;
    }

    ghost predicate Valid()
      reads intents
    {
      intents != null ==> intents.Valid()
    }

    ghost function State(): Store
      reads intents, nodes
    {
      Store(if intents == null then [] else intents.Contents, if nodes == null then map[] else nodes.nodes)
    }

    // A missing intent store, and one whose durable writes fail, answer like a failed call.
    ghost function Met(f: Faults): Faults
      reads intents
    {
      if intents == null || intents.enqueueErr then f.(enqueue := Failed(false)) else f
    }

    // Whatever the stores answer, the caller gets the action's own result.
    method Run(req: Request, action: ActionResult, f: Faults) returns (info: Option<nat>)
      requires Valid() && req.id != ""
      modifies intents, nodes
      ensures Valid()
      ensures info == if action.ActionOk? then Some(action.inode) else None
      ensures State() == RecordedRun(old(State()), req, action, old(Met(f)), nodes != null)
    {
      var intentID := Enqueue(req, f);
      if action.ActionErr? {
        if intentID != "" && f.markApplied {
          intents.MarkAborted(intentID);
        }
        return None;
      }
      Finalize(intentID, action.inode, req, f);
      return Some(action.inode);
    }

    // The id of the pending intent, "" when it could not be enqueued.
    method Enqueue(req: Request, f: Faults) returns (id: string)
      requires Valid()
      modifies intents
      ensures Valid()
      ensures id == if old(Met(f)).enqueue.Succeeded? then req.id else ""
      ensures State() == old(State()).(journal := if old(Met(f)).enqueue.Applied()
                                        then Enqueued(old(State()).journal, IntentOf(req)) else old(State()).journal)
    {
      if intents == null {
        return "";
      }
      var intent := IntentOf(req);
      if f.enqueue.Applied() {
        var ok := intents.Enqueue(intent);
        if ok && f.enqueue.Succeeded? {
          return intent.id;
        }
      }
      return "";
    }

    method Finalize(intentID: string, inode: nat, req: Request, f: Faults)
      requires Valid() && (intentID != "" ==> intents != null)
      modifies intents, nodes
      ensures Valid()
      ensures var s := old(State());
              var touched := nodes != null && inode != 0 && f.upsert.Applied();
              var finished := nodes != null ==> inode != 0 && f.upsert.Succeeded?;
              && State().rows == (if touched then UpsertRow(s.rows, NodeMutation(inode, req.actor, req.nodeType))
                                  else s.rows)
              && State().journal == MarkedIf(s.journal, intentID, Done, intentID != "" && finished && f.markApplied)
    {
      if nodes != null {
        if inode == 0 {
          return;
        }
        if f.upsert.Applied() {
          nodes.UpsertCreatedOrUpdated(NodeMutation(inode, req.actor, req.nodeType));
        }
        if f.upsert.Failed? {
          return;
        }
      }
      if intentID != "" && f.markApplied {
        intents.MarkDone(intentID);
      }
    }
  }

  // ---- The machine takes the recorder's steps ----

  // A call whose path is gone by the time it is statted fails after landing, and its intent is aborted.
  lemma VanishedTargetAborts(w: World, id: string, resolved: bool, cfg: Config)
    requires id in w.running && w.running[id].phase.Landed? && w.running[id].journaled
    requires w.running[id].req.path !in w.tree
    ensures var run := [StatTarget(id, resolved)] + [FinishAborted(id, true)];
            && Possible(w, run, cfg)
            && After(w, run, cfg).store == w.store.(journal := WithStatus(w.store.journal, id, Aborted))
            && id in After(w, run, cfg).past.causes && After(w, run, cfg).past.causes[id].ErrorAfterLanding?
            && id !in After(w, run, cfg).running
  {
    var w1 := Next(w, StatTarget(id, resolved), cfg);
    OneStep(w1, FinishAborted(id, true), cfg);
    OneMore(w, StatTarget(id, resolved), [FinishAborted(id, true)], cfg);
  }

  function FinishSteps(req: Request, statted: nat, f: Faults, hasNodes: bool): seq<Action> {
    [Record(req.id, f.upsert)] +
    if hasNodes && (statted == 0 || f.upsert.Failed?) then [] else [FinishDone(req.id, f.markApplied)]
  }

  function ActionSteps(req: Request, action: ActionResult, f: Faults, inode: nat, hasNodes: bool): seq<Action> {
    var id := req.id;
    match action
    case ActionErr(landed) =>
      var failure := [Fail(id)] + [FinishAborted(id, f.markApplied)];
      if landed then [Land(id, inode)] + failure else failure
    case ActionOk(statted) =>
      [Land(id, inode)] + ([StatTarget(id, statted != 0)] + FinishSteps(req, statted, f, hasNodes))
  }

  // The steps of an uninterrupted call whose action binds its path to inode if it takes effect.
  function RunSteps(req: Request, action: ActionResult, f: Faults, inode: nat, hasNodes: bool): seq<Action> {
    [Start(req, f.enqueue)] + ActionSteps(req, action, f, inode, hasNodes)
  }

  ghost predicate Became(w: World, run: seq<Action>, id: string, s: Store, tree: map<string, nat>, cfg: Config) {
    && Possible(w, run, cfg)
    && After(w, run, cfg).store == s
    && After(w, run, cfg).running == w.running - {id}
    && After(w, run, cfg).scan == w.scan
    && After(w, run, cfg).tree == tree
  }

  lemma OneStep(w: World, a: Action, cfg: Config)
    requires Enabled(w, a)
    ensures Possible(w, [a], cfg) && After(w, [a], cfg) == Next(w, a, cfg)
  {
    OneMore(w, a, [], cfg);
    assert [a] + [] == [a];
  }

  function FinishedStore(s: Store, req: Request, journaled: bool, statted: nat, f: Faults, hasNodes: bool): Store {
    var s1 := if hasNodes && statted != 0 && f.upsert.Applied()
              then s.(rows := UpsertRow(s.rows, NodeMutation(statted, req.actor, req.nodeType))) else s;
    if (hasNodes && (statted == 0 || f.upsert.Failed?)) || !journaled then s1
    else s1.(journal := MarkedIf(s1.journal, req.id, Done, f.markApplied))
  }

  lemma FinishAlone(w: World, req: Request, journaled: bool, statted: nat, f: Faults, cfg: Config)
    requires req.id in w.running && w.running[req.id] == InFlight(req, journaled, Recording(statted))
    ensures Became(w, FinishSteps(req, statted, f, cfg.hasNodes), req.id,
                   FinishedStore(w.store, req, journaled, statted, f, cfg.hasNodes), w.tree, cfg)
  {
    var w1 := Next(w, Record(req.id, f.upsert), cfg);
    if cfg.hasNodes && (statted == 0 || f.upsert.Failed?) {
      OneStep(w, Record(req.id, f.upsert), cfg);
    } else {
      OneStep(w1, FinishDone(req.id, f.markApplied), cfg);
      OneMore(w, Record(req.id, f.upsert), [FinishDone(req.id, f.markApplied)], cfg);
    }
  }

  lemma LandedAlone(w: World, req: Request, journaled: bool, statted: nat, f: Faults, inode: nat, cfg: Config)
    requires req.id in w.running && w.running[req.id] == InFlight(req, journaled, Acting)
    requires statted == 0 || statted == inode
    ensures Became(w, ActionSteps(req, ActionOk(statted), f, inode, cfg.hasNodes), req.id,
                   FinishedStore(w.store, req, journaled, statted, f, cfg.hasNodes), w.tree[req.path := inode], cfg)
  {
    var w1 := Next(w, Land(req.id, inode), cfg);
    var w2 := Next(w1, StatTarget(req.id, statted != 0), cfg);
    FinishAlone(w2, req, journaled, statted, f, cfg);
    var run := FinishSteps(req, statted, f, cfg.hasNodes);
    OneMore(w1, StatTarget(req.id, statted != 0), run, cfg);
    OneMore(w, Land(req.id, inode), [StatTarget(req.id, statted != 0)] + run, cfg);
  }

  lemma FailedAlone(w: World, req: Request, journaled: bool, landed: bool, f: Faults, inode: nat, cfg: Config)
    requires req.id in w.running && w.running[req.id] == InFlight(req, journaled, Acting)
    ensures Became(w, ActionSteps(req, ActionErr(landed), f, inode, cfg.hasNodes), req.id,
                   if journaled then w.store.(journal := MarkedIf(w.store.journal, req.id, Aborted, f.markApplied))
                   else w.store,
                   if landed then w.tree[req.path := inode] else w.tree, cfg)
  {
    var w1 := if landed then Next(w, Land(req.id, inode), cfg) else w;
    var w2 := Next(w1, Fail(req.id), cfg);
    OneStep(w2, FinishAborted(req.id, f.markApplied), cfg);
    var run := [Fail(req.id)] + [FinishAborted(req.id, f.markApplied)];
    OneMore(w1, Fail(req.id), [FinishAborted(req.id, f.markApplied)], cfg);
    if landed {
      OneMore(w, Land(req.id, inode), run, cfg);
    }
  }

  // A call nothing comes between makes of the stores what the recorder makes of them.
  lemma RunAloneIsRecordedRun(w: World, req: Request, action: ActionResult, f: Faults, inode: nat, cfg: Config)
    requires req.id !in w.past.used && req.id !in w.running
    requires action.ActionOk? ==> action.inode == 0 || action.inode == inode
    ensures Became(w, RunSteps(req, action, f, inode, cfg.hasNodes), req.id,
                   RecordedRun(w.store, req, action, f, cfg.hasNodes),
                   if action.ActionOk? || action.landed then w.tree[req.path := inode] else w.tree, cfg)
  {
    var w1 := Next(w, Start(req, f.enqueue), cfg);
    if action.ActionOk? {
      LandedAlone(w1, req, f.enqueue.Succeeded?, action.inode, f, inode, cfg);
    } else {
      FailedAlone(w1, req, f.enqueue.Succeeded?, action.landed, f, inode, cfg);
    }
    OneMore(w, Start(req, f.enqueue), ActionSteps(req, action, f, inode, cfg.hasNodes), cfg);
  }

  // An aborted intent does not mean that there is no file: an error after the action took effect, with
  // a journal that works, leaves both.
  lemma AbortedAlthoughThere(w: World, req: Request, f: Faults, inode: nat, cfg: Config)
    requires req.id !in w.past.used && req.id !in w.running && !HasId(w.store.journal, req.id)
    requires f.enqueue.Succeeded? && f.markApplied
    ensures var run := RunSteps(req, ActionErr(true), f, inode, cfg.hasNodes);
            && Possible(w, run, cfg)
            && After(w, run, cfg).tree == w.tree[req.path := inode]
            && After(w, run, cfg).store.journal == w.store.journal + [IntentOf(req).(status := Aborted)]
  {
    RunAloneIsRecordedRun(w, req, ActionErr(true), f, inode, cfg);
    var j := w.store.journal;
    assert WithStatus(j + [IntentOf(req)], req.id, Aborted) == j + [IntentOf(req).(status := Aborted)];
  }

  // A new intent is the youngest pending one, with what was asked for and no attempt counted.
  lemma NewIntentIsYoungest(j: Log, req: Request)
    requires !HasId(j, req.id)
    ensures var it := Intent(req.id, req.op, req.path, req.actor, req.nodeType, Pending, 0);
            Enqueued(j, IntentOf(req)) == j + [it] && PendingOf(Enqueued(j, IntentOf(req))) == PendingOf(j) + [it]
  {
    var it := Intent(req.id, req.op, req.path, req.actor, req.nodeType, Pending, 0);
    assert Enqueued(j, IntentOf(req)) == j + [it];
    PendingSplit(j, [it]);
    assert [it][1..] == [];
    assert PendingOf([it]) == [it] + PendingOf([]);
  }

  // An intent enqueued again takes the place of the old one.
  lemma EnqueuedAgain(j: Log, it: Intent)
    requires HasId(j, it.id)
    ensures |Enqueued(j, it)| == |j|
    ensures forall k :: 0 <= k < |j| ==>
              Enqueued(j, it)[k] == if j[k].id == it.id then it.(status := Pending) else j[k]
  {
  }

  predicate EntryAborted(j: Log, id: string) {
    exists k :: 0 <= k < |j| && j[k].id == id && j[k].status.Aborted?
  }

  // Exactly when a call with a journal that works leaves its path there with an aborted intent: the
  // action reported an error, and had taken effect before or found the path there. The latter is every
  // create that must not overwrite and meets an existing path.
  lemma AbortedAndThere(w: World, req: Request, action: ActionResult, f: Faults, inode: nat, cfg: Config)
    requires req.id !in w.past.used && req.id !in w.running && !HasId(w.store.journal, req.id)
    requires action.ActionOk? ==> action.inode == 0 || action.inode == inode
    requires f.enqueue.Succeeded? && f.markApplied
    ensures var run := RunSteps(req, action, f, inode, cfg.hasNodes);
            && Possible(w, run, cfg)
            && (EntryAborted(After(w, run, cfg).store.journal, req.id) && req.path in After(w, run, cfg).tree <==>
                  action.ActionErr? && (action.landed || req.path in w.tree))
  {
    RunAloneIsRecordedRun(w, req, action, f, inode, cfg);
    var j := w.store.journal;
    var j' := After(w, RunSteps(req, action, f, inode, cfg.hasNodes), cfg).store.journal;
    if action.ActionErr? {
      assert j' == WithStatus(j + [IntentOf(req)], req.id, Aborted);
      assert j'[|j|].id == req.id && j'[|j|].status.Aborted?;
    } else {
      forall k | 0 <= k < |j'| ensures !(j'[k].id == req.id && j'[k].status.Aborted?) {
        if k < |j| {
          assert j[k].id != req.id && j'[k].id == j[k].id;
        }
      }
    }
  }
}
