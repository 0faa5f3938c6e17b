// The write-ahead protocol as a machine: any number of recorded writes in flight, the recovery scan
// beside them, crashes that forget both, and outside changes to the tree and the index. Every call
// of a store may fail, and a failed call may or may not have taken effect.
module WriteProtocol {
  import opened FileDomain
  import opened IntentLog
  import opened Reconciliation

  // One call of the recorder. The id is the one drawn for its intent.
  datatype Request = Request(id: string, op: Op, path: string, actor: NodeActor, nodeType: Option<NodeType>)

  // Where a call stands between its effects.
  datatype Phase =
    | Acting                    // enqueued; the storage action has not taken effect
    | Landed                    // the storage action has taken effect; its path is not yet statted
    | Failing(landed: bool)     // the action returned an error
    | Recording(inode: nat)     // the action returned the inode it statted, 0 when unresolved
    | Marking                   // the row is written; the intent is to be marked done

  // journaled: the call holds an intent id, that is, Enqueue reported success.
  datatype InFlight = InFlight(req: Request, journaled: bool, phase: Phase)

  // Where the scan stands; queue is what is left of the listed batch.
  datatype Scan =
    | Idle
    | Scanning(queue: Log)
    | Statted(it: Intent, stat: StatResult, queue: Log)
    | Retrying(it: Intent, queue: Log)
    | ToMark(it: Intent, queue: Log)

  datatype AbortCause = ErrorBeforeLanding | ErrorAfterLanding | TargetMissing | TriesExhausted

  // What the machine remembers only to be able to state its properties.
  datatype History = History(
    used: set<string>,                 // intent ids drawn so far
    asked: set<Request>,               // the calls made so far
    enqueued: set<string>,             // ids whose Enqueue reported success
    had: set<(string, nat)>,           // inodes each path has ever had
    upserts: set<NodeMutation>,        // upserts that reported success
    landings: map<string, string>,     // call id -> path its action took effect on
    lastLanded: map<string, string>,   // path -> id of the call that took effect on it last
    causes: map<string, AbortCause>)   // intent id -> why it was marked aborted

  datatype World = World(
    tree: map<string, nat>,            // durable: the inode of every existing path
    store: Store,                      // durable: journal and index
    running: map<string, InFlight>,    // volatile
    scan: Scan,                        // volatile
    past: History)

  datatype StatMode = StatWorks | StatErrs | InodeUnresolved

  datatype Action =
    | Start(req: Request, enqueue: CallResult)
    | Land(id: string, inode: nat)
    | Fail(id: string)
    | StatTarget(id: string, resolved: bool)
    | Record(id: string, result: CallResult)
    | FinishDone(id: string, applied: bool)
    | FinishAborted(id: string, applied: bool)
    | ListBatch
    | ScanStat(mode: StatMode)
    | ScanAbort(applied: bool)
    | ScanRetry(applied: bool)
    | ScanUpsert(result: CallResult)
    | ScanMark(applied: bool)
    | EndScan
    | Crash
    | SetPath(path: string, node: Option<nat>)
    | SetRow(inode: nat, row: Option<NodeRecord>)

  predicate InPhase(w: World, id: string, p: Phase -> bool) {
    id in w.running && p(w.running[id].phase)
  }

  predicate Enabled(w: World, a: Action) {
    match a
    case Start(req, _) => req.id !in w.past.used
    case Land(id, _) => InPhase(w, id, (p: Phase) => p.Acting?)
    case Fail(id) => InPhase(w, id, (p: Phase) => p.Acting? || p.Landed?)
    case StatTarget(id, _) => InPhase(w, id, (p: Phase) => p.Landed?)
    case Record(id, _) => InPhase(w, id, (p: Phase) => p.Recording?)
    case FinishDone(id, _) => InPhase(w, id, (p: Phase) => p.Marking?)
    case FinishAborted(id, _) => InPhase(w, id, (p: Phase) => p.Failing?)
    case ListBatch => w.scan.Idle? || (w.scan.Scanning? && w.scan.queue == [])
    case ScanStat(mode) =>
      w.scan.Scanning? && w.scan.queue != [] && (mode.InodeUnresolved? ==> w.scan.queue[0].absPath in w.tree)
    case ScanAbort(_) => w.scan.Statted? && w.scan.stat.Missing?
    case ScanRetry(_) =>
      w.scan.Retrying? || (w.scan.Statted? && (w.scan.stat.StatFailed? || w.scan.stat == Present(0)))
    case ScanUpsert(_) => w.scan.Statted? && w.scan.stat.Present? && w.scan.stat.inode != 0
    case ScanMark(_) => w.scan.ToMark?
    case EndScan => w.scan.Scanning?
    case Crash => true
    case SetPath(_, _) => true
    case SetRow(_, _) => true
  }

  // ---- Effects ----

  function IntentOf(req: Request): Intent {
    Intent(req.id, req.op, req.path, req.actor, req.nodeType, Pending, 0)
  }

  function WithJournal(w: World, j: Log): World {
    w.(store := w.store.(journal := j))
  }

  function SetPhase(w: World, id: string, p: Phase): World
    requires id in w.running
  {
    w.(running := w.running[id := w.running[id].(phase := p)])
  }

  function Drop(w: World, id: string): World {
    w.(running := w.running - {id})
  }

  // An upsert call: its row if it was applied, its place in the history if it reported success.
  function Upserted(w: World, m: NodeMutation, r: CallResult): World {
    w.(store := if r.Applied() then w.store.(rows := UpsertRow(w.store.rows, m)) else w.store,
       past := if r.Succeeded? then w.past.(upserts := w.past.upserts + {m}) else w.past)
  }

  function AbortedBy(w: World, id: string, applied: bool, cause: AbortCause): World {
    WithJournal(w, MarkedIf(w.store.journal, id, Aborted, applied))
      .(past := if applied then w.past.(causes := w.past.causes[id := cause]) else w.past)
  }

  function Bind(w: World, path: string, inode: nat): World {
    w.(tree := w.tree[path := inode], past := w.past.(had := w.past.had + {(path, inode)}))
  }

  function ScanRest(scan: Scan): Scan
    requires !scan.Idle?
  {
    Scanning(scan.queue)
  }

  function StartRun(w: World, req: Request, enqueue: CallResult): World {
    var journal := if enqueue.Applied() then Enqueued(w.store.journal, IntentOf(req)) else w.store.journal;
    WithJournal(w, journal)
      .(running := w.running[req.id := InFlight(req, enqueue.Succeeded?, Acting)],
        past := w.past.(used := w.past.used + {req.id}, asked := w.past.asked + {req},
          enqueued := if enqueue.Succeeded? then w.past.enqueued + {req.id} else w.past.enqueued))
  }

  function LandRun(w: World, id: string, inode: nat): World
    requires id in w.running
  {
    var path := w.running[id].req.path;
    var w1 := Bind(SetPhase(w, id, Landed), path, inode);
    w1.(past := w1.past.(landings := w1.past.landings[id := path], lastLanded := w1.past.lastLanded[path := id]))
  }

  function StatRun(w: World, id: string, resolved: bool): World
    requires id in w.running
  {
    var path := w.running[id].req.path;
    if path !in w.tree then SetPhase(w, id, Failing(true))
    else SetPhase(w, id, Recording(if resolved then w.tree[path] else 0))
  }

  function RecordRun(w: World, id: string, result: CallResult, cfg: Config): World
    requires id in w.running && w.running[id].phase.Recording?
  {
    var run := w.running[id];
    if !cfg.hasNodes then SetPhase(w, id, Marking)
    else if run.phase.inode == 0 then Drop(w, id)
    else
      var w1 := Upserted(w, NodeMutation(run.phase.inode, run.req.actor, run.req.nodeType), result);
      if result.Succeeded? then SetPhase(w1, id, Marking) else Drop(w1, id)
  }

  function FinishDoneRun(w: World, id: string, applied: bool): World
    requires id in w.running
  {
    var w1 := Drop(w, id);
    if w.running[id].journaled then WithJournal(w1, MarkedIf(w.store.journal, id, Done, applied)) else w1
  }

  function FinishAbortedRun(w: World, id: string, applied: bool): World
    requires id in w.running && w.running[id].phase.Failing?
  {
    var run := w.running[id];
    var w1 := Drop(w, id);
    if run.journaled
    then AbortedBy(w1, id, applied, if run.phase.landed then ErrorAfterLanding else ErrorBeforeLanding)
    else w1
  }

  function StatOf(tree: map<string, nat>, path: string, mode: StatMode): StatResult {
    match mode
    case StatErrs => StatFailed
    case InodeUnresolved => Present(0)
    case StatWorks => if path in tree then Present(tree[path]) else Missing
  }

  function RetryScan(w: World, applied: bool, cfg: Config): World
    requires w.scan.Retrying? || w.scan.Statted?
  {
    var w1 := if w.scan.it.attempts + 1 >= cfg.maxTries then AbortedBy(w, w.scan.it.id, applied, TriesExhausted)
              else WithJournal(w, if applied then WithAttempt(w.store.journal, w.scan.it.id) else w.store.journal);
    w1.(scan := ScanRest(w.scan))
  }

  function UpsertScan(w: World, result: CallResult, cfg: Config): World
    requires w.scan.Statted? && w.scan.stat.Present?
  {
    var it, queue := w.scan.it, w.scan.queue;
    if !cfg.hasNodes then w.(scan := ToMark(it, queue))
    else
      Upserted(w, MutationOf(it, w.scan.stat.inode), result)
        .(scan := if result.Succeeded? then ToMark(it, queue) else Retrying(it, queue))
  }

  function Next(w: World, a: Action, cfg: Config): World
    requires Enabled(w, a)
  {
    match a
    case Start(req, enqueue) => StartRun(w, req, enqueue)
    case Land(id, inode) => LandRun(w, id, inode)
    case Fail(id) => SetPhase(w, id, Failing(w.running[id].phase.Landed?))
    case StatTarget(id, resolved) => StatRun(w, id, resolved)
    case Record(id, result) => RecordRun(w, id, result, cfg)
    case FinishDone(id, applied) => FinishDoneRun(w, id, applied)
    case FinishAborted(id, applied) => FinishAbortedRun(w, id, applied)
    case ListBatch => w.(scan := Scanning(Take(PendingOf(w.store.journal), cfg.batchSize)))
    case ScanStat(mode) =>
      var it := w.scan.queue[0];
      w.(scan := Statted(it, StatOf(w.tree, it.absPath, mode), w.scan.queue[1..]))
    case ScanAbort(applied) => AbortedBy(w, w.scan.it.id, applied, TargetMissing).(scan := ScanRest(w.scan))
    case ScanRetry(applied) => RetryScan(w, applied, cfg)
    case ScanUpsert(result) => UpsertScan(w, result, cfg)
    case ScanMark(applied) =>
      WithJournal(w, MarkedIf(w.store.journal, w.scan.it.id, Done, applied)).(scan := ScanRest(w.scan))
    case EndScan => w.(scan := Idle)
    case Crash => w.(running := map[], scan := Idle)
    case SetPath(path, node) =>
      if node.Some? then Bind(w, path, node.value) else w.(tree := w.tree - {path})
    case SetRow(inode, row) =>
      w.(store := w.store.(rows := if row.Some? then w.store.rows[inode := row.value] else w.store.rows - {inode}))
  }

  // ---- Runs ----

  predicate Possible(w: World, run: seq<Action>, cfg: Config)
    decreases |run|
  {
    run == [] || (Enabled(w, run[0]) && Possible(Next(w, run[0], cfg), run[1..], cfg))
  }

  function After(w: World, run: seq<Action>, cfg: Config): World
    requires Possible(w, run, cfg)
    decreases |run|
  {
    if run == [] then w else After(Next(w, run[0], cfg), run[1..], cfg)
  }

  // A machine that has done nothing yet, over any tree and any index.
  ghost predicate Initial(w: World) {
    && w.store.journal == [] && w.running == map[] && w.scan == Idle
    && w.past == History({}, {}, {}, set p | p in w.tree :: (p, w.tree[p]), {}, map[], map[], map[])
  }
}
