// Every live file that was created, renamed, or written and closed through git's file system has a
// row: liveness of the file does for the promise, because a removed inode is in use nowhere.
module IdentityLiveness {
  import opened FileDomain
  import opened PosixTree
  import opened IdentityFS

  predicate InUse(t: Tree, i: nat) {
    exists p :: p in t && t[p].inode == i
  }

  // The step takes inode i into use.
  predicate GivesOut(r: Repo, op: Op, i: nat, actor: NodeActor) {
    !InUse(r.tree, i) && InUse(Step(r, op, actor).tree, i)
  }

  // What the file system gives to new nodes is not in use.
  ghost predicate FreshFor(t: Tree, op: Op) {
    match op
    case Create(_, _, alloc) => FreshInodes(t, alloc)
    case OpenFile(_, _, _, alloc) => FreshInodes(t, alloc)
    case RenameTo(_, _, alloc) => FreshInodes(t, alloc)
    case MakeDir(_, alloc) => FreshInodes(t, alloc)
    case _ => true
  }

  ghost predicate FreshRun(r: Repo, run: seq<Op>, actor: NodeActor)
    decreases |run|
  {
    run == [] || (FreshFor(r.tree, run[0]) && FreshRun(Step(r, run[0], actor), run[1..], actor))
  }

  predicate NeverGivenOut(r: Repo, run: seq<Op>, i: nat, actor: NodeActor)
    decreases |run|
  {
    run == [] || (!GivesOut(r, run[0], i, actor) && NeverGivenOut(Step(r, run[0], actor), run[1..], i, actor))
  }

  // Some step claims the inode, and no later one gives it to something else.
  predicate Claimed(r: Repo, run: seq<Op>, i: nat, actor: NodeActor)
    decreases |run|
  {
    run != [] &&
    ((Claims(r, run[0], i) && NeverGivenOut(Step(r, run[0], actor), run[1..], i, actor))
     || Claimed(Step(r, run[0], actor), run[1..], i, actor))
  }

  // ---- The tree stays a tree ----

  ghost predicate TreeSound(t: Tree) {
    Closed(t) && DistinctInodes(t)
  }

  lemma OpenKeepsTree(t: Tree, p: Path, flags: Flags, alloc: Path -> nat)
    requires TreeSound(t) && FreshInodes(t, alloc) && Open(t, p, flags, alloc).Some?
    ensures TreeSound(Open(t, p, flags, alloc).value)
  {
    if p != [] && flags.create {
      MkdirAllCreates(t, Parent(p), alloc);
      MkdirAllKeepsClosed(t, Parent(p), alloc);
      var t1 := MkdirAll(t, Parent(p), alloc).value;
      if p !in t1 {
        NewFileKeepsTree(t1, p, FileNode(alloc(p), ""));
      }
    }
  }

  lemma NewFileKeepsTree(t: Tree, p: Path, node: Node)
    requires TreeSound(t) && p != [] && p !in t && IsDir(t, Parent(p)) && !InUse(t, node.inode)
    ensures TreeSound(t[p := node])
  {
    forall q | q in t && q != [] ensures Parent(q) != p {
    }
  }

  lemma MoveKeepsTree(t: Tree, src: Path, dst: Path, alloc: Path -> nat)
    requires TreeSound(t) && FreshInodes(t, alloc)
    ensures TreeSound(Move(t, src, dst, alloc).0)
  {
    if dst != [] && MkdirAll(t, Parent(dst), alloc).Some? {
      MkdirAllKeepsClosed(t, Parent(dst), alloc);
      var t1 := MkdirAll(t, Parent(dst), alloc).value;
      if Rename(t1, src, dst).Some? && src != dst {
        RenameUnrelated(t1, src, dst);
        MoveKeepsClosed(t1, src, dst);
      }
    }
  }

  lemma UnlinkKeepsTree(t: Tree, p: Path)
    requires TreeSound(t) && Removable(t, p)
    ensures TreeSound(t - {p}) && !InUse(t - {p}, t[p].inode)
  {
    hide Closed;
    forall q | q in t ensures p <= q <==> q == p {
      assert p <= q ==> q == p || p < q;
    }
    assert (t - {p}).Keys == RemoveAll(t, p).Keys;
    assert t - {p} == RemoveAll(t, p);
    RemoveAllKeepsClosed(t, p);
  }

  lemma StepKeepsTree(r: Repo, op: Op, actor: NodeActor)
    requires TreeSound(r.tree) && FreshFor(r.tree, op)
    ensures TreeSound(Step(r, op, actor).tree)
  {
    hide TreeSound, Open, Move, Removable, WithRow, FreshInodes;
    match op
    case Create(p, _, alloc) => OpenedKeepsTree(r, p, CREATE, op.id, alloc, actor);
    case OpenFile(p, flags, _, alloc) => OpenedKeepsTree(r, p, flags, op.id, alloc, actor);
    case RenameTo(src, dst, alloc) => MoveKeepsTree(r.tree, src, dst, alloc);
    case Remove(p) =>
      if Removable(r.tree, p) {
        UnlinkKeepsTree(r.tree, p);
      }
    case MakeDir(p, alloc) => MadeDirKeepsTree(r.tree, p, alloc);
    case Write(_, _) =>
    case Truncate(_, _) =>
    case Close(_, _) =>
  }

  lemma OpenedKeepsTree(r: Repo, p: Path, flags: Flags, id: nat, alloc: Path -> nat, actor: NodeActor)
    requires TreeSound(r.tree) && FreshInodes(r.tree, alloc)
    ensures TreeSound(Opened(r, p, flags, id, alloc, actor).tree)
  {
    hide TreeSound, Open;
    if Open(r.tree, p, flags, alloc).Some? {
      OpenKeepsTree(r.tree, p, flags, alloc);
    }
  }

  lemma MadeDirKeepsTree(t: Tree, p: Path, alloc: Path -> nat)
    requires TreeSound(t) && FreshInodes(t, alloc)
    ensures MkdirAll(t, p, alloc).Some? ==> TreeSound(MkdirAll(t, p, alloc).value)
  {
    if MkdirAll(t, p, alloc).Some? {
      MkdirAllKeepsClosed(t, p, alloc);
    }
  }

  // ---- Nodes stay what they are ----

  // Every node of the new tree is one of the old tree, or has an inode that was not in use.
  ghost predicate KnownNodes(t: Tree, t': Tree) {
    forall q :: q in t' ==> !InUse(t, t'[q].inode) || exists p :: p in t && t[p] == t'[q]
  }

  lemma KnownSelf(t: Tree)
    ensures KnownNodes(t, t)
  {
  }

  lemma MkdirKnows(t: Tree, p: Path, alloc: Path -> nat)
    requires TreeSound(t) && FreshInodes(t, alloc) && MkdirAll(t, p, alloc).Some?
    ensures KnownNodes(t, MkdirAll(t, p, alloc).value)
  {
    MkdirAllCreates(t, p, alloc);
    var r := MkdirAll(t, p, alloc).value;
    forall q | q in r ensures !InUse(t, r[q].inode) || exists p :: p in t && t[p] == r[q] {
      if q in t {
        assert t[q] == r[q];
      }
    }
  }

  lemma FreshUnused(t: Tree, i: nat, alloc: Path -> nat, p: Path)
    requires FreshInodes(t, alloc) && i == alloc(p)
    ensures !InUse(t, i)
  {
  }

  lemma NewNodeKnown(t: Tree, t1: Tree, p: Path, node: Node)
    requires KnownNodes(t, t1) && !InUse(t, node.inode)
    ensures KnownNodes(t, t1[p := node])
  {
    var r := t1[p := node];
    forall q | q in r ensures !InUse(t, r[q].inode) || exists o :: o in t && t[o] == r[q] {
      assert q != p ==> q in t1 && r[q] == t1[q];
    }
  }

  lemma OpenKnows(t: Tree, p: Path, flags: Flags, alloc: Path -> nat)
    requires TreeSound(t) && FreshInodes(t, alloc) && Open(t, p, flags, alloc).Some?
    ensures KnownNodes(t, Open(t, p, flags, alloc).value)
  {
    KnownSelf(t);
    if p != [] && flags.create {
      MkdirKnows(t, Parent(p), alloc);
      hide TreeSound, MkdirAll, InUse, KnownNodes;
      var t1 := MkdirAll(t, Parent(p), alloc).value;
      if p !in t1 {
        FreshUnused(t, alloc(p), alloc, p);
        NewNodeKnown(t, t1, p, FileNode(alloc(p), ""));
      }
    }
  }

  lemma MoveKnows(t: Tree, src: Path, dst: Path, alloc: Path -> nat)
    requires TreeSound(t) && FreshInodes(t, alloc)
    ensures KnownNodes(t, Move(t, src, dst, alloc).0)
  {
    KnownSelf(t);
    if dst != [] && MkdirAll(t, Parent(dst), alloc).Some? {
      MkdirKnows(t, Parent(dst), alloc);
      var t1, r := MkdirAll(t, Parent(dst), alloc).value, Move(t, src, dst, alloc).0;
      forall q | q in r ensures !InUse(t, r[q].inode) || exists p :: p in t && t[p] == r[q] {
        var o := if Rename(t1, src, dst).Some? && src != dst && dst <= q then src + q[|dst|..] else q;
        assert o in t1 && t1[o] == r[q];
      }
    }
  }

  lemma StepKnows(r: Repo, op: Op, actor: NodeActor)
    requires TreeSound(r.tree) && FreshFor(r.tree, op)
    ensures KnownNodes(r.tree, Step(r, op, actor).tree)
  {
    hide TreeSound, Open, Move, Removable, WithRow, FreshInodes, KnownNodes;
    KnownSelf(r.tree);
    match op
    case Create(p, _, alloc) => OpenedKnows(r, p, CREATE, op.id, alloc, actor);
    case OpenFile(p, flags, _, alloc) => OpenedKnows(r, p, flags, op.id, alloc, actor);
    case RenameTo(src, dst, alloc) => MoveKnows(r.tree, src, dst, alloc);
    case Remove(p) => UnlinkKnows(r.tree, p);
    case MakeDir(p, alloc) =>
      if MkdirAll(r.tree, p, alloc).Some? {
        MkdirKnows(r.tree, p, alloc);
      }
    case Write(_, _) =>
    case Truncate(_, _) =>
    case Close(_, _) =>
  }

  lemma OpenedKnows(r: Repo, p: Path, flags: Flags, id: nat, alloc: Path -> nat, actor: NodeActor)
    requires TreeSound(r.tree) && FreshInodes(r.tree, alloc)
    ensures KnownNodes(r.tree, Opened(r, p, flags, id, alloc, actor).tree)
  {
    hide TreeSound, Open, KnownNodes;
    KnownSelf(r.tree);
    if Open(r.tree, p, flags, alloc).Some? {
      OpenKnows(r.tree, p, flags, alloc);
    }
  }

  lemma UnlinkKnows(t: Tree, p: Path)
    ensures KnownNodes(t, t - {p})
  {
    forall q | q in t - {p} ensures exists o :: o in t && t[o] == (t - {p})[q] {
      assert t[q] == (t - {p})[q];
    }
  }

  // ---- Live files keep their rows ----

  // The row of the node names the actor, and says a directory is a directory and a file a file.
  ghost predicate RowSays(rows: Rows, node: Node, actor: NodeActor) {
    && OwnedBy(rows, node.inode, actor)
    && (node.DirNode? ==> rows[node.inode].nodeType == Directory)
    && (node.FileNode? ==> rows[node.inode].nodeType == File)
  }

  // Whatever has the inode has such a row.
  ghost predicate Typed(r: Repo, i: nat, actor: NodeActor) {
    OwnedBy(r.rows, i, actor) && forall q :: q in r.tree && r.tree[q].inode == i ==> RowSays(r.rows, r.tree[q], actor)
  }

  // A step rewrites the row of an inode only for a node that has it then.
  lemma RowsWritten(r: Repo, op: Op, i: nat, actor: NodeActor)
    ensures var r' := Step(r, op, actor);
            || ((i in r'.rows <==> i in r.rows) && (i in r.rows ==> r'.rows[i] == r.rows[i]))
            || i !in r'.rows
            || exists q :: q in r'.tree && r'.tree[q].inode == i && RowSays(r'.rows, r'.tree[q], actor)
  {
    hide MkdirAll, Open, Removable;
    var r' := Step(r, op, actor);
    match op
    case RenameTo(src, dst, alloc) =>
      if Move(r.tree, src, dst, alloc).1 && src in r.tree {
        MovedNode(r.tree, src, dst, alloc);
        assert r'.tree[dst] == r.tree[src];
      }
    case _ =>
  }

  lemma MovedNode(t: Tree, src: Path, dst: Path, alloc: Path -> nat)
    requires Move(t, src, dst, alloc).1 && src in t
    ensures dst in Move(t, src, dst, alloc).0 && Move(t, src, dst, alloc).0[dst] == t[src]
  {
    var t1 := MkdirAll(t, Parent(dst), alloc).value;
    MkdirKeepsNode(t, Parent(dst), alloc, src);
    assert src + dst[|dst|..] == src;
  }

  lemma {:induction false} MkdirKeepsNode(t: Tree, p: Path, alloc: Path -> nat, q: Path)
    requires MkdirAll(t, p, alloc).Some? && q in t
    ensures q in MkdirAll(t, p, alloc).value && MkdirAll(t, p, alloc).value[q] == t[q]
    decreases |p|
  {
    if p !in t && p != [] {
      MkdirKeepsNode(t, Parent(p), alloc, q);
    }
  }

  lemma ClaimsTyped(r: Repo, op: Op, i: nat, actor: NodeActor)
    requires TreeSound(r.tree) && FreshFor(r.tree, op) && Claims(r, op, i)
    ensures Typed(Step(r, op, actor), i, actor) && InUse(Step(r, op, actor).tree, i)
  {
    hide MkdirAll, Open, Move, Closed;
    StepKeepsTree(r, op, actor);
    StepIndexes(r, op, i, actor);
    if op.RenameTo? {
      MovedNode(r.tree, op.path, op.dest, op.alloc);
    }
  }

  lemma KeepsTyped(r: Repo, op: Op, i: nat, actor: NodeActor)
    requires TreeSound(r.tree) && FreshFor(r.tree, op) && Typed(r, i, actor) && InUse(r.tree, i)
    requires !Removes(r, op, i)
    ensures Typed(Step(r, op, actor), i, actor)
  {
    hide Step, Removes, Closed, OwnedBy;
    var r' := Step(r, op, actor);
    StepKeepsTree(r, op, actor);
    StepKnows(r, op, actor);
    StepIndexes(r, op, i, actor);
    RowsWritten(r, op, i, actor);
    OwnedIsIn(r.rows, i, actor);
    OwnedIsIn(r'.rows, i, actor);
    forall q | q in r'.tree && r'.tree[q].inode == i ensures RowSays(r'.rows, r'.tree[q], actor) {
      var p :| p in r.tree && r.tree[p] == r'.tree[q];
    }
  }

  lemma OwnedIsIn(rows: Rows, i: nat, actor: NodeActor)
    ensures OwnedBy(rows, i, actor) ==> i in rows
  {
  }

  // Once an inode is removed nothing has it, until it is given out again.
  lemma RemovedIsDead(r: Repo, op: Op, i: nat, actor: NodeActor)
    requires TreeSound(r.tree) && Removes(r, op, i)
    ensures !InUse(Step(r, op, actor).tree, i)
  {
    UnlinkKeepsTree(r.tree, op.path);
  }

  lemma {:induction false} DeadStaysDead(r: Repo, run: seq<Op>, i: nat, actor: NodeActor)
    requires !InUse(r.tree, i) && NeverGivenOut(r, run, i, actor)
    ensures !InUse(Run(r, run, actor).tree, i)
    decreases |run|
  {
    if run != [] {
      DeadStaysDead(Step(r, run[0], actor), run[1..], i, actor);
    }
  }

  lemma {:induction false} LiveKeepsRow(r: Repo, run: seq<Op>, i: nat, actor: NodeActor)
    requires TreeSound(r.tree) && FreshRun(r, run, actor) && NeverGivenOut(r, run, i, actor)
    requires Typed(r, i, actor) && InUse(r.tree, i) && InUse(Run(r, run, actor).tree, i)
    ensures Typed(Run(r, run, actor), i, actor)
    decreases |run|
  {
    if run != [] {
      hide Step, InUse, TreeSound, Typed, Removes;
      var r1 := Step(r, run[0], actor);
      StepKeepsTree(r, run[0], actor);
      if !InUse(r1.tree, i) {
        DeadStaysDead(r1, run[1..], i, actor);
      } else {
        if Removes(r, run[0], i) {
          RemovedIsDead(r, run[0], i, actor);
        }
        KeepsTyped(r, run[0], i, actor);
        LiveKeepsRow(r1, run[1..], i, actor);
      }
    }
  }

  lemma {:induction false} ClaimedStaysTyped(r: Repo, run: seq<Op>, i: nat, actor: NodeActor)
    requires TreeSound(r.tree) && FreshRun(r, run, actor) && Claimed(r, run, i, actor)
    requires InUse(Run(r, run, actor).tree, i)
    ensures Typed(Run(r, run, actor), i, actor)
    decreases |run|
  {
    hide Step, Claims, Typed, InUse, TreeSound;
    var r1 := Step(r, run[0], actor);
    StepKeepsTree(r, run[0], actor);
    if Claims(r, run[0], i) && NeverGivenOut(r1, run[1..], i, actor) {
      ClaimsTyped(r, run[0], i, actor);
      LiveKeepsRow(r1, run[1..], i, actor);
    } else {
      ClaimedStaysTyped(r1, run[1..], i, actor);
    }
  }

  // In any run from a tree whose inodes are distinct, what was created, renamed, made, or written and
  // closed outside .git and is in the tree at the end, wherever it is, has a row of the actor, which
  // says directory of a directory and file of a file.
  lemma LiveHasRow(r: Repo, run: seq<Op>, p: Path, actor: NodeActor)
    requires Closed(r.tree) && DistinctInodes(r.tree) && FreshRun(r, run, actor)
    requires p in Run(r, run, actor).tree
    requires Claimed(r, run, Run(r, run, actor).tree[p].inode, actor)
    ensures RowSays(Run(r, run, actor).rows, Run(r, run, actor).tree[p], actor)
  {
    var r' := Run(r, run, actor);
    assert InUse(r'.tree, r'.tree[p].inode);
    ClaimedStaysTyped(r, run, r'.tree[p].inode, actor);
  }
}
