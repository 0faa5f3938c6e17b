// The file system that git works through: every operation also keeps the inode index.
module IdentityFS {
  import opened FileDomain
  import NodeStore
  import opened PosixTree
  import opened Text
  import opened Paths
  import opened PathResolution

  // ---- Paths of the repository's own data ----

  predicate ShouldSkip(path: string) {
    var cleanPath := Clean(path);
    cleanPath == ".git" || HasPrefix(cleanPath, ".git/")
  }

  predicate InGitDir(p: Path) {
    p != [] && p[0] == ".git"
  }

  // A relative path is skipped exactly when the first of its names is ".git".
  lemma SkipsGitDir(path: string)
    requires !Rooted(path)
    ensures ShouldSkip(path) <==> InGitDir(Segs(path))
  {
    var segs := Segs(path);
    SegsNormal(path);
    assert Plain(".git");
    assert Join([".git"], "/") == ".git";
    if segs == [] {
      assert Clean(path)[0] == '.' && |Clean(path)| == 1;
    } else {
      assert forall k :: 0 <= k < |segs| ==> Plain(segs[k]) || DotDot(segs[k]);
      UnderMeansPrefix([".git"], segs);
      assert [".git"] <= segs <==> segs[0] == ".git";
    }
  }

  // ---- What the wrapped file system does ----

  datatype Flags = Flags(writeOnly: bool, readWrite: bool, append: bool, truncate: bool, create: bool,
                         exclusive: bool) {
    predicate Dirty() {
      writeOnly || readWrite || append || truncate || create
    }
  }

  const CREATE := Flags(false, true, false, true, true, false)
  const WRITE_ONLY := Flags(true, false, false, false, false, false)

  // Opening to create also makes the directories above. A directory can only be opened to read.
  function Open(t: Tree, p: Path, flags: Flags, alloc: Path -> nat): Option<Tree> {
    if p == [] then if flags.Dirty() then None else Some(t)
    else
      var above := if flags.create then MkdirAll(t, Parent(p), alloc) else Some(t);
      if above.None? then None
      else if p in above.value then
        if (above.value[p].DirNode? && flags.Dirty()) || (flags.create && flags.exclusive) then None else above
      else if flags.create then Some(above.value[p := FileNode(alloc(p), "")])
      else None
  }

  // A path opens exactly when it is a file, or a directory opened to read, that need not be new, or is
  // free, is to be created, and has a way to it. An existing node stays what it is, a new one is an empty
  // file, and besides it only directories above it are new.
  lemma OpenSpelled(t: Tree, p: Path, flags: Flags, alloc: Path -> nat)
    requires Closed(t) && p != []
    ensures Open(t, p, flags, alloc).Some? <==>
            if p in t
            then !(flags.create && flags.exclusive)
                 && (IsDir(t, p) ==>
                       !flags.writeOnly && !flags.readWrite && !flags.append && !flags.truncate && !flags.create)
            else flags.create && MkdirAll(t, Parent(p), alloc).Some?
    ensures Open(t, p, flags, alloc).Some? ==>
              var r := Open(t, p, flags, alloc).value;
              && p in r && (p !in t ==> r[p] == FileNode(alloc(p), ""))
              && (forall q :: q in t ==> q in r && r[q] == t[q])
              && (forall q :: q in r && q !in t && q != p ==> q < p && r[q].DirNode?)
  {
    MkdirAllCreates(t, Parent(p), alloc);
    if p in t {
      forall k | 0 <= k <= |Parent(p)| ensures !IsFile(t, Parent(p)[..k]) {
        assert Parent(p)[..k] == p[..k];
        AncestorsAreDirs(t, p[..k], p);
      }
      assert MkdirAll(t, Parent(p), alloc) == Some(t);
    }
    forall q: Path | q in t || q <= Parent(p) ensures q <= Parent(p) ==> q < p {
    }
  }

  // Renaming makes the directories above the new name first; they stay when the rename then fails.
  function Move(t: Tree, src: Path, dst: Path, alloc: Path -> nat): (Tree, bool) {
    if dst == [] then (t, false)
    else
      var above := MkdirAll(t, Parent(dst), alloc);
      if above.None? then (t, false)
      else
        var moved := Rename(above.value, src, dst);
        if moved.None? then (above.value, false) else (moved.value, true)
  }

  // A file, or a directory with nothing in it.
  predicate Removable(t: Tree, p: Path) {
    p != [] && p in t && forall q :: q in t ==> !(p < q)
  }

  function Unlink(t: Tree, p: Path): Option<Tree> {
    if Removable(t, p) then Some(t - {p}) else None
  }

  // ---- What the wrapper does ----

  datatype Handle = Handle(path: Path, inode: nat, dirty: bool)

  datatype Repo = Repo(tree: Tree, rows: Rows, open: map<nat, Handle>)

  datatype Op =
    | Create(path: Path, id: nat, alloc: Path -> nat)
    | OpenFile(path: Path, flags: Flags, id: nat, alloc: Path -> nat)
    | Write(id: nat, written: nat)
    | Truncate(id: nat, works: bool)
    | Close(id: nat, works: bool)
    | RenameTo(path: Path, dest: Path, alloc: Path -> nat)
    | Remove(path: Path)
    | MakeDir(path: Path, alloc: Path -> nat)

  // The row of whatever is at p.
  function WithRow(rows: Rows, t: Tree, p: Path, actor: NodeActor): Rows {
    if InGitDir(p) || p !in t then rows
    else UpsertRow(rows, NodeMutation(t[p].inode, actor, Some(NodeTypeFromDir(t[p].DirNode?))))
  }

  function Opened(r: Repo, p: Path, flags: Flags, id: nat, alloc: Path -> nat, actor: NodeActor): Repo {
    var t := Open(r.tree, p, flags, alloc);
    if t.None? || p !in t.value then r
    else
      Repo(t.value, if flags.create then WithRow(r.rows, t.value, p, actor) else r.rows,
           r.open[id := Handle(p, t.value[p].inode, flags.Dirty())])
  }

  function Dirtied(r: Repo, id: nat): Repo {
    if id in r.open then r.(open := r.open[id := r.open[id].(dirty := true)]) else r
  }

  function HandleClosed(r: Repo, id: nat, works: bool, actor: NodeActor): Repo {
    if id !in r.open then r
    else
      var h := r.open[id];
      Repo(r.tree, if works && h.dirty then WithRow(r.rows, r.tree, h.path, actor) else r.rows, r.open - {id})
  }

  function Renamed(r: Repo, src: Path, dst: Path, alloc: Path -> nat, actor: NodeActor): Repo {
    var (t, ok) := Move(r.tree, src, dst, alloc);
    if !ok || src !in r.tree then r.(tree := t)
    else
      var info := r.tree[src];
      Repo(t,
           if InGitDir(dst) then r.rows
           else UpsertRow(r.rows, NodeMutation(info.inode, actor, Some(NodeTypeFromDir(info.DirNode?)))),
           r.open)
  }

  function Removed(r: Repo, p: Path): Repo {
    var t := Unlink(r.tree, p);
    if t.None? then r
    else Repo(t.value, if InGitDir(p) then r.rows else r.rows - {r.tree[p].inode}, r.open)
  }

  function MadeDir(r: Repo, p: Path, alloc: Path -> nat, actor: NodeActor): Repo {
    var t := MkdirAll(r.tree, p, alloc);
    if t.None? then r else r.(tree := t.value, rows := WithRow(r.rows, t.value, p, actor))
  }

  function Step(r: Repo, op: Op, actor: NodeActor): Repo {
    match op
    case Create(p, id, alloc) => Opened(r, p, CREATE, id, alloc, actor)
    case OpenFile(p, flags, id, alloc) => Opened(r, p, flags, id, alloc, actor)
    case Write(id, n) => if n > 0 then Dirtied(r, id) else r
    case Truncate(id, works) => if works then Dirtied(r, id) else r
    case Close(id, works) => HandleClosed(r, id, works, actor)
    case RenameTo(src, dst, alloc) => Renamed(r, src, dst, alloc, actor)
    case Remove(p) => Removed(r, p)
    case MakeDir(p, alloc) => MadeDir(r, p, alloc, actor)
  }

  function Run(r: Repo, run: seq<Op>, actor: NodeActor): Repo
    decreases |run|
  {
    if run == [] then r else Run(Step(r, run[0], actor), run[1..], actor)
  }

  // ---- What a caller can see happen to a file ----

  // The step opens p so as to create it, and inode i is there afterwards.
  predicate CreatesAt(r: Repo, p: Path, flags: Flags, alloc: Path -> nat, i: nat) {
    var t := Open(r.tree, p, flags, alloc);
    flags.create && !InGitDir(p) && t.Some? && p in t.value && t.value[p].inode == i
  }

  // The step makes sure that there is a directory at p, and inode i is there afterwards.
  predicate MakesDirAt(r: Repo, p: Path, alloc: Path -> nat, i: nat) {
    var t := MkdirAll(r.tree, p, alloc);
    !InGitDir(p) && t.Some? && p in t.value && t.value[p].inode == i
  }

  // Inode i is created, renamed, made as a directory, or closed after writing, outside .git, with its
  // path still its own.
  predicate Claims(r: Repo, op: Op, i: nat) {
    match op
    case Create(p, _, alloc) => CreatesAt(r, p, CREATE, alloc, i)
    case OpenFile(p, flags, _, alloc) => CreatesAt(r, p, flags, alloc, i)
    case RenameTo(src, dst, alloc) =>
      !InGitDir(dst) && Move(r.tree, src, dst, alloc).1 && src in r.tree && r.tree[src].inode == i
    case Close(id, works) => works && id in r.open && r.open[id].inode == i && ClosesOnto(r, id, i)
    case MakeDir(p, alloc) => MakesDirAt(r, p, alloc, i)
    case _ => false
  }

  // The handle was written through, and its path names inode i now.
  predicate ClosesOnto(r: Repo, id: nat, i: nat)
    requires id in r.open
  {
    var h := r.open[id];
    h.dirty && !InGitDir(h.path) && h.path in r.tree && r.tree[h.path].inode == i
  }

  predicate Removes(r: Repo, op: Op, i: nat) {
    op.Remove? && !InGitDir(op.path) && Removable(r.tree, op.path) && r.tree[op.path].inode == i
  }

  // Besides, closing records whatever took the path.
  predicate Records(r: Repo, op: Op, i: nat) {
    || Claims(r, op, i)
    || (op.Close? && op.works && op.id in r.open && ClosesOnto(r, op.id, i))
  }

  predicate OwnedBy(rows: Rows, i: nat, actor: NodeActor) {
    i in rows && rows[i].actor == actor
  }

  lemma StepIndexes(r: Repo, op: Op, i: nat, actor: NodeActor)
    ensures Claims(r, op, i) ==> OwnedBy(Step(r, op, actor).rows, i, actor)
    ensures OwnedBy(r.rows, i, actor) && !Removes(r, op, i) ==> OwnedBy(Step(r, op, actor).rows, i, actor)
    ensures Removes(r, op, i) ==> i !in Step(r, op, actor).rows
    ensures i !in r.rows && !Records(r, op, i) ==> i !in Step(r, op, actor).rows
  {
    hide MkdirAll, Rename, Open, Move, Removable;
  }

  // ---- Runs ----

  predicate NeverRemoved(r: Repo, run: seq<Op>, i: nat, actor: NodeActor)
    decreases |run|
  {
    run == [] || (!Removes(r, run[0], i) && NeverRemoved(Step(r, run[0], actor), run[1..], i, actor))
  }

  predicate NeverRecorded(r: Repo, run: seq<Op>, i: nat, actor: NodeActor)
    decreases |run|
  {
    run == [] || (!Records(r, run[0], i) && NeverRecorded(Step(r, run[0], actor), run[1..], i, actor))
  }

  // Some step claims the inode and no later one removes it.
  predicate ClaimedAndKept(r: Repo, run: seq<Op>, i: nat, actor: NodeActor)
    decreases |run|
  {
    run != [] &&
    ((Claims(r, run[0], i) && NeverRemoved(Step(r, run[0], actor), run[1..], i, actor))
     || ClaimedAndKept(Step(r, run[0], actor), run[1..], i, actor))
  }

  // Some step removes the inode and no later one records it.
  predicate RemovedForGood(r: Repo, run: seq<Op>, i: nat, actor: NodeActor)
    decreases |run|
  {
    run != [] &&
    ((Removes(r, run[0], i) && NeverRecorded(Step(r, run[0], actor), run[1..], i, actor))
     || RemovedForGood(Step(r, run[0], actor), run[1..], i, actor))
  }

  lemma {:induction false} KeepsRow(r: Repo, run: seq<Op>, i: nat, actor: NodeActor)
    requires OwnedBy(r.rows, i, actor) && NeverRemoved(r, run, i, actor)
    ensures OwnedBy(Run(r, run, actor).rows, i, actor)
    decreases |run|
  {
    if run != [] {
      StepIndexes(r, run[0], i, actor);
      KeepsRow(Step(r, run[0], actor), run[1..], i, actor);
    }
  }

  lemma {:induction false} StaysAway(r: Repo, run: seq<Op>, i: nat, actor: NodeActor)
    requires i !in r.rows && NeverRecorded(r, run, i, actor)
    ensures i !in Run(r, run, actor).rows
    decreases |run|
  {
    if run != [] {
      StepIndexes(r, run[0], i, actor);
      StaysAway(Step(r, run[0], actor), run[1..], i, actor);
    }
  }

  // What was created, renamed, made, or written and closed outside .git, and not removed since, has a
  // row of the actor.
  lemma {:induction false} ClaimedHasRow(r: Repo, run: seq<Op>, i: nat, actor: NodeActor)
    requires ClaimedAndKept(r, run, i, actor)
    ensures OwnedBy(Run(r, run, actor).rows, i, actor)
    decreases |run|
  {
    hide Step, Claims, OwnedBy;
    var r1 := Step(r, run[0], actor);
    StepIndexes(r, run[0], i, actor);
    if Claims(r, run[0], i) && NeverRemoved(r1, run[1..], i, actor) {
      KeepsRow(r1, run[1..], i, actor);
    } else {
      ClaimedHasRow(r1, run[1..], i, actor);
    }
  }

  // The inode of a file removed outside .git has no row until something with that inode is recorded.
  lemma {:induction false} RemovedHasNoRow(r: Repo, run: seq<Op>, i: nat, actor: NodeActor)
    requires RemovedForGood(r, run, i, actor)
    ensures i !in Run(r, run, actor).rows
    decreases |run|
  {
    hide Step, Removes, Records;
    var r1 := Step(r, run[0], actor);
    StepIndexes(r, run[0], i, actor);
    if Removes(r, run[0], i) && NeverRecorded(r1, run[1..], i, actor) {
      StaysAway(r1, run[1..], i, actor);
    } else {
      RemovedHasNoRow(r1, run[1..], i, actor);
    }
  }

  // Closing goes by the path the file was opened under: a file without a row gets one exactly when
  // it was written, the close works, and that path, outside .git, still names the file.
  lemma CloseRecordsByPath(r: Repo, id: nat, works: bool, actor: NodeActor)
    requires id in r.open && r.open[id].inode !in r.rows
    ensures r.open[id].inode in Step(r, Close(id, works), actor).rows <==>
              works && ClosesOnto(r, id, r.open[id].inode)
  {
  }

  // A file without a row that is opened without creating it and closed at once gets one exactly when it
  // was opened for anything but reading.
  lemma OpenedForWritingIsRecorded(r: Repo, p: Path, flags: Flags, alloc: Path -> nat, actor: NodeActor)
    requires IsFile(r.tree, p) && p != [] && !InGitDir(p) && !flags.create && r.tree[p].inode !in r.rows
    ensures r.tree[p].inode in Run(r, [OpenFile(p, flags, 0, alloc), Close(0, true)], actor).rows <==>
            flags.writeOnly || flags.readWrite || flags.append || flags.truncate
  {
    RunOfTwo(r, OpenFile(p, flags, 0, alloc), Close(0, true), [], actor);
    assert [OpenFile(p, flags, 0, alloc), Close(0, true)] + [] == [OpenFile(p, flags, 0, alloc), Close(0, true)];
  }

  // Writing at least one byte, or a truncation that works, is what makes an open file dirty.
  lemma DirtiedByWriting(r: Repo, id: nat, n: nat, works: bool, actor: NodeActor)
    requires id in r.open
    ensures var w, t := Step(r, Write(id, n), actor), Step(r, Truncate(id, works), actor);
            && w.tree == t.tree == r.tree && w.rows == t.rows == r.rows && id in w.open && id in t.open
            && (w.open[id].dirty <==> r.open[id].dirty || n > 0)
            && (t.open[id].dirty <==> r.open[id].dirty || works)
  {
  }

  // So a file that is opened to be written, written, and closed after its directory was renamed, goes
  // without a row although it is there.
  lemma RenamedWhileOpen(r: Repo, p: Path, src: Path, dst: Path, alloc: Path -> nat, actor: NodeActor)
    requires Closed(r.tree) && DistinctInodes(r.tree) && src != [] && src < p
    requires IsFile(r.tree, p) && r.tree[p].inode !in r.rows
    requires dst != [] && IsDir(r.tree, Parent(dst)) && dst !in r.tree && !(src <= dst)
    ensures var run := [OpenFile(p, WRITE_ONLY, 0, alloc), Write(0, 1), RenameTo(src, dst, alloc), Close(0, true)];
            var r', p' := Run(r, run, actor), dst + p[|src|..];
            p' in r'.tree && r'.tree[p'] == r.tree[p] && r.tree[p].inode !in r'.rows
  {
    hide Move, MkdirAll, Closed;
    var o1, o2, o3, o4 := OpenFile(p, WRITE_ONLY, 0, alloc), Write(0, 1), RenameTo(src, dst, alloc), Close(0, true);
    DirMoves(r.tree, src, dst, p, alloc);
    var r2 := Step(Step(r, o1, actor), o2, actor);
    assert r2 == Repo(r.tree, r.rows, r.open[0 := Handle(p, r.tree[p].inode, true)]);
    assert r.tree[src].inode != r.tree[p].inode;
    assert [o1, o2, o3, o4] == [o1, o2] + [o3, o4];
    RunOfTwo(r, o1, o2, [o3, o4], actor);
    RunOfTwo(r2, o3, o4, [], actor);
    assert [o3, o4] + [] == [o3, o4];
  }

  lemma DirMoves(t: Tree, src: Path, dst: Path, p: Path, alloc: Path -> nat)
    requires Closed(t) && src < p && p in t && src != []
    requires dst != [] && IsDir(t, Parent(dst)) && dst !in t && !(src <= dst)
    ensures src in t
    ensures var (t', ok) := Move(t, src, dst, alloc);
            ok && p !in t' && dst + p[|src|..] in t' && t'[dst + p[|src|..]] == t[p]
  {
    AncestorsAreDirs(t, src, p);
    assert MkdirAll(t, Parent(dst), alloc) == Some(t);
    RenameUnrelated(t, src, dst);
    assert !(dst <= p) by {
      if dst < p {
        AncestorsAreDirs(t, dst, p);
      }
    }
    SplitPath(src, p);
    assert (dst + p[|src|..])[|dst|..] == p[|src|..];
  }

  lemma RunOfTwo(r: Repo, a: Op, b: Op, rest: seq<Op>, actor: NodeActor)
    ensures Run(r, [a, b] + rest, actor) == Run(Step(Step(r, a, actor), b, actor), rest, actor)
  {
    assert ([a, b] + rest)[1..] == [b] + rest && ([b] + rest)[1..] == rest;
    assert Run(Step(r, a, actor), [b] + rest, actor) == Run(Step(Step(r, a, actor), b, actor), rest, actor);
  }

  // A repository that such a run may start from.
  lemma RenamedWhileOpenApplies(alloc: Path -> nat) returns (r: Repo)
    ensures Closed(r.tree) && DistinctInodes(r.tree) && IsFile(r.tree, ["d", "f"])
    ensures r.tree[["d", "f"]].inode !in r.rows && ["e"] !in r.tree && IsDir(r.tree, Parent(["e"]))
    ensures ["d"] < ["d", "f"] && !(["d"] <= ["e"])
  {
    var root: Path, d: Path, f: Path := [], ["d"], ["d", "f"];
    r := Repo(map[root := DirNode(1), d := DirNode(2), f := FileNode(3, "")], map[], map[]);
    assert Parent(d) == root && Parent(f) == d && Parent(["e"]) == root;
    assert ["d"][0] != ["e"][0];
  }

  // ---- The wrapper itself ----

  // The wrapped file system.
  class BaseFS {
    var tree: Tree

    constructor (tree: Tree)
      ensures this.tree == tree
    {
      this.tree := tree;
    }
  }

  class IdentityFile {
    const path: Path
    const inode: nat
    var dirty: bool

    constructor (path: Path, inode: nat, dirty: bool)
      ensures this.path == path && this.inode == inode && this.dirty == dirty
    {
      this.path, this.inode, this.dirty := path, inode, dirty;
    }

    method Write(written: nat)
      modifies this
      ensures dirty == (old(dirty) || written > 0)
    {
      if written > 0 {
        dirty := true;
      }
    }

    method Truncate(works: bool) returns (ok: bool)
      modifies this
      ensures ok == works && dirty == (old(dirty) || works)
    {
      if !works {
        return false;
      }
      dirty := true;
      return true;
    }
  }

  class IdentityFileSystem {
    const base: BaseFS
    const store: NodeStore.FileNodeStore
    const actor: NodeActor

    constructor (base: BaseFS, store: NodeStore.FileNodeStore, actor: NodeActor)
      ensures this.base == base && this.store == store && this.actor == actor
    {
      this.base, this.store, this.actor := base, store, actor;
    }

    // The state with one file open under the name 0.
    ghost function With(f: IdentityFile?): Repo
      reads base, store, f
    {
      Repo(base.tree, store.nodes, if f == null then map[] else map[0 := Handle(f.path, f.inode, f.dirty)])
    }

    method Upsert(p: Path, info: Node)
      modifies store
      ensures store.nodes == if InGitDir(p) then old(store.nodes)
                             else UpsertRow(old(store.nodes),
                                            NodeMutation(info.inode, actor, Some(NodeTypeFromDir(info.DirNode?))))
    {
      if InGitDir(p) {
        return;
      }
      store.UpsertCreatedOrUpdated(NodeMutation(info.inode, actor, Some(NodeTypeFromDir(info.DirNode?))));
    }

    method RecordCreatedOrUpdated(p: Path)
      modifies store
      ensures store.nodes == WithRow(old(store.nodes), base.tree, p, actor)
    {
      if InGitDir(p) || p !in base.tree {
        return;
      }
      Upsert(p, base.tree[p]);
    }

    method OpenFile(p: Path, flags: Flags, alloc: Path -> nat) returns (f: IdentityFile?)
      modifies base, store
      ensures f != null ==> fresh(f)
      ensures With(f) == Opened(old(With(null)), p, flags, 0, alloc, actor)
    {
      var t := Open(base.tree, p, flags, alloc);
      if t.None? || p !in t.value {
        return null;
      }
      base.tree := t.value;
      var dirty := flags.Dirty();
      if dirty && flags.create {
        RecordCreatedOrUpdated(p);
      }
      f := new IdentityFile(p, t.value[p].inode, dirty);
    }

    method Create(p: Path, alloc: Path -> nat) returns (f: IdentityFile?)
      modifies base, store
      ensures f != null ==> fresh(f)
      ensures With(f) == Step(old(With(null)), Op.Create(p, 0, alloc), actor)
    {
      var t := Open(base.tree, p, CREATE, alloc);
      if t.None? || p !in t.value {
        return null;
      }
      base.tree := t.value;
      RecordCreatedOrUpdated(p);
      f := new IdentityFile(p, t.value[p].inode, true);
    }

    method Close(f: IdentityFile, works: bool) returns (ok: bool)
      modifies store
      ensures ok == works
      ensures With(null) == Step(old(With(f)), Op.Close(0, works), actor)
    {
      if works && f.dirty {
        RecordCreatedOrUpdated(f.path);
      }
      assert map[0 := Handle(f.path, f.inode, f.dirty)] - {0} == map[];
      return works;
    }

    method Rename(src: Path, dst: Path, alloc: Path -> nat) returns (ok: bool)
      modifies base, store
      ensures With(null) == Step(old(With(null)), RenameTo(src, dst, alloc), actor)
    {
      var (t, moved) := Move(base.tree, src, dst, alloc);
      if !moved || src !in base.tree {
        base.tree := t;
        return false;
      }
      var info := base.tree[src];
      base.tree := t;
      Upsert(dst, info);
      return true;
    }

    method Remove(p: Path) returns (ok: bool)
      modifies base, store
      ensures With(null) == Step(old(With(null)), Op.Remove(p), actor)
    {
      var t := Unlink(base.tree, p);
      if t.None? {
        return false;
      }
      var info := base.tree[p];
      base.tree := t.value;
      if !InGitDir(p) {
        store.MarkDeleted(NodeMutation(info.inode, actor, None));
      }
      return true;
    }

    method MkdirAll(p: Path, alloc: Path -> nat) returns (ok: bool)
      modifies base, store
      ensures With(null) == Step(old(With(null)), MakeDir(p, alloc), actor)
    {
      var t := PosixTree.MkdirAll(base.tree, p, alloc);
      if t.None? {
        return false;
      }
      base.tree := t.value;
      RecordCreatedOrUpdated(p);
      return true;
    }
  }
}
