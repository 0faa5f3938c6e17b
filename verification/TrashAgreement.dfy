// The entries of the trash and the metadata records correspond one to one in every reachable state.
module TrashAgreement {
  import opened FileDomain
  import opened PosixTree
  import opened TrashNames
  import opened Workspace
  import opened RecycleBin
  import opened RecycleRuns
  import CopyTree

  ghost predicate RecordsMatch(meta: map<string, Below>) {
    forall e :: e in meta ==> EntryName(meta[e]) == e && !(TRASH <= meta[e])
  }

  ghost predicate EntriesRecorded(t: Tree, meta: map<string, Below>) {
    forall e :: EntryPath(e) in t <==> e in meta
  }

  // Every entry has a record, every record an entry, and the recorded path encodes to the name.
  ghost predicate Agrees(w: WS) {
    EntriesRecorded(w.tree, w.meta) && RecordsMatch(w.meta)
  }

  ghost predicate InOrder(w: WS) {
    Closed(w.tree) && Agrees(w)
  }

  // ---- What a run may do ----

  datatype Step =
    | SoftDeleteOf(gone: Deletable)
    | RestoreOf(entry: string)
    | Empty(entries: seq<string>)
    | Delete(target: Below)
    | Move(src: Path, dest: Path, overwrite: bool)
    | Copy(src: Path, dest: Path, overwrite: bool, walk: seq<CopyTree.Rel>)
    | NewFolder(path: Path)
    | NewFile(file: Below, content: string, overwrite: bool)

  function Do(w: WS, s: Step, c: Ctx): WS {
    match s
    case SoftDeleteOf(p) => DeletePath(w, p, true, false, c).0
    case RestoreOf(e) => RestorePath(w, EntryPath(e), c).0
    case Empty(entries) => EmptyRecycleBin(w, entries, c).0
    case Delete(p) => DeletePath(w, p, false, true, c).0
    case Move(src, dest, overwrite) => RenameOrMove(w, src, dest, overwrite, c).0
    case Copy(src, dest, overwrite, walk) => CopyPath(w, src, dest, overwrite, walk, c).0
    case NewFolder(p) => CreateFolder(w, p, c).0
    case NewFile(p, content, overwrite) => CreateFile(w, p, content, overwrite, c).0
  }

  // Operations on the live tree stay outside the trash; a failed metadata write is taken back, and
  // metadata records can be removed.
  ghost predicate Allowed(w: WS, s: Step, c: Ctx) {
    && (c.metaWrite || c.undo)
    && (forall e :: c.metaRemove(e))
    && match s
       case SoftDeleteOf(_) => true
       case RestoreOf(_) => true
       case Empty(entries) => ListsTrash(w.tree, entries)
       case Delete(p) => !(TRASH <= p)
       case Move(src, dest, _) => !(TRASH <= src) && !(TRASH <= dest)
       case Copy(_, dest, _, _) => dest != [] && !(TRASH <= dest)
       case NewFolder(p) => !(TRASH <= p)
       case NewFile(p, _, _) => !(TRASH <= p)
  }

  // ---- Moves and entries ----

  ghost predicate SameEntries(t: Tree, t': Tree) {
    forall e :: EntryPath(e) in t <==> EntryPath(e) in t'
  }

  lemma MkdirKeepsEntries(t: Tree, p: Path, c: Ctx)
    requires Closed(t) && TryMkdir(t, p, c).Some? && (p == TRASH || !(TRASH <= p))
    ensures SameEntries(t, TryMkdir(t, p, c).value)
    ensures Closed(TryMkdir(t, p, c).value)
    ensures forall q :: q in t ==> q in TryMkdir(t, p, c).value
    ensures forall q :: q in TryMkdir(t, p, c).value && q !in t ==> q <= p
  {
    MkdirAllCreates(t, p, c.alloc);
    MkdirAllKeepsClosed(t, p, c.alloc);
    forall e ensures !(EntryPath(e) <= p) {
      assert TRASH < EntryPath(e);
    }
  }

  // Moving something into an entry adds that entry and no other.
  lemma MoveIntoTrash(t: Tree, p: Path, e: string)
    requires Closed(t) && p in t && p != [] && !(TRASH <= p) && EntryPath(e) !in t && IsDir(t, TRASH)
    ensures var r := MoveSubtree(t, p, EntryPath(e));
            && Closed(r)
            && forall f :: EntryPath(f) in r <==> EntryPath(f) in t || f == e
  {
    OutsideTrash(p, e);
    assert Parent(EntryPath(e)) == TRASH;
    MoveKeepsClosed(t, p, EntryPath(e));
    var r := MoveSubtree(t, p, EntryPath(e));
    forall f ensures EntryPath(f) in r <==> EntryPath(f) in t || f == e {
      OutsideTrash(p, f);
      if f == e {
        assert p + EntryPath(e)[|EntryPath(e)|..] == p;
      } else {
        EntriesUnrelated(e, f);
      }
    }
  }

  // Moving an entry out of the trash removes that entry and no other.
  lemma MoveOutOfTrash(t: Tree, e: string, p: Path)
    requires Closed(t) && EntryPath(e) in t && p != [] && !(TRASH <= p) && p !in t && IsDir(t, Parent(p))
    ensures var r := MoveSubtree(t, EntryPath(e), p);
            && Closed(r)
            && forall f :: EntryPath(f) in r <==> EntryPath(f) in t && f != e
  {
    OutsideTrash(p, e);
    MoveKeepsClosed(t, EntryPath(e), p);
    var r := MoveSubtree(t, EntryPath(e), p);
    forall f ensures EntryPath(f) in r <==> EntryPath(f) in t && f != e {
      OutsideTrash(p, f);
      if f != e {
        EntriesUnrelated(e, f);
      }
    }
  }

  lemma MoveOutside(t: Tree, src: Path, dst: Path)
    requires Closed(t) && Rename(t, src, dst).Some?
    requires !(TRASH <= src) && !(TRASH <= dst)
    ensures Closed(Rename(t, src, dst).value) && SameEntries(t, Rename(t, src, dst).value)
  {
    if src != dst {
      RenameUnrelated(t, src, dst);
      MoveKeepsClosed(t, src, dst);
      forall e ensures !(src <= EntryPath(e)) && !(dst <= EntryPath(e)) {
        OutsideTrash(src, e);
        OutsideTrash(dst, e);
      }
    }
  }

  // ---- Soft delete and restore ----

  // The soft delete gets as far as writing the metadata record.
  ghost predicate ReachesRecord(w: WS, p: Path, c: Ctx) {
    c.mkdir && c.rename && !IsFile(w.tree, TRASH) && CanTrash(Disk(WithTrash(w.tree, c.alloc), w.meta), p)
  }

  // The disk a soft delete leaves, t being the tree with a trash directory.
  lemma UnreachedRecord(w: WS, p: Path, c: Ctx)
    requires Closed(w.tree) && !ReachesRecord(w, p, c) && p != META
    ensures var d := DiskOf(SoftDelete(w, p, c).0);
            || d == DiskOf(w)
            || (!IsFile(w.tree, TRASH) && d == Disk(WithTrash(w.tree, c.alloc), w.meta))
  {
    hide EntryName;
    TrashDirMade(w.tree, c.alloc);
    if p != [] && !(TRASH <= p) {
      OutsideTrash(p, EntryName(p));
    }
  }

  // The move into the trash works, and so does the way back.
  lemma ThereAndBack(t: Tree, p: Path, e: string)
    requires Closed(t) && CanTrash(Disk(t, map[]), p) && e == EntryName(p)
    ensures var moved := MoveSubtree(t, p, EntryPath(e));
            Rename(t, p, EntryPath(e)) == Some(moved) && Rename(moved, EntryPath(e), p) == Some(t)
  {
    hide EntryName, MoveSubtree;
    assert Parent(EntryPath(e)) == TRASH;
    OutsideTrash(p, e);
    MoveEffect(t, p, EntryPath(e));
  }

  lemma ReachedRecord(w: WS, p: Path, c: Ctx)
    requires Closed(w.tree) && ReachesRecord(w, p, c) && p != META
    ensures var d := DiskOf(SoftDelete(w, p, c).0);
            var t := Disk(WithTrash(w.tree, c.alloc), w.meta);
            if c.metaWrite then d == Trashed(t, p)
            else if c.undo then d == t
            else d == Disk(MoveSubtree(t.tree, p, Entry(p)), w.meta)
  {
    hide EntryName, Rename, MoveSubtree, Recorded, WithTrash;
    TrashDirMade(w.tree, c.alloc);
    ThereAndBack(WithTrash(w.tree, c.alloc), p, EntryName(p));
  }

  lemma SameEntriesAgree(t: Tree, t': Tree, meta: map<string, Below>)
    requires SameEntries(t, t')
    ensures EntriesRecorded(t', meta) <==> EntriesRecorded(t, meta)
  {
  }

  lemma NewEntry(t: Tree, t': Tree, meta: map<string, Below>, e: string, p: Below)
    requires EntriesRecorded(t, meta) && EntryPath(e) !in t
    requires forall f :: EntryPath(f) in t' <==> EntryPath(f) in t || f == e
    ensures EntriesRecorded(t', meta[e := p]) && !EntriesRecorded(t', meta)
  {
    assert EntryPath(e) in t';
  }

  lemma GoneEntry(t: Tree, t': Tree, meta: map<string, Below>, e: string)
    requires EntriesRecorded(t, meta) && EntryPath(e) in t
    requires forall f :: EntryPath(f) in t' <==> EntryPath(f) in t && f != e
    ensures EntriesRecorded(t', meta - {e}) && !EntriesRecorded(t', meta)
  {
    assert EntryPath(e) !in t';
  }

  // A soft delete keeps entries and records together exactly when a metadata write it reaches either
  // works or is taken back.
  lemma SoftDeleteAgrees(w: WS, p: Path, c: Ctx)
    requires InOrder(w) && p != META
    ensures Closed(SoftDelete(w, p, c).0.tree)
    ensures Agrees(SoftDelete(w, p, c).0) <==> (c.metaWrite || c.undo || !ReachesRecord(w, p, c))
  {
    hide EntryName, SoftDelete, EntriesRecorded, RecordsMatch, SameEntries, WithTrash, Closed;
    TrashDirMade(w.tree, c.alloc);
    var t := WithTrash(w.tree, c.alloc);
    if !IsFile(w.tree, TRASH) {
      TrashDirKeepsEntries(w.tree, c.alloc);
      SameEntriesAgree(w.tree, t, w.meta);
    }
    if ReachesRecord(w, p, c) {
      ReachedRecord(w, p, c);
      EntryPut(t, w.meta, p);
    } else {
      UnreachedRecord(w, p, c);
    }
  }

  // Putting a path into the trash is in order with its record, and out of order without.
  lemma EntryPut(t: Tree, meta: map<string, Below>, p: Path)
    requires Closed(t) && CanTrash(Disk(t, meta), p) && EntriesRecorded(t, meta) && RecordsMatch(meta)
    ensures var d := Trashed(Disk(t, meta), p);
            && Closed(d.tree) && EntriesRecorded(d.tree, d.meta) && RecordsMatch(d.meta)
            && !EntriesRecorded(d.tree, meta)
  {
    hide EntryName, EntriesRecorded;
    MoveIntoTrash(t, p, EntryName(p));
    NewEntry(t, MoveSubtree(t, p, Entry(p)), meta, EntryName(p), p);
  }

  lemma TrashDirKeepsEntries(t: Tree, alloc: Path -> nat)
    ensures SameEntries(t, WithTrash(t, alloc))
  {
  }

  // The existence check: whatever paths share an entry name, a soft delete leaves everything already
  // in the trash, and every record, as it was.
  lemma NothingInTrashOverwritten(w: WS, p: Path, c: Ctx)
    requires InOrder(w) && p != META
    ensures var w' := SoftDelete(w, p, c).0;
            && (forall q :: q in w.tree && TRASH <= q ==> q in w'.tree && w'.tree[q] == w.tree[q])
            && (forall e :: e in w.meta ==> e in w'.meta && w'.meta[e] == w.meta[e])
  {
    hide EntryName, SoftDelete;
    if ReachesRecord(w, p, c) {
      ReachedRecord(w, p, c);
      TrashDirMade(w.tree, c.alloc);
      var t := WithTrash(w.tree, c.alloc);
      NothingAt(t, Entry(p));
      var moved := MoveSubtree(t, p, Entry(p));
      forall q | q in w.tree && TRASH <= q ensures q in moved && moved[q] == w.tree[q] {
        assert q in t && !(Entry(p) <= q);
        assert p[0] != "trash" && q[0] == "trash";
      }
    } else {
      UnreachedRecord(w, p, c);
    }
  }

  // A restore keeps them together exactly when it fails or its record is removed.
  lemma RestoreAgrees(w: WS, e: string, c: Ctx)
    requires InOrder(w)
    ensures Closed(RestorePath(w, EntryPath(e), c).0.tree)
    ensures Agrees(RestorePath(w, EntryPath(e), c).0) <==> (c.metaRemove(e) || RestorePath(w, EntryPath(e), c).1 != Ok)
  {
    hide EntryName, EntriesRecorded, SameEntries;
    if e in w.meta && TryMkdir(w.tree, Parent(w.meta[e]), c).Some? {
      var dest := w.meta[e];
      var t := TryMkdir(w.tree, Parent(dest), c).value;
      assert !(TRASH <= Parent(dest));
      MkdirKeepsEntries(w.tree, Parent(dest), c);
      SameEntriesAgree(w.tree, t, w.meta);
      if dest !in t && TryRename(t, EntryPath(e), dest, c.rename).Some? {
        OutsideTrash(dest, e);
        MoveOutOfTrash(t, e, dest);
        GoneEntry(t, MoveSubtree(t, EntryPath(e), dest), w.meta, e);
      }
    }
  }

  // ---- Emptying the recycle bin ----

  lemma DeleteEntry(w: WS, e: string, c: Ctx)
    requires InOrder(w)
    ensures var (w1, r) := DeletePath(w, EntryPath(e), false, true, c);
            && (r != Ok ==> DiskOf(w1) == DiskOf(w))
            && (r == Ok ==> EntryPath(e) in w.tree && DiskOf(w1) == Disk(RemoveAll(w.tree, EntryPath(e)), w.meta))
  {
  }

  lemma EntryRemoved(t: Tree, e: string)
    requires Closed(t)
    ensures var r := RemoveAll(t, EntryPath(e));
            Closed(r) && forall f :: EntryPath(f) in r <==> EntryPath(f) in t && f != e
  {
    RemoveAllKeepsClosed(t, EntryPath(e));
    forall f ensures EntryPath(e) <= EntryPath(f) <==> e == f {
      if e != f {
        EntriesUnrelated(e, f);
      }
    }
  }

  lemma {:induction false} SweepAgrees(w: WS, entries: seq<string>, c: Ctx)
    requires InOrder(w) && forall e :: c.metaRemove(e)
    ensures InOrder(EmptySweep(w, entries, c).0)
    ensures EmptySweep(w, entries, c).1 == Ok ==>
              forall e :: EntryPath(e) in EmptySweep(w, entries, c).0.tree ==> EntryPath(e) in w.tree && e !in entries
    decreases |entries|
  {
    if entries != [] {
      hide DeletePath, EntriesRecorded;
      var e := entries[0];
      var (w1, r) := DeletePath(w, EntryPath(e), false, true, c);
      DeleteEntry(w, e, c);
      if r == Ok {
        EntryRemoved(w.tree, e);
        GoneEntry(w.tree, w1.tree, w.meta, e);
        var w2 := w1.(meta := w1.meta - {e});
        assert InOrder(w2);
        SweepAgrees(w2, entries[1..], c);
        assert entries == [e] + entries[1..];
      }
    }
  }

  // Emptying keeps the two together; when it succeeds, both are empty.
  lemma EmptyAgrees(w: WS, entries: seq<string>, c: Ctx)
    requires InOrder(w) && ListsTrash(w.tree, entries) && forall e :: c.metaRemove(e)
    ensures InOrder(EmptyRecycleBin(w, entries, c).0)
    ensures var (w', r) := EmptyRecycleBin(w, entries, c);
            r == Ok ==> w'.meta == map[] && forall e :: EntryPath(e) !in w'.tree
  {
    hide EmptySweep, EntryName;
    SweepAgrees(w, entries, c);
    if TRASH !in w.tree {
      forall e ensures EntryPath(e) !in w.tree {
        assert Parent(EntryPath(e)) == TRASH;
      }
      NoRecords(w.tree, w.meta);
    } else if IsDir(w.tree, TRASH) && EmptySweep(w, entries, c).1 == Ok {
      var w1 := EmptySweep(w, entries, c).0;
      forall e ensures EntryPath(e) !in w1.tree {
      }
      NoRecords(w1.tree, w1.meta);
    }
  }

  lemma NoRecords(t: Tree, meta: map<string, Below>)
    requires EntriesRecorded(t, meta) && forall e :: EntryPath(e) !in t
    ensures meta == map[]
  {
    forall e ensures e !in meta {
      assert EntryPath(e) !in t;
    }
  }

  // ---- Operations on the live tree ----

  lemma DeleteAgrees(w: WS, p: Below, soft: bool, permanent: bool, c: Ctx)
    requires InOrder(w) && (c.metaWrite || c.undo)
    requires if soft && !permanent then p != META else !(TRASH <= p)
    ensures InOrder(DeletePath(w, p, soft, permanent, c).0)
  {
    hide EntryName, SoftDelete, EntriesRecorded, SameEntries;
    if soft && !permanent {
      SoftDeleteAgrees(w, p, c);
      return;
    }
    RemoveAllKeepsClosed(w.tree, p);
    RemovalKeepsEntries(w.tree, p);
    SameEntriesAgree(w.tree, RemoveAll(w.tree, p), w.meta);
  }

  lemma RemovalKeepsEntries(t: Tree, p: Below)
    requires !(TRASH <= p)
    ensures SameEntries(t, RemoveAll(t, p))
  {
    forall e ensures EntryPath(e) in t <==> EntryPath(e) in RemoveAll(t, p) {
      OutsideTrash(p, e);
    }
  }

  lemma RelocateAgrees(w: WS, src: Path, node: Node, dest: Path, c: Ctx)
    requires InOrder(w) && !(TRASH <= src) && !(TRASH <= dest)
    ensures InOrder(Relocate(w, src, node, dest, c).0)
  {
    hide EntriesRecorded, SameEntries;
    if Rename(w.tree, src, dest).Some? {
      MoveOutside(w.tree, src, dest);
      SameEntriesAgree(w.tree, Rename(w.tree, src, dest).value, w.meta);
    }
  }

  lemma MkdirAgrees(w: WS, p: Path, c: Ctx)
    requires InOrder(w) && !(TRASH <= p)
    ensures TryMkdir(w.tree, p, c).Some? ==> InOrder(w.(tree := TryMkdir(w.tree, p, c).value))
  {
    hide EntriesRecorded, SameEntries;
    if TryMkdir(w.tree, p, c).Some? {
      MkdirKeepsEntries(w.tree, p, c);
      SameEntriesAgree(w.tree, TryMkdir(w.tree, p, c).value, w.meta);
    }
  }

  lemma MoveAgrees(w: WS, src: Path, dest: Path, overwrite: bool, c: Ctx)
    requires InOrder(w) && !(TRASH <= src) && !(TRASH <= dest)
    ensures InOrder(RenameOrMove(w, src, dest, overwrite, c).0)
  {
    hide Relocate, InOrder;
    if src in w.tree {
      RelocateAgrees(w, src, w.tree[src], dest, c);
      if dest != [] {
        assert !(TRASH <= Parent(dest));
        MkdirAgrees(w, Parent(dest), c);
        var dir := TryMkdir(w.tree, Parent(dest), c);
        if dir.Some? {
          RelocateAgrees(w.(tree := dir.value), src, w.tree[src], dest, c);
        }
      }
    }
  }

  lemma CopyNodeAgrees(w: WS, src: Path, node: Node, dest: Path, walk: seq<CopyTree.Rel>, c: Ctx)
    requires InOrder(w) && dest != [] && !(TRASH <= dest)
    ensures InOrder(CopyNode(w, src, node, dest, walk, c).0)
  {
    hide EntriesRecorded, SameEntries, CopyTree.CopyDir, CopyTree.CopyFile, Closed;
    CopyTree.DirConfined(w.tree, src, dest, walk, c.alloc);
    CopyTree.FileConfined(w.tree, src, dest, dest, c.alloc);
    var t := CopyNode(w, src, node, dest, walk, c).0.tree;
    ConfinedKeepsEntries(w.tree, t, dest);
    SameEntriesAgree(w.tree, t, w.meta);
  }

  lemma ConfinedKeepsEntries(t: Tree, r: Tree, dest: Path)
    requires dest != [] && !(TRASH <= dest) && CopyTree.CopyConfined(t, r, dest)
    ensures SameEntries(t, r)
  {
    forall e ensures EntryPath(e) in t <==> EntryPath(e) in r {
      OutsideTrash(dest, e);
      assert CopyTree.Same(t, r, EntryPath(e));
    }
  }

  lemma CopyAgrees(w: WS, src: Path, dest: Path, overwrite: bool, walk: seq<CopyTree.Rel>, c: Ctx)
    requires InOrder(w) && dest != [] && !(TRASH <= dest)
    ensures InOrder(CopyPath(w, src, dest, overwrite, walk, c).0)
  {
    hide CopyNode, InOrder;
    if src in w.tree {
      CopyNodeAgrees(w, src, w.tree[src], dest, walk, c);
      assert !(TRASH <= Parent(dest));
      MkdirAgrees(w, Parent(dest), c);
      var dir := TryMkdir(w.tree, Parent(dest), c);
      if dir.Some? {
        CopyNodeAgrees(w.(tree := dir.value), src, w.tree[src], dest, walk, c);
      }
    }
  }

  lemma CreateFileAgrees(w: WS, p: Below, content: string, overwrite: bool, c: Ctx)
    requires InOrder(w) && !(TRASH <= p)
    ensures InOrder(CreateFile(w, p, content, overwrite, c).0)
  {
    hide EntriesRecorded, SameEntries;
    assert !(TRASH <= Parent(p));
    MkdirAgrees(w, Parent(p), c);
    var dir := TryMkdir(w.tree, Parent(p), c);
    if dir.Some? && !IsDir(dir.value, p) {
      MkdirAllKeepsClosed(w.tree, Parent(p), c.alloc);
      FileKeepsEntries(dir.value, p, FileNode(c.alloc(p), content));
      SameEntriesAgree(dir.value, dir.value[p := FileNode(c.alloc(p), content)], w.meta);
    }
  }

  lemma FileKeepsEntries(t: Tree, p: Below, node: Node)
    requires Closed(t) && !(TRASH <= p) && !IsDir(t, p) && IsDir(t, Parent(p)) && node.FileNode?
    ensures Closed(t[p := node]) && SameEntries(t, t[p := node])
  {
    forall q | q in t && q != [] ensures Parent(q) != p {
    }
    forall e ensures EntryPath(e) != p {
    }
  }

  // ---- Every reachable state ----

  lemma StepKeepsAgreement(w: WS, s: Step, c: Ctx)
    requires InOrder(w) && Allowed(w, s, c)
    ensures InOrder(Do(w, s, c))
  {
    hide Closed, Agrees;
    match s
    case SoftDeleteOf(p) => DeleteAgrees(w, p, true, false, c);
    case RestoreOf(e) => RestoreAgrees(w, e, c);
    case Empty(entries) => EmptyAgrees(w, entries, c);
    case Delete(p) => DeleteAgrees(w, p, false, true, c);
    case Move(src, dest, overwrite) => MoveAgrees(w, src, dest, overwrite, c);
    case Copy(src, dest, overwrite, walk) => CopyAgrees(w, src, dest, overwrite, walk, c);
    case NewFolder(p) => MkdirAgrees(w, p, c);
    case NewFile(p, content, overwrite) => CreateFileAgrees(w, p, content, overwrite, c);
  }

  ghost predicate AllowedRun(w: WS, run: seq<(Step, Ctx)>)
    decreases |run|
  {
    run == [] || (Allowed(w, run[0].0, run[0].1) && AllowedRun(Do(w, run[0].0, run[0].1), run[1..]))
  }

  function AfterRun(w: WS, run: seq<(Step, Ctx)>): WS
    decreases |run|
  {
    if run == [] then w else AfterRun(Do(w, run[0].0, run[0].1), run[1..])
  }

  lemma {:induction false} TrashAndRecordsAgree(w: WS, run: seq<(Step, Ctx)>)
    requires InOrder(w) && AllowedRun(w, run)
    ensures InOrder(AfterRun(w, run))
    decreases |run|
  {
    if run != [] {
      StepKeepsAgreement(w, run[0].0, run[0].1);
      TrashAndRecordsAgree(Do(w, run[0].0, run[0].1), run[1..]);
    }
  }
}
