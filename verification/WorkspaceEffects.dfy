// What each operation on the workspace does to the live tree and to the index, whatever its outcome,
// and which reply it gives.
module WorkspaceEffects {
  import opened FileDomain
  import opened PosixTree
  import opened TrashNames
  import opened Workspace
  import opened RecycleBin
  import opened RecycleRuns
  import opened MoveTree
  import opened TrashAgreement

  ghost predicate SameNode(t: Tree, t': Tree, q: Path) {
    (q in t' <==> q in t) && (q in t ==> t'[q] == t[q])
  }

  // ---- Restore ----

  // Where the record of the entry points is outside the trash, as in every reachable state.
  ghost predicate PointsOutside(w: WS, p: Path) {
    TRASH <= p && Name(p) in w.meta ==> !(TRASH <= w.meta[Name(p)])
  }

  // The tree after the directories above dest were made, and whether there was a way to make them.
  lemma WayMade(t: Tree, dest: Below, c: Ctx)
    requires Closed(t) && c.mkdir
    ensures TryMkdir(t, Parent(dest), c).Some? <==> !Blocked(t, dest)
    ensures TryMkdir(t, Parent(dest), c).Some? ==>
              var t1 := TryMkdir(t, Parent(dest), c).value;
              && Closed(t1) && IsDir(t1, Parent(dest))
              && (forall q :: q in t ==> q in t1 && t1[q] == t[q])
              && (forall q :: q in t1 && q !in t ==> q < dest && t1[q].DirNode?)
  {
    var up := Parent(dest);
    MkdirAllCreates(t, up, c.alloc);
    forall k | 0 <= k < |dest| ensures dest[..k] == up[..k] {
    }
    if TryMkdir(t, up, c).Some? {
      MkdirAllKeepsClosed(t, up, c.alloc);
      forall q: Path | q in TryMkdir(t, up, c).value && q !in t ensures q < dest {
        assert q <= up;
      }
    }
  }

  // A restore succeeds exactly when the trash path and its record exist, the recorded path is free and
  // reachable, and the calls work. The other replies tell what was missing.
  lemma RestoreSucceeds(w: WS, p: Path, c: Ctx)
    requires Closed(w.tree) && PointsOutside(w, p)
    ensures var r := RestorePath(w, p, c).1;
            && (r == ErrInvalidRequest <==> !(TRASH <= p))
            && (r == ErrNotFound <==> TRASH <= p && Name(p) !in w.meta)
            && (r == ErrAlreadyExists <==> TRASH <= p && Name(p) in w.meta && c.mkdir && w.meta[Name(p)] in w.tree)
            && (r == Ok <==>
                  && TRASH <= p && Name(p) in w.meta && p in w.tree
                  && w.meta[Name(p)] !in w.tree && !Blocked(w.tree, w.meta[Name(p)])
                  && c.mkdir && c.rename)
  {
    if TRASH <= p && Name(p) in w.meta && c.mkdir {
      var dest := w.meta[Name(p)];
      WayMade(w.tree, dest, c);
      FoundUnblocked(w.tree, dest);
      assert p <= dest ==> TRASH <= dest;
    }
  }

  lemma FoundUnblocked(t: Tree, p: Path)
    requires Closed(t)
    ensures p in t ==> !Blocked(t, p)
  {
    if p in t {
      forall k | 0 <= k < |p| ensures !IsFile(t, p[..k]) {
        AncestorsAreDirs(t, p[..k], p);
      }
    }
  }

  // Whatever comes of a restore, everything outside the trash stays as it is. What is new there is the
  // restored subtree, at the recorded path, and directories above it.
  lemma RestoreKeepsLive(w: WS, p: Path, c: Ctx)
    requires Closed(w.tree) && PointsOutside(w, p)
    ensures var (w', r) := RestorePath(w, p, c);
            && (forall q :: q in w.tree && !(TRASH <= q) ==> q in w'.tree && w'.tree[q] == w.tree[q])
            && (r != Ok ==> w'.meta == w.meta && w'.rows == w.rows && forall q :: q in w'.tree && q !in w.tree ==>
                  TRASH <= p && Name(p) in w.meta && q < w.meta[Name(p)] && w'.tree[q].DirNode?)
            && (r == Ok ==> forall q :: q in w'.tree && q !in w.tree ==>
                  var dest := w.meta[Name(p)];
                  if dest <= q then p + q[|dest|..] in w.tree && w'.tree[q] == w.tree[p + q[|dest|..]]
                  else q < dest && w'.tree[q].DirNode?)
  {
    if TRASH <= p && Name(p) in w.meta && c.mkdir {
      var dest := w.meta[Name(p)];
      WayMade(w.tree, dest, c);
      if TryMkdir(w.tree, Parent(dest), c).Some? {
        MovedOutOfTrash(w.tree, TryMkdir(w.tree, Parent(dest), c).value, p, dest);
      }
    }
  }

  lemma MovedOutOfTrash(t: Tree, t1: Tree, p: Path, dest: Below)
    requires Closed(t1) && TRASH <= p && !(TRASH <= dest)
    requires forall q :: q in t ==> q in t1 && t1[q] == t[q]
    requires forall q :: q in t1 && q !in t ==> q < dest && t1[q].DirNode?
    ensures dest !in t1 && Rename(t1, p, dest).Some? ==>
              var r := Rename(t1, p, dest).value;
              && (forall q :: q in t && !(TRASH <= q) ==> q in r && r[q] == t[q])
              && (forall q :: q in r && q !in t ==>
                    if dest <= q then p + q[|dest|..] in t && r[q] == t[p + q[|dest|..]]
                    else q < dest && r[q].DirNode?)
  {
    if dest !in t1 && Rename(t1, p, dest).Some? {
      NothingAt(t1, dest);
      var r := MoveSubtree(t1, p, dest);
      assert p != dest && Rename(t1, p, dest) == Some(r);
      forall q | q in t && !(TRASH <= q) ensures q in r && r[q] == t[q] {
        assert q in t1 && !(dest <= q) && !(p <= q);
      }
      forall q | q in r && q !in t && dest <= q ensures p + q[|dest|..] in t {
        NotAbove(p, q[|dest|..], dest);
      }
    }
  }

  // Nothing below a trash path lies above a path outside the trash.
  lemma NotAbove(p: Path, s: Path, dest: Path)
    requires TRASH <= p && !(TRASH <= dest)
    ensures !(p + s < dest)
  {
    assert TRASH <= p + s;
  }

  // ---- Soft delete ----

  // Whatever comes of a soft delete, what is not at or below its path stays. If it succeeds nothing is
  // left there; if it fails everything is, unless a move whose record could not be written was not
  // taken back.
  lemma SoftDeleteKeepsLive(w: WS, p: Path, c: Ctx)
    requires Closed(w.tree) && p != META
    ensures var (w', r) := SoftDelete(w, p, c);
            && (forall q :: !(TRASH <= q) && !(p <= q) ==> SameNode(w.tree, w'.tree, q))
            && (r == Ok ==> forall q :: !(TRASH <= q) && p <= q ==> q !in w'.tree)
            && (r != Ok && (c.metaWrite || c.undo || !ReachesRecord(w, p, c)) ==>
                  forall q :: !(TRASH <= q) ==> SameNode(w.tree, w'.tree, q))
  {
    hide EntryName, SoftDelete;
    SoftDeleteMeaning(w, p, c);
    TrashDirMade(w.tree, c.alloc);
    if ReachesRecord(w, p, c) {
      ReachedRecord(w, p, c);
      var t := WithTrash(w.tree, c.alloc);
      OutsideTrash(p, EntryName(p));
      assert TRASH <= Entry(p);
    } else {
      UnreachedRecord(w, p, c);
    }
  }

  // The refusals of a soft delete: the root and the trash are not deleted, and an entry is not replaced.
  lemma SoftDeleteRefused(w: WS, p: Path, c: Ctx)
    requires Closed(w.tree) && p != META
    ensures var (w', r) := SoftDelete(w, p, c);
            && (r == ErrInvalidRequest <==> p == [] || TRASH <= p)
            && (r == ErrAlreadyExists <==>
                  p != [] && !(TRASH <= p) && c.mkdir && !IsFile(w.tree, TRASH) && Entry(p) in w.tree)
            && (r == ErrInvalidRequest ==> w' == w)
            && (r == ErrAlreadyExists ==> w' == w)
  {
    hide EntryName;
    TrashDirMade(w.tree, c.alloc);
    if Entry(p) in w.tree {
      AncestorsAreDirs(w.tree, TRASH, Entry(p));
    }
  }

  // ---- Permanent deletion ----

  // A permanent delete succeeds exactly when the path exists and its removal works. Then exactly what
  // was at or below the path is gone; otherwise the tree is as before. The row of the path's own inode
  // goes with the mark, also when the removal then fails, and no other.
  lemma PermanentDelete(w: WS, p: Below, soft: bool, permanent: bool, c: Ctx)
    requires Closed(w.tree) && !(soft && !permanent)
    ensures var (w', r) := DeletePath(w, p, soft, permanent, c);
            && (r == Ok <==> p in w.tree && c.remove(p))
            && (r == ErrNotFound <==> p !in w.tree && !Blocked(w.tree, p))
            && (r == Ok ==> forall q :: q in w'.tree <==> q in w.tree && !(p <= q))
            && (r == Ok ==> forall q :: q in w'.tree ==> w'.tree[q] == w.tree[q])
            && (r == Ok ==> w'.meta == if p == TRASH then map[] else w.meta)
            && (r != Ok ==> w'.tree == w.tree && w'.meta == w.meta)
            && (p in w.tree && c.hasStore && c.markDeleted(w.tree[p].inode) ==>
                  w'.rows.Keys == w.rows.Keys - {w.tree[p].inode})
            && (!(p in w.tree && c.hasStore && c.markDeleted(w.tree[p].inode)) ==> w'.rows.Keys == w.rows.Keys)
            && (forall i :: i in w'.rows ==> w'.rows[i] == w.rows[i])
  {
  }

  // A soft delete of what is not there is refused in the same way, and of what is there it is one.
  lemma SoftDeleteOfNothing(w: WS, p: Below, c: Ctx)
    requires p != META
    ensures p !in w.tree ==> DeletePath(w, p, true, false, c) == (w, if Blocked(w.tree, p) then ErrIO else ErrNotFound)
    ensures p in w.tree ==> DeletePath(w, p, true, false, c) == SoftDelete(w, p, c)
  {
  }

  // ---- Emptying the recycle bin ----

  // The entries lie in the tree, each once.
  ghost predicate Listed(t: Tree, entries: seq<string>) {
    && (forall e :: e in entries ==> EntryPath(e) in t)
    && (forall a, b :: 0 <= a < b < |entries| ==> entries[a] != entries[b])
  }

  // The inode of one of the entries.
  ghost predicate EntryInode(t: Tree, entries: seq<string>, i: nat) {
    exists e :: e in entries && EntryPath(e) in t && t[EntryPath(e)].inode == i
  }

  // What the sweep makes of its first entry.
  function FirstSwept(w: WS, e: string, c: Ctx): (WS, Reply) {
    var (w1, r) := DeletePath(w, EntryPath(e), false, true, c);
    if r != Ok then (w1, r) else (w1.(meta := if c.metaRemove(e) then w1.meta - {e} else w1.meta), Ok)
  }

  lemma FirstEntry(w: WS, e: string, c: Ctx)
    requires Closed(w.tree) && EntryPath(e) in w.tree
    ensures var (w', r) := FirstSwept(w, e, c);
            && (r == Ok <==> c.remove(EntryPath(e)))
            && w'.tree == (if r == Ok then RemoveAll(w.tree, EntryPath(e)) else w.tree) && Closed(w'.tree)
            && w'.rows == RowDropped(w.rows, w.tree[EntryPath(e)].inode, c)
  {
    PermanentDelete(w, EntryPath(e), false, true, c);
    RemoveAllKeepsClosed(w.tree, EntryPath(e));
  }

  lemma RestListed(t: Tree, entries: seq<string>)
    requires Listed(t, entries) && entries != []
    ensures var t1, rest := RemoveAll(t, EntryPath(entries[0])), entries[1..];
            && Listed(t1, rest)
            && (forall i :: EntryInode(t, entries, i) <==>
                  t[EntryPath(entries[0])].inode == i || EntryInode(t1, rest, i))
  {
    var e, rest := entries[0], entries[1..];
    var t1 := RemoveAll(t, EntryPath(e));
    assert entries == [e] + rest;
    forall f | f in rest ensures EntryPath(f) in t1 && t1[EntryPath(f)] == t[EntryPath(f)] {
      assert f in entries;
      var k :| 0 <= k < |rest| && rest[k] == f;
      assert entries[k + 1] == f;
      EntriesUnrelated(e, f);
    }
    forall a, b | 0 <= a < b < |rest| ensures rest[a] != rest[b] {
      assert entries[a + 1] == rest[a] && entries[b + 1] == rest[b];
    }
    assert e in entries;
  }

  lemma {:induction false} SweepSucceeds(w: WS, entries: seq<string>, c: Ctx)
    requires Closed(w.tree) && Listed(w.tree, entries)
    ensures EmptySweep(w, entries, c).1 == Ok <==> forall e :: e in entries ==> c.remove(EntryPath(e))
    ensures forall q :: !(TRASH < q) ==> SameNode(w.tree, EmptySweep(w, entries, c).0.tree, q)
    decreases |entries|
  {
    if entries != [] {
      hide DeletePath, Closed, Listed;
      var e := entries[0];
      assert entries == [e] + entries[1..];
      FirstOfList(w.tree, entries);
      FirstEntry(w, e, c);
      RestListed(w.tree, entries);
      var w1 := FirstSwept(w, e, c).0;
      forall q | !(TRASH < q) ensures SameNode(w.tree, w1.tree, q) {
        assert TRASH < EntryPath(e);
      }
      if FirstSwept(w, e, c).1 == Ok {
        SweepSucceeds(w1, entries[1..], c);
        forall q | !(TRASH < q) ensures SameNode(w.tree, EmptySweep(w, entries, c).0.tree, q) {
          assert SameNode(w.tree, w1.tree, q) && SameNode(w1.tree, EmptySweep(w1, entries[1..], c).0.tree, q);
          assert EmptySweep(w, entries, c) == EmptySweep(w1, entries[1..], c);
        }
      }
    }
  }

  lemma FirstOfList(t: Tree, entries: seq<string>)
    requires Listed(t, entries) && entries != []
    ensures EntryPath(entries[0]) in t
  {
    assert entries[0] in entries;
  }

  // Rows only go, each with the mark of an entry's inode, and all of these if the sweep succeeds.
  lemma {:induction false} SweepRows(w: WS, entries: seq<string>, c: Ctx)
    requires Closed(w.tree) && Listed(w.tree, entries)
    ensures var (w', r) := EmptySweep(w, entries, c);
            && (forall i :: i in w'.rows ==> i in w.rows && w'.rows[i] == w.rows[i])
            && (forall i :: i in w.rows && i !in w'.rows ==>
                  c.hasStore && c.markDeleted(i) && EntryInode(w.tree, entries, i))
            && (r == Ok ==> forall i :: c.hasStore && c.markDeleted(i) && EntryInode(w.tree, entries, i) ==>
                  i !in w'.rows)
    decreases |entries|
  {
    if entries != [] {
      hide DeletePath, Closed, Listed, EntryInode;
      var e := entries[0];
      FirstOfList(w.tree, entries);
      FirstEntry(w, e, c);
      RestListed(w.tree, entries);
      if FirstSwept(w, e, c).1 == Ok {
        SweepRows(FirstSwept(w, e, c).0, entries[1..], c);
      }
    } else {
      NoEntryInode(w.tree, entries);
    }
  }

  lemma NoEntryInode(t: Tree, entries: seq<string>)
    requires entries == []
    ensures forall i :: !EntryInode(t, entries, i)
  {
  }

  // Emptying succeeds exactly when there is no trash, or it is a directory all of whose entries can be
  // removed. Nothing outside the trash changes. Every entry's own row goes with its mark, and no other.
  // The records go with their directory at the end, if it can be removed, those that stayed included.
  lemma EmptyEffect(w: WS, entries: seq<string>, c: Ctx)
    requires Closed(w.tree) && ListsTrash(w.tree, entries)
    ensures var (w', r) := EmptyRecycleBin(w, entries, c);
            && (r == Ok <==>
                  TRASH !in w.tree || (IsDir(w.tree, TRASH) && forall e :: e in entries ==> c.remove(EntryPath(e))))
            && Live(w'.tree) == Live(w.tree)
            && (r == Ok && IsDir(w.tree, TRASH) && c.metaDirRemove ==> w'.meta == map[])
            && (forall i :: i in w'.rows ==> i in w.rows && w'.rows[i] == w.rows[i])
            && (forall i :: i in w.rows && i !in w'.rows ==>
                  c.hasStore && c.markDeleted(i) && EntryInode(w.tree, entries, i))
            && (r == Ok ==> forall i :: c.hasStore && c.markDeleted(i) && EntryInode(w.tree, entries, i) ==>
                  i !in w'.rows)
  {
    hide EmptySweep, Closed;
    SweepSucceeds(w, entries, c);
    SweepRows(w, entries, c);
    var w' := EmptyRecycleBin(w, entries, c).0;
    forall q | !(TRASH <= q) ensures SameNode(w.tree, w'.tree, q) {
    }
    SameLive(w.tree, w'.tree);
    if TRASH !in w.tree {
      TrashReachable(w.tree);
      NoTrashNoEntries(w.tree, entries);
    }
  }

  lemma NoTrashNoEntries(t: Tree, entries: seq<string>)
    requires Closed(t) && TRASH !in t && ListsTrash(t, entries)
    ensures entries == []
  {
    if entries != [] {
      assert entries[0] in entries;
      AncestorsAreDirs(t, TRASH, EntryPath(entries[0]));
    }
  }

  lemma SameLive(t: Tree, t': Tree)
    requires forall q :: !(TRASH <= q) ==> SameNode(t, t', q)
    ensures Live(t') == Live(t)
  {
    forall q ensures q in Live(t') <==> q in Live(t) {
      assert TRASH <= q || SameNode(t, t', q);
    }
    forall q | q in Live(t) ensures Live(t')[q] == Live(t)[q] {
      assert SameNode(t, t', q);
    }
  }

  // The trash directory lies directly below the root.
  lemma TrashReachable(t: Tree)
    requires Closed(t)
    ensures !Blocked(t, TRASH)
  {
    forall k | 0 <= k < |TRASH| ensures !IsFile(t, TRASH[..k]) {
      assert TRASH[..k] == [];
    }
  }
}
