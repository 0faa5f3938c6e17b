// What the workspace creates, and what the index says of the nodes that operations bring somewhere.
module WorkspaceRecords {
  import opened FileDomain
  import opened PosixTree
  import opened Workspace
  import opened RecycleIndex
  import opened MoveTree
  import opened WorkspaceEffects
  import CopyTree

  // The row of the node names the actor, and the type says what the node is.
  ghost predicate OwnedAs(rows: Rows, node: Node, actor: NodeActor) {
    && node.inode in rows && rows[node.inode].inodeID == node.inode && rows[node.inode].actor == actor
    && (node.DirNode? ==> rows[node.inode].nodeType == Directory)
    && (node.FileNode? ==> rows[node.inode].nodeType == File)
  }

  // The node got its row from the actor, and no other row changed.
  ghost predicate OwnedNow(rows: Rows, rows': Rows, node: Node, actor: NodeActor) {
    OwnedAs(rows', node, actor) && forall i :: i != node.inode ==> SameRow(rows, rows', i)
  }

  lemma RecordedOwned(rows: Rows, t: Tree, p: Path, c: Ctx)
    requires p in t && c.hasStore && c.upsert
    ensures OwnedNow(rows, Recorded(rows, t, p, c), t[p], c.actor)
  {
  }

  // ---- Soft delete, restore, move and copy ----

  lemma SoftDeleteOwns(w: WS, p: Path, c: Ctx)
    requires Closed(w.tree) && p != META && SoftDelete(w, p, c).1 == Ok && c.hasStore && c.upsert
    ensures p in w.tree && OwnedNow(w.rows, SoftDelete(w, p, c).0.rows, w.tree[p], c.actor)
  {
    hide SoftDelete;
    SoftDeleteRow(w, p, c);
  }

  lemma RestoreOwns(w: WS, p: Path, c: Ctx)
    requires Closed(w.tree) && PointsOutside(w, p) && RestorePath(w, p, c).1 == Ok && c.hasStore && c.upsert
    ensures var w', dest := RestorePath(w, p, c).0, w.meta[Name(p)];
            && p in w.tree && dest in w'.tree && w'.tree[dest] == w.tree[p]
            && OwnedNow(w.rows, w'.rows, w.tree[p], c.actor)
  {
    RestoreSucceeds(w, p, c);
    var dest := w.meta[Name(p)];
    WayMade(w.tree, dest, c);
    assert p + dest[|dest|..] == p;
    RecordedOwned(w.rows, RestorePath(w, p, c).0.tree, dest, c);
  }

  lemma MoveOwns(w: WS, src: Path, dest: Path, overwrite: bool, c: Ctx)
    requires Closed(w.tree) && MoveApplies(w, src, dest, overwrite, c) && c.hasStore && c.upsert
    ensures src in w.tree && OwnedNow(w.rows, RenameOrMove(w, src, dest, overwrite, c).0.rows, w.tree[src], c.actor)
  {
    hide RenameOrMove;
    MoveRelocates(w, src, dest, overwrite, c);
    MoveRecordsMover(w, src, dest, overwrite, c);
  }

  // Of a copy the index knows the top node only.
  lemma CopyOwns(w: WS, src: Path, dest: Path, overwrite: bool, walk: seq<CopyTree.Rel>, c: Ctx)
    requires CopyPath(w, src, dest, overwrite, walk, c).1 == Ok
    requires dest in CopyPath(w, src, dest, overwrite, walk, c).0.tree && c.hasStore && c.upsert
    ensures var w' := CopyPath(w, src, dest, overwrite, walk, c).0;
            OwnedNow(w.rows, w'.rows, w'.tree[dest], c.actor)
  {
    var w' := CopyPath(w, src, dest, overwrite, walk, c).0;
    RecordedOwned(w.rows, w'.tree, dest, c);
  }

  // ---- Refusals ----

  // What a move replies when it is refused before anything is done.
  lemma MoveRefused(w: WS, src: Path, dest: Path, overwrite: bool, c: Ctx)
    requires Closed(w.tree)
    ensures var (w', r) := RenameOrMove(w, src, dest, overwrite, c);
            && (r == ErrNotFound <==> src !in w.tree && !Blocked(w.tree, src))
            && (r == ErrInvalidRequest <==>
                  src in w.tree && src != dest && dest in w.tree && IsDir(w.tree, src) != IsDir(w.tree, dest))
            && (r == ErrAlreadyExists <==>
                  src in w.tree && src != dest && dest in w.tree && IsDir(w.tree, src) == IsDir(w.tree, dest)
                  && !overwrite)
            && (r == ErrNotFound || r == ErrInvalidRequest || r == ErrAlreadyExists ==> w' == w)
  {
  }

  // And a copy; there the source may be the destination.
  lemma CopyRefused(w: WS, src: Path, dest: Path, overwrite: bool, walk: seq<CopyTree.Rel>, c: Ctx)
    requires Closed(w.tree)
    ensures var (w', r) := CopyPath(w, src, dest, overwrite, walk, c);
            && (r == ErrNotFound <==> src !in w.tree && !Blocked(w.tree, src))
            && (r == ErrInvalidRequest <==>
                  src in w.tree && dest in w.tree && IsDir(w.tree, src) != IsDir(w.tree, dest))
            && (r == ErrAlreadyExists <==>
                  src in w.tree && dest in w.tree && IsDir(w.tree, src) == IsDir(w.tree, dest) && !overwrite)
            && (r == ErrNotFound || r == ErrInvalidRequest || r == ErrAlreadyExists ==> w' == w)
  {
  }

  // ---- Creation ----

  // A file is created or written exactly when there is a way to it, no directory is in its place, an
  // existing file may be overwritten, and the calls work. It is then a new file with the content, and
  // nothing else changed but that missing directories were made above it. Otherwise every node that was
  // there is as before.
  lemma CreateFileEffect(w: WS, p: Below, content: string, overwrite: bool, c: Ctx)
    requires Closed(w.tree)
    ensures var (w', r) := CreateFile(w, p, content, overwrite, c);
            && (r == Ok <==> c.mkdir && c.rename && !Blocked(w.tree, p) && !IsDir(w.tree, p)
                             && (p in w.tree ==> overwrite))
            && (r == ErrNotAFile <==> c.mkdir && IsDir(w.tree, p))
            && (r == ErrAlreadyExists <==> c.mkdir && IsFile(w.tree, p) && !overwrite)
            && (r == Ok ==> p in w'.tree && w'.tree[p] == FileNode(c.alloc(p), content))
            && (forall q :: q in w.tree && (q != p || r != Ok) ==> q in w'.tree && w'.tree[q] == w.tree[q])
            && (forall q :: q in w'.tree && q !in w.tree && (q != p || r != Ok) ==> q < p && w'.tree[q].DirNode?)
            && w'.meta == w.meta && w'.rows == w.rows
  {
    FoundUnblocked(w.tree, p);
    if c.mkdir {
      WayMade(w.tree, p, c);
    }
  }

  // A folder is created exactly when no file is at or above its path; missing directories are made down
  // to it, and nothing else changes.
  lemma CreateFolderEffect(w: WS, p: Path, c: Ctx)
    requires Closed(w.tree)
    ensures var (w', r) := CreateFolder(w, p, c);
            && (r == Ok <==> c.mkdir && !CopyTree.FileInTheWay(w.tree, p))
            && (r == Ok ==> IsDir(w'.tree, p) && forall q :: q in w'.tree <==> q in w.tree || q <= p)
            && (r != Ok ==> w'.tree == w.tree)
            && (forall q :: q in w.tree ==> q in w'.tree && w'.tree[q] == w.tree[q])
            && (forall q :: q in w'.tree && q !in w.tree ==> w'.tree[q] == DirNode(c.alloc(q)))
            && w'.meta == w.meta && w'.rows == w.rows
  {
    MkdirAllCreates(w.tree, p, c.alloc);
    if MkdirAll(w.tree, p, c.alloc).Some? {
      MkdirAllKeepsClosed(w.tree, p, c.alloc);
    }
    CopyTree.FileInTheWayMeaning(w.tree, p, c.alloc);
  }
}
