// The whole copy request: its checks, the recursive copy, and what the index gets to know of it.
module CopyRequests {
  import opened FileDomain
  import opened PosixTree
  import opened Workspace
  import opened MoveTree
  import CopyTree

  // The requests on a directory that end in a copy.
  ghost predicate MayCopyDir(t: Tree, src: Path, dest: Path, overwrite: bool) {
    && IsDir(t, src)
    && if dest in t then t[dest].DirNode? && overwrite && CopyTree.KindsMatch(t, src, dest) else !Blocked(t, dest)
  }

  // Making the ancestors first makes no difference to making the destination.
  lemma MadeInTwo(t: Tree, dest: Path, alloc: Path -> nat)
    requires Closed(t) && dest !in t && dest != [] && MkdirAll(t, Parent(dest), alloc).Some?
    ensures MkdirAll(MkdirAll(t, Parent(dest), alloc).value, dest, alloc) == MkdirAll(t, dest, alloc)
  {
    var t1 := MkdirAll(t, Parent(dest), alloc).value;
    MkdirAllCreates(t, Parent(dest), alloc);
    MkdirAllKeepsClosed(t, Parent(dest), alloc);
    assert MkdirAll(t1, Parent(dest), alloc) == Some(t1);
  }

  // Nothing at or below a free destination can mismatch.
  lemma NothingToMatch(t: Tree, src: Path, dest: Path)
    requires Closed(t) && dest !in t
    ensures CopyTree.KindsMatch(t, src, dest)
  {
    forall s ensures CopyTree.KindMatches(t, src, dest, s) {
      if s == [] {
        assert dest + s == dest;
      } else {
        assert dest < dest + s;
        if dest + s in t {
          AncestorsAreDirs(t, dest, dest + s);
        }
      }
    }
  }

  lemma InTheWay(t: Tree, dest: Path)
    requires Closed(t)
    ensures CopyTree.FileInTheWay(t, dest) <==> IsFile(t, dest) || Blocked(t, dest)
  {
    assert dest[..|dest|] == dest;
  }

  lemma FoundIsUnblocked(t: Tree, dest: Path)
    requires Closed(t) && dest in t
    ensures !Blocked(t, dest)
  {
    forall k | 0 <= k < |dest| ensures !IsFile(t, dest[..k]) {
      AncestorsAreDirs(t, dest[..k], dest);
    }
  }

  // A directory is copied to an unrelated place exactly when that place is free and reachable, or is a
  // directory to be overwritten whose kinds match. The place is then overlaid by the source, and the
  // index knows of the directory itself only, as the caller's.
  lemma CopyDirRequest(w: WS, src: Path, dest: Path, overwrite: bool, walk: seq<CopyTree.Rel>, c: Ctx)
    requires Closed(w.tree) && IsDir(w.tree, src) && Unrelated(src, dest) && c.mkdir
    requires CopyTree.Walks(w.tree, src, walk)
    ensures var (w', r) := CopyPath(w, src, dest, overwrite, walk, c);
            && (r == Ok <==> MayCopyDir(w.tree, src, dest, overwrite))
            && (r == Ok ==>
                  && MkdirAll(w.tree, dest, c.alloc).Some?
                  && w' == w.(tree := CopyTree.Overlay(MkdirAll(w.tree, dest, c.alloc).value, src, dest, c.alloc),
                              rows := Recorded(w.rows, w'.tree, dest, c)))
            && (forall s :: CopyTree.Same(w.tree, w'.tree, src + s))
  {
    hide Closed, Recorded, CopyTree.CopyDir, CopyTree.Walks, CopyTree.KindsMatch, CopyTree.FileInTheWay,
      CopyTree.Overlay;
    InTheWay(w.tree, dest);
    CopyTree.CopyOverlays(w.tree, src, dest, walk, c.alloc);
    if dest in w.tree {
      FoundIsUnblocked(w.tree, dest);
    } else {
      NothingToMatch(w.tree, src, dest);
      PreparedTree(w.tree, dest, c);
      if !Blocked(w.tree, dest) {
        MadeInTwo(w.tree, dest, c.alloc);
        SameCopy(w.tree, src, dest, walk, c);
      }
    }
  }

  // So the copy itself goes the same way whether or not the ancestors are there.
  lemma SameCopy(t: Tree, src: Path, dest: Path, walk: seq<CopyTree.Rel>, c: Ctx)
    requires Closed(t) && src in t && dest !in t && dest != [] && MkdirAll(t, Parent(dest), c.alloc).Some?
    ensures CopyTree.CopyDir(MkdirAll(t, Parent(dest), c.alloc).value, src, dest, walk, c.alloc)
            == CopyTree.CopyDir(t, src, dest, walk, c.alloc)
  {
    hide CopyTree.CopyEntries;
    MadeInTwo(t, dest, c.alloc);
    MkdirAllCreates(t, Parent(dest), c.alloc);
    MkdirAllKeepsClosed(t, Parent(dest), c.alloc);
    MkdirAllCreates(MkdirAll(t, Parent(dest), c.alloc).value, dest, c.alloc);
  }

  // ---- Files ----

  // The requests on a file that end in a copy.
  predicate MayCopyFile(t: Tree, src: Path, dest: Path, overwrite: bool) {
    IsFile(t, src) && if dest in t then IsFile(t, dest) && overwrite else !Blocked(t, dest)
  }

  // A file is copied exactly when its place is free and reachable, or is a file to be overwritten. The
  // copy has the content of the source, and an overwritten file its own inode; but a file copied onto
  // itself loses its content.
  lemma CopyFileRequest(w: WS, src: Path, dest: Path, overwrite: bool, walk: seq<CopyTree.Rel>, c: Ctx)
    requires Closed(w.tree) && IsFile(w.tree, src) && c.mkdir
    ensures var (w', r) := CopyPath(w, src, dest, overwrite, walk, c);
            && (r == Ok <==> MayCopyFile(w.tree, src, dest, overwrite))
            && (r == Ok ==>
                  && dest != [] && IsFile(w'.tree, dest)
                  && w'.tree[dest].content == (if src == dest then "" else w.tree[src].content)
                  && w'.tree[dest].inode == (if dest in w.tree then w.tree[dest].inode else c.alloc(dest))
                  && (forall q :: q != dest ==>
                        (q in w'.tree <==> q in w.tree || (q < dest && dest !in w.tree)))
                  && (forall q :: q != dest && q in w.tree ==> w'.tree[q] == w.tree[q])
                  && w'.rows == Recorded(w.rows, w'.tree, dest, c))
  {
    hide Recorded, Closed, MkdirAll, CopyTree.CopyFile;
    if dest in w.tree {
      FoundIsUnblocked(w.tree, dest);
      if IsFile(w.tree, dest) {
        FileIsBelow(w.tree, dest);
        CopyOver(w.tree, src, dest, c.alloc);
      }
    } else {
      PreparedTree(w.tree, dest, c);
      if !Blocked(w.tree, dest) {
        CopyOver(Prepared(w.tree, dest, c), src, dest, c.alloc);
      }
    }
  }

  lemma CopyOver(t: Tree, src: Path, dest: Path, alloc: Path -> nat)
    requires dest != [] && IsDir(t, Parent(dest)) && IsFile(t, src) && !IsDir(t, dest)
    ensures var inode := if dest in t then t[dest].inode else alloc(dest);
            CopyTree.CopyFile(t, src, dest, alloc)
            == (t[dest := FileNode(inode, if src == dest then "" else t[src].content)], true)
  {
    assert MkdirAll(t, Parent(dest), alloc) == Some(t);
  }
}
