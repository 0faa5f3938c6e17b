// A move relocates exactly a subtree and keeps the index of what it carries.
module MoveTree {
  import opened FileDomain
  import opened PosixTree
  import opened Workspace

  // A file stands in the way of the path.
  predicate Blocked(t: Tree, p: Path) {
    exists k :: 0 <= k < |p| && IsFile(t, p[..k])
  }

  // The move gets as far as marking the old row deleted.
  predicate ReachesRename(t: Tree, src: Path, dest: Path, overwrite: bool, c: Ctx) {
    && src in t && src != dest
    && if dest in t then t[src].DirNode? == t[dest].DirNode? && overwrite
       else c.mkdir && !Blocked(t, dest)
  }

  // The tree after the ancestors of dest were made.
  function Prepared(t: Tree, dest: Path, c: Ctx): Tree {
    if dest in t || dest == [] then t else TryMkdir(t, Parent(dest), c).GetOr(t)
  }

  lemma PreparedTree(t: Tree, dest: Path, c: Ctx)
    requires Closed(t) && dest !in t && c.mkdir
    ensures dest != []
    ensures Blocked(t, dest) <==> TryMkdir(t, Parent(dest), c).None?
    ensures var t1 := Prepared(t, dest, c);
            && Closed(t1) && dest !in t1
            && (!Blocked(t, dest) ==> IsDir(t1, Parent(dest)))
            && (forall q :: q in t ==> q in t1 && t1[q] == t[q])
            && (forall q :: q in t1 && q !in t ==> q < dest && t1[q] == DirNode(c.alloc(q)))
            && (!Blocked(t, dest) ==> forall q :: q < dest ==> q in t1)
  {
    var up := Parent(dest);
    MkdirAllCreates(t, up, c.alloc);
    forall k | 0 <= k < |dest| ensures dest[..k] == up[..k] {
    }
    if TryMkdir(t, up, c).Some? {
      MkdirAllKeepsClosed(t, up, c.alloc);
      forall q: Path | q in Prepared(t, dest, c) && q !in t ensures q < dest {
        assert q <= up;
      }
      forall q: Path | q < dest ensures q in Prepared(t, dest, c) {
        assert q <= up;
      }
    }
  }

  lemma MoveReduces(w: WS, src: Path, dest: Path, overwrite: bool, c: Ctx)
    requires Closed(w.tree)
    ensures ReachesRename(w.tree, src, dest, overwrite, c) ==>
              RenameOrMove(w, src, dest, overwrite, c)
              == Relocate(w.(tree := Prepared(w.tree, dest, c)), src, w.tree[src], dest, c)
    ensures !ReachesRename(w.tree, src, dest, overwrite, c) ==>
              RenameOrMove(w, src, dest, overwrite, c).0 == w
              && (RenameOrMove(w, src, dest, overwrite, c).1 == Ok <==> src in w.tree && src == dest)
  {
    if dest !in w.tree && c.mkdir {
      PreparedTree(w.tree, dest, c);
    }
  }

  // A move whose calls work succeeds exactly when the source exists, and the destination is the
  // source, or a file to be overwritten by a file, or free, reachable and not below the source.
  lemma MoveSucceeds(w: WS, src: Path, dest: Path, overwrite: bool, c: Ctx)
    requires Closed(w.tree) && c.mkdir && c.rename
    ensures RenameOrMove(w, src, dest, overwrite, c).1 == Ok <==>
              && src in w.tree
              && (|| src == dest
                  || (IsFile(w.tree, src) && IsFile(w.tree, dest) && overwrite)
                  || (dest !in w.tree && !Blocked(w.tree, dest) && !(src <= dest)))
  {
    MoveReduces(w, src, dest, overwrite, c);
    if ReachesRename(w.tree, src, dest, overwrite, c) {
      if dest in w.tree {
        if IsFile(w.tree, dest) {
          FileIsBelow(w.tree, dest);
        }
      } else {
        PreparedTree(w.tree, dest, c);
        if src <= dest {
          assert dest[..|src|] == src;
          assert IsDir(w.tree, src);
        }
      }
    }
  }

  lemma FileIsBelow(t: Tree, p: Path)
    requires Closed(t) && IsFile(t, p)
    ensures p != [] && IsDir(t, Parent(p))
  {
  }

  // ---- What a successful move does ----

  // Everything at or below src is now at or below dest, with the same inodes and contents.
  ghost predicate Carried(t: Tree, t': Tree, src: Path, dest: Path) {
    && (forall s :: src + s in t <==> dest + s in t')
    && (forall s :: src + s in t && dest + s in t' ==> t'[dest + s] == t[src + s])
  }

  // Away from src and dest nothing changed but that missing ancestors of dest were made.
  ghost predicate Otherwise(t: Tree, t': Tree, src: Path, dest: Path, c: Ctx) {
    && (forall q :: q in t && !(src <= q) && !(dest <= q) ==> q in t' && t'[q] == t[q])
    && (forall q :: q in t' && !(dest <= q) ==>
          !(src <= q) && if q in t then t'[q] == t[q] else q < dest && t'[q] == DirNode(c.alloc(q)))
  }

  lemma MovedCarries(t: Tree, src: Path, dest: Path)
    ensures Carried(t, MoveSubtree(t, src, dest), src, dest)
  {
    forall s: Path ensures (dest + s)[|dest|..] == s {
    }
  }

  lemma NotAncestor(src: Path, dest: Path, s: Path)
    requires !(src <= dest)
    ensures !(src + s < dest)
  {
    assert src <= src + s;
  }

  lemma MovedTree(t: Tree, t1: Tree, src: Path, dest: Path, c: Ctx)
    requires Closed(t) && Closed(t1) && src in t && Rename(t1, src, dest).Some? && src != dest
    requires forall q :: q in t ==> q in t1 && t1[q] == t[q]
    requires forall q :: q in t1 && q !in t ==> q < dest && t1[q] == DirNode(c.alloc(q))
    ensures var t' := Rename(t1, src, dest).value;
            Carried(t, t', src, dest) && Otherwise(t, t', src, dest, c) && Closed(t')
  {
    RenameUnrelated(t1, src, dest);
    MoveKeepsClosed(t1, src, dest);
    MovedCarries(t1, src, dest);
    forall s ensures src + s in t1 <==> src + s in t {
      NotAncestor(src, dest, s);
    }
    AsBefore(t, t1, src, dest, c);
  }

  lemma AsBefore(t: Tree, t1: Tree, src: Path, dest: Path, c: Ctx)
    requires forall q :: q in t ==> q in t1 && t1[q] == t[q]
    requires forall q :: q in t1 && q !in t ==> q < dest && t1[q] == DirNode(c.alloc(q))
    ensures Otherwise(t, MoveSubtree(t1, src, dest), src, dest, c)
  {
  }

  ghost predicate MoveApplies(w: WS, src: Path, dest: Path, overwrite: bool, c: Ctx) {
    RenameOrMove(w, src, dest, overwrite, c).1 == Ok && src != dest
  }

  // A successful move takes a subtree to its destination, and changes nothing else.
  lemma MoveRelocates(w: WS, src: Path, dest: Path, overwrite: bool, c: Ctx)
    requires Closed(w.tree) && MoveApplies(w, src, dest, overwrite, c)
    ensures var t' := RenameOrMove(w, src, dest, overwrite, c).0.tree;
            src in w.tree && Closed(t') && Carried(w.tree, t', src, dest) && Otherwise(w.tree, t', src, dest, c)
  {
    hide Closed, Carried, Otherwise;
    MoveReduces(w, src, dest, overwrite, c);
    if dest !in w.tree {
      PreparedTree(w.tree, dest, c);
    }
    MovedTree(w.tree, Prepared(w.tree, dest, c), src, dest, c);
  }

  // The index afterwards: the moved node itself is the mover's, with the type its directory bit
  // gives, although its row was marked deleted on the way; every other row is as it was.
  lemma MoveRecordsMover(w: WS, src: Path, dest: Path, overwrite: bool, c: Ctx)
    requires Closed(w.tree) && MoveApplies(w, src, dest, overwrite, c) && c.hasStore && c.upsert
    ensures var w', node := RenameOrMove(w, src, dest, overwrite, c).0, w.tree[src];
            w'.rows == w.rows[node.inode := NodeRecord(node.inode, c.actor, NodeTypeFromDir(node.DirNode?))]
  {
    hide Closed, Rename, TryMkdir;
    MoveReduces(w, src, dest, overwrite, c);
    MoveRelocates(w, src, dest, overwrite, c);
    assert src + [] == src && dest + [] == dest;
    var node := w.tree[src];
    assert RenameOrMove(w, src, dest, overwrite, c).0.tree[dest] == node;
  }

  // So every descendant is found by its inode at its new place, with the row it had.
  lemma MoveKeepsRows(w: WS, src: Path, dest: Path, s: Path, overwrite: bool, c: Ctx)
    requires Closed(w.tree) && DistinctInodes(w.tree) && MoveApplies(w, src, dest, overwrite, c)
    requires c.hasStore && c.upsert && s != [] && src + s in w.tree
    ensures var w', i := RenameOrMove(w, src, dest, overwrite, c).0, w.tree[src + s].inode;
            && dest + s in w'.tree && w'.tree[dest + s].inode == i
            && (i in w'.rows <==> i in w.rows) && (i in w.rows ==> w'.rows[i] == w.rows[i])
  {
    hide Closed, RenameOrMove;
    MoveRecordsMover(w, src, dest, overwrite, c);
    MoveRelocates(w, src, dest, overwrite, c);
    assert src + s != src;
  }

  // When every inode is in use once and new ones are fresh, that stays so.
  lemma MoveKeepsInodesDistinct(w: WS, src: Path, dest: Path, overwrite: bool, c: Ctx)
    requires Closed(w.tree) && DistinctInodes(w.tree) && FreshInodes(w.tree, c.alloc)
    requires MoveApplies(w, src, dest, overwrite, c)
    ensures DistinctInodes(RenameOrMove(w, src, dest, overwrite, c).0.tree)
  {
    MoveReduces(w, src, dest, overwrite, c);
    var t1 := Prepared(w.tree, dest, c);
    if dest !in w.tree {
      PreparedTree(w.tree, dest, c);
      MkdirAllKeepsClosed(w.tree, Parent(dest), c.alloc);
    }
    RenameUnrelated(t1, src, dest);
    MoveKeepsClosed(t1, src, dest);
  }

  // A move that fails in the rename has already given up the row: what lies at src stays there and
  // has no row any more exactly when the move reaches the rename and the rename fails, which it
  // does for a destination that is a directory or lies below the source, or when the call does not work.
  lemma FailedMoveLosesRow(w: WS, src: Path, dest: Path, overwrite: bool, c: Ctx)
    requires Closed(w.tree) && src in w.tree && w.tree[src].inode in w.rows
    requires c.hasStore && c.markDeleted(w.tree[src].inode)
    ensures var w' := RenameOrMove(w, src, dest, overwrite, c).0;
            (src in w'.tree && w'.tree[src] == w.tree[src] && w.tree[src].inode !in w'.rows) <==>
            (ReachesRename(w.tree, src, dest, overwrite, c) && (!c.rename || IsDir(w.tree, dest) || src <= dest))
  {
    MoveReduces(w, src, dest, overwrite, c);
    if ReachesRename(w.tree, src, dest, overwrite, c) {
      var t1 := Prepared(w.tree, dest, c);
      if dest in w.tree {
        if IsFile(w.tree, dest) {
          FileIsBelow(w.tree, dest);
          NotAboveFile(w.tree, src, dest);
        }
      } else {
        PreparedTree(w.tree, dest, c);
        if src <= dest {
          assert dest[..|src|] == src;
          assert IsDir(w.tree, src);
        }
      }
      if c.rename && Rename(t1, src, dest).Some? {
        RenameUnrelated(t1, src, dest);
      }
    }
  }

  lemma NotAboveFile(t: Tree, src: Path, dest: Path)
    requires Closed(t) && IsFile(t, src) && IsFile(t, dest) && src != dest
    ensures !(src <= dest)
  {
    if src < dest {
      AncestorsAreDirs(t, src, dest);
    }
  }
}
