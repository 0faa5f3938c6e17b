// What soft deletes and the restores that undo them leave in the inode index.
module RecycleIndex {
  import opened FileDomain
  import opened PosixTree
  import opened TrashNames
  import opened Workspace
  import opened RecycleBin
  import opened RecycleRuns

  // The row a node gets from whoever moved it, its type taken from the directory bit.
  function RowOf(node: Node, actor: NodeActor): NodeRecord {
    NodeRecord(node.inode, actor, NodeTypeFromDir(node.DirNode?))
  }

  ghost predicate SameRow(rows: Rows, rows': Rows, i: nat) {
    (i in rows' <==> i in rows) && (i in rows ==> rows'[i] == rows[i])
  }

  // ---- One soft delete, one restore ----

  // A soft delete gives the node the deleter's row and leaves all others.
  lemma SoftDeleteRow(w: WS, p: Path, c: Ctx)
    requires Closed(w.tree) && p != META && SoftDelete(w, p, c).1 == Ok
    ensures p in w.tree
    ensures SoftDelete(w, p, c).0.rows
            == if c.hasStore && c.upsert then w.rows[w.tree[p].inode := RowOf(w.tree[p], c.actor)] else w.rows
  {
    hide EntryName;
    SoftDeleteMeaning(w, p, c);
    var t := WithTrash(w.tree, c.alloc);
    TrashDirMade(w.tree, c.alloc);
    assert p in t && p in w.tree && t[p] == w.tree[p];
    assert p + Entry(p)[|Entry(p)|..] == p;
  }

  // A restore gives it the restorer's.
  lemma RestoreRow(w: WS, p: Path, c: Ctx)
    requires Closed(w.tree) && CanRestore(DiskOf(w), p)
    requires c.mkdir && c.rename && c.metaRemove(EntryName(p)) && c.hasStore && c.upsert
    ensures var w' := RestorePath(w, Entry(p), c).0;
            p in w'.tree && w'.rows == w.rows[w'.tree[p].inode := RowOf(w'.tree[p], c.actor)]
  {
    hide EntryName;
    OutsideTrash(p, EntryName(p));
    RestoreMeaning(w, p, c);
    assert Entry(p) + p[|p|..] == Entry(p);
  }

  // ---- What stays where it was ----

  // Nothing lives at or below the path of a soft delete after it, and nothing new outside the trash.
  lemma LiveAfterOne(d: Disk, p: Below, q: Path)
    requires CanTrash(d, p) && q in Trashed(d, p).tree && !(TRASH <= q)
    ensures q in d.tree && Trashed(d, p).tree[q] == d.tree[q] && !(p <= q)
  {
    hide EntryName;
    assert TRASH <= Entry(p);
    assert !(Entry(p) <= q);
  }

  ghost predicate NoneAbove(ps: seq<Below>, q: Path) {
    forall k :: 0 <= k < |ps| ==> !(ps[k] <= q)
  }

  // Each path is in the tree and outside the trash, and none is there twice.
  ghost predicate DifferentIn(t: Tree, ps: seq<Below>) {
    && (forall k :: 0 <= k < |ps| ==> ps[k] in t && ps[k] != TRASH)
    && (forall a, b :: 0 <= a < b < |ps| ==> ps[a] != ps[b])
  }

  lemma AppendOne(t: Tree, init: seq<Below>, p: Below, q: Path)
    ensures NoneAbove(init, q) && !(p <= q) ==> NoneAbove(init + [p], q)
    ensures DifferentIn(t, init) && p in t && p != TRASH && NoneAbove(init, p) ==> DifferentIn(t, init + [p])
  {
  }

  lemma {:induction false} LiveFromBase(d: Disk, ps: seq<Below>, q: Path)
    requires CanTrashAll(d, ps) && q in TrashedAll(d, ps).tree && !(TRASH <= q)
    ensures q in d.tree && TrashedAll(d, ps).tree[q] == d.tree[q] && NoneAbove(ps, q)
    decreases |ps|
  {
    if ps == [] {
      NothingDeleted(d, ps);
    } else {
      hide CanTrash, Trashed, NoneAbove, CanTrashAll, TrashedAll;
      var init, p := ps[..|ps| - 1], ps[|ps| - 1];
      assert ps == init + [p];
      TrashOneMore(d, init, p);
      LiveAfterOne(TrashedAll(d, init), p, q);
      LiveFromBase(d, init, q);
      AppendOne(d.tree, init, p, q);
    }
  }

  lemma NothingDeleted(d: Disk, ps: seq<Below>)
    requires ps == []
    ensures TrashedAll(d, ps) == d
  {
  }

  lemma LastDeleted(d: Disk, init: seq<Below>, p: Below)
    requires CanTrashAll(d, init) && CanTrash(TrashedAll(d, init), p)
    ensures p in d.tree && p != TRASH && NoneAbove(init, p)
  {
    hide EntryName;
    LiveFromBase(d, init, p);
  }

  // Every deleted path was in the tree at the start, outside the trash, and none was deleted twice.
  lemma {:induction false} DeletedFromBase(d: Disk, ps: seq<Below>)
    requires CanTrashAll(d, ps)
    ensures DifferentIn(d.tree, ps)
    decreases |ps|
  {
    if ps != [] {
      hide CanTrash, Trashed, TrashedAll, CanTrashAll, DifferentIn, NoneAbove;
      var init, p := ps[..|ps| - 1], ps[|ps| - 1];
      assert ps == init + [p];
      TrashOneMore(d, init, p);
      DeletedFromBase(d, init);
      LastDeleted(d, init, p);
      AppendOne(d.tree, init, p, []);
    }
  }

  ghost predicate OtherInode(t: Tree, ps: seq<Below>, i: nat) {
    forall k :: 0 <= k < |ps| ==> ps[k] in t && t[ps[k]].inode != i
  }

  // Soft deletes leave the rows of all inodes but those of the deleted paths.
  lemma {:induction false} SoftDeletesKeepRows(w: WS, ds: seq<BinRequest>, i: nat)
    requires Closed(w.tree) && SoftDeletes(w, ds).Some? && OtherInode(w.tree, Paths(ds), i)
    ensures SameRow(w.rows, SoftDeletes(w, ds).value.rows, i)
    decreases |ds|
  {
    if ds != [] {
      var init, last := ds[..|ds| - 1], ds[|ds| - 1];
      InitOther(w.tree, ds, i);
      SoftDeletesKeepRows(w, init, i);
      var before := SoftDeletes(w, init).value;
      LastFromBase(w, init, before, last);
      SoftDeleteRow(before, last.path, last.ctx);
      assert Paths(ds)[|ds| - 1] == last.path;
    }
  }

  lemma InitOther(t: Tree, ds: seq<BinRequest>, i: nat)
    requires ds != [] && OtherInode(t, Paths(ds), i)
    ensures OtherInode(t, Paths(ds[..|ds| - 1]), i)
  {
    forall k | 0 <= k < |ds| - 1 ensures Paths(ds[..|ds| - 1])[k] == Paths(ds)[k] {
    }
  }

  lemma LastFromBase(w: WS, init: seq<BinRequest>, before: WS, last: BinRequest)
    requires Closed(w.tree) && SoftDeletes(w, init) == Some(before)
    requires SoftDelete(before, last.path, last.ctx).1 == Ok
    ensures Closed(before.tree)
    ensures last.path in before.tree && last.path in w.tree && before.tree[last.path] == w.tree[last.path]
  {
    hide EntryName, SoftDelete, CanTrashAll, TrashedAll, SoftDeletes;
    SoftDeletesMeaning(w, init);
    TrashedAllClosed(Base(w, init), Paths(init));
    SoftDeleteMeaning(before, last.path, last.ctx);
    LiveFromBase(Base(w, init), Paths(init), last.path);
  }

  // ---- Restores ----

  ghost predicate Indexing(rs: seq<BinRequest>) {
    forall k :: 0 <= k < |rs| ==> rs[k].ctx.hasStore && rs[k].ctx.upsert
  }

  ghost predicate DistinctOn(t: Tree, ps: seq<Below>) {
    && (forall k :: 0 <= k < |ps| ==> ps[k] in t)
    && (forall a, b :: 0 <= a < b < |ps| ==> t[ps[a]].inode != t[ps[b]].inode)
  }

  lemma DistinctWithout(t: Tree, ps: seq<Below>, k: nat)
    requires DistinctOn(t, ps) && k < |ps|
    ensures DistinctOn(t, Without(ps, k)) && OtherInode(t, Without(ps, k), t[ps[k]].inode)
  {
    var r := Without(ps, k);
    forall a, b | 0 <= a < b < |r| ensures t[r[a]].inode != t[r[b]].inode {
      assert r[a] == ps[if a < k then a else a + 1] && r[b] == ps[if b < k then b else b + 1];
    }
    forall a | 0 <= a < |r| ensures r[a] in t && t[r[a]].inode != t[ps[k]].inode {
      assert r[a] == ps[if a < k then a else a + 1];
    }
  }

  // After the restores every restored node has its restorer's row, and no other row has changed.
  ghost predicate RestoredRows(t: Tree, rows: Rows, rows': Rows, ps: seq<Below>, rs: seq<BinRequest>) {
    && (forall k :: 0 <= k < |rs| ==>
          && rs[k].path in t && t[rs[k].path].inode in rows'
          && rows'[t[rs[k].path].inode] == RowOf(t[rs[k].path], rs[k].ctx.actor))
    && (forall i :: OtherInode(t, ps, i) ==> SameRow(rows, rows', i))
  }

  // One restore of a sequence records the node that lay at the path before all deletions.
  lemma RestoreOneRow(d: Disk, ps: seq<Below>, w: WS, c: Ctx, k: nat) returns (w': WS)
    requires Closed(d.tree) && CanTrashAll(d, ps) && DiskOf(w) == TrashedAll(d, ps)
    requires k < |ps| && UnrelatedToLater(ps, k)
    requires c.mkdir && c.rename && c.metaRemove(EntryName(ps[k])) && c.hasStore && c.upsert
    ensures RestorePath(w, Entry(ps[k]), c) == (w', Ok)
    ensures var d' := Forgetting(d, EntryName(ps[k]));
            CanTrashAll(d', Without(ps, k)) && DiskOf(w') == TrashedAll(d', Without(ps, k))
    ensures ps[k] in d.tree && w'.rows == w.rows[d.tree[ps[k]].inode := RowOf(d.tree[ps[k]], c.actor)]
  {
    hide CanTrash, Trashed, CanRestore, Restored, EntryName, RestorePath, CanTrashAll, TrashedAll;
    w' := RestoreOne(d, ps, w, c, k);
    RestoreAnywhere(d, ps, k);
    TrashedAllClosed(d, ps);
    RestoreRow(w, ps[k], c);
    assert !(TRASH <= ps[k]) by { OutsideOf(d, ps, k); }
    LiveFromBase(Forgetting(d, EntryName(ps[k])), Without(ps, k), ps[k]);
  }

  lemma OutsideOf(d: Disk, ps: seq<Below>, k: nat)
    requires k < |ps| && RestoreSkips(d, ps, k)
    ensures !(TRASH <= ps[k])
  {
    hide EntryName;
  }

  lemma {:induction false} RestoresRecord(d: Disk, ps: seq<Below>, w: WS, rs: seq<BinRequest>)
    requires Closed(d.tree) && CanTrashAll(d, ps) && DiskOf(w) == TrashedAll(d, ps) && DistinctOn(d.tree, ps)
    requires UndoOrder(ps, Paths(rs)) && Healthy(rs) && Indexing(rs)
    ensures Restores(w, rs).Some?
    ensures RestoredRows(d.tree, w.rows, Restores(w, rs).value.rows, ps, rs)
    decreases |rs|
  {
    hide CanTrash, Trashed, CanTrashAll, TrashedAll, EntryName, RestorePath, Without, UnrelatedToLater, UndoOrder,
      RestoredRows, DistinctOn, Closed, OtherInode;
    if rs == [] {
      NoneRestored(d.tree, w.rows, ps, rs);
    } else {
      var k := NextRestored(ps, rs);
      var w' := RestoreOneRow(d, ps, w, rs[0].ctx, k);
      DistinctWithout(d.tree, ps, k);
      RestoresRecord(Forgetting(d, EntryName(ps[k])), Without(ps, k), w', rs[1..]);
      FirstRecorded(d.tree, w.rows, w'.rows, Restores(w, rs).value.rows, ps, rs, k);
    }
  }

  lemma NoneRestored(t: Tree, rows: Rows, ps: seq<Below>, rs: seq<BinRequest>)
    requires rs == []
    ensures RestoredRows(t, rows, rows, ps, rs)
  {
  }

  lemma FirstRecorded(t: Tree, rows: Rows, rows1: Rows, rows': Rows, ps: seq<Below>, rs: seq<BinRequest>, k: nat)
    requires rs != [] && k < |ps| && ps[k] == rs[0].path && ps[k] in t
    requires rows1 == rows[t[ps[k]].inode := RowOf(t[ps[k]], rs[0].ctx.actor)]
    requires OtherInode(t, Without(ps, k), t[ps[k]].inode)
    requires RestoredRows(t, rows1, rows', Without(ps, k), rs[1..])
    ensures RestoredRows(t, rows, rows', ps, rs)
  {
    assert SameRow(rows1, rows', t[ps[k]].inode);
    forall j | 0 <= j < |rs|
      ensures rs[j].path in t && t[rs[j].path].inode in rows'
           && rows'[t[rs[j].path].inode] == RowOf(t[rs[j].path], rs[j].ctx.actor)
    {
      if j > 0 {
        assert rs[1..][j - 1] == rs[j];
      }
    }
    forall i | OtherInode(t, ps, i) ensures SameRow(rows, rows', i) {
      OtherWithout(t, ps, k, i);
      assert SameRow(rows1, rows', i);
    }
  }

  lemma OtherWithout(t: Tree, ps: seq<Below>, k: nat, i: nat)
    requires OtherInode(t, ps, i) && k < |ps|
    ensures OtherInode(t, Without(ps, k), i) && t[ps[k]].inode != i
  {
    var r := Without(ps, k);
    forall a | 0 <= a < |r| ensures r[a] in t && t[r[a]].inode != i {
      assert r[a] == ps[if a < k then a else a + 1];
    }
  }

  // ---- Soft deletes and the restores that undo them ----

  // When any sequence of soft deletes is undone, every restored node ends with its restorer's row under
  // the type of its directory bit, whoever deleted it, and every other row is as at the start.
  lemma RestoreInUndoOrderRecords(w: WS, ds: seq<BinRequest>, rs: seq<BinRequest>)
    requires Closed(w.tree) && DistinctInodes(w.tree) && SoftDeletes(w, ds).Some?
    requires UndoOrder(Paths(ds), Paths(rs)) && Healthy(rs) && Indexing(rs)
    ensures Restores(SoftDeletes(w, ds).value, rs).Some?
    ensures RestoredRows(w.tree, w.rows, Restores(SoftDeletes(w, ds).value, rs).value.rows, Paths(ds), rs)
  {
    hide CanTrashAll, TrashedAll, EntryName, SoftDeletes, Restores, UndoOrder;
    var d, ps, w1 := Base(w, ds), Paths(ds), SoftDeletes(w, ds).value;
    SoftDeletesMeaning(w, ds);
    DeletedFromBase(d, ps);
    PathsInTree(w, ds);
    RestoresRecord(d, ps, w1, rs);
    var rows' := Restores(w1, rs).value.rows;
    forall i | OtherInode(w.tree, ps, i) ensures SameRow(w.rows, rows', i) {
      SoftDeletesKeepRows(w, ds, i);
      assert OtherInode(d.tree, ps, i);
      assert SameRow(w1.rows, rows', i);
    }
    RestoredPathsDeleted(ps, Paths(rs));
    forall k | 0 <= k < |rs| ensures rs[k].path in w.tree && w.tree[rs[k].path] == d.tree[rs[k].path] {
      assert Paths(rs)[k] in ps;
    }
  }

  lemma PathsInTree(w: WS, ds: seq<BinRequest>)
    requires Closed(w.tree) && DistinctInodes(w.tree) && SoftDeletes(w, ds).Some?
    requires CanTrashAll(Base(w, ds), Paths(ds))
    ensures forall p <- Paths(ds) :: p in w.tree && Base(w, ds).tree[p] == w.tree[p]
    ensures DistinctOn(Base(w, ds).tree, Paths(ds))
  {
    hide CanTrashAll, EntryName, SoftDeletes;
    var d, ps := Base(w, ds), Paths(ds);
    DeletedFromBase(d, ps);
    forall k | 0 <= k < |ps| ensures ps[k] in w.tree && d.tree[ps[k]] == w.tree[ps[k]] {
      assert ps[k] in ps;
    }
  }

  lemma {:induction false} RestoredPathsDeleted(ps: seq<Below>, rs: seq<Below>)
    requires UndoOrder(ps, rs)
    ensures forall r <- rs :: r in ps
    decreases |ps|
  {
    if rs != [] {
      var k: nat :| k < |ps| && ps[k] == rs[0] && UnrelatedToLater(ps, k) && UndoOrder(Without(ps, k), rs[1..]);
      RestoredPathsDeleted(Without(ps, k), rs[1..]);
      assert rs == [rs[0]] + rs[1..];
    }
  }
}
