// Sequences of soft deletes taken back by restores, whatever the order allows.
module RecycleRuns {
  import opened FileDomain
  import opened PosixTree
  import opened TrashNames
  import opened Workspace
  import opened RecycleBin

  function DiskOf(w: WS): Disk {
    Disk(w.tree, w.meta)
  }

  // The tree once it has a trash directory.
  function WithTrash(t: Tree, alloc: Path -> nat): Tree {
    if TRASH in t then t else t[TRASH := DirNode(alloc(TRASH))]
  }

  lemma TrashDirMade(t: Tree, alloc: Path -> nat)
    requires Closed(t)
    ensures IsFile(t, TRASH) ==> MkdirAll(t, TRASH, alloc).None?
    ensures !IsFile(t, TRASH) ==> MkdirAll(t, TRASH, alloc) == Some(WithTrash(t, alloc))
    ensures !IsFile(t, TRASH) ==> Closed(WithTrash(t, alloc)) && IsDir(WithTrash(t, alloc), TRASH)
  {
    assert Parent(TRASH) == [];
    assert MkdirAll(t, [], alloc) == Some(t);
    if !IsFile(t, TRASH) {
      MkdirAllKeepsClosed(t, TRASH, alloc);
    }
  }

  // A soft delete succeeds exactly when its calls work, the path exists below the root and outside
  // the trash, and its entry name is free; then it moves the path to its entry and records it.
  lemma SoftDeleteMeaning(w: WS, p: Path, c: Ctx)
    requires Closed(w.tree) && p != META
    ensures SoftDelete(w, p, c).1 == Ok <==>
              && c.mkdir && c.rename && c.metaWrite && !IsFile(w.tree, TRASH)
              && CanTrash(Disk(WithTrash(w.tree, c.alloc), w.meta), p)
    ensures SoftDelete(w, p, c).1 == Ok ==>
              DiskOf(SoftDelete(w, p, c).0) == Trashed(Disk(WithTrash(w.tree, c.alloc), w.meta), p)
  {
    hide EntryName;
    TrashDirMade(w.tree, c.alloc);
    assert Parent(Entry(p)) == TRASH;
    if p != [] && !(TRASH <= p) {
      OutsideTrash(p, EntryName(p));
    }
  }

  lemma RestoreMeaning(w: WS, p: Path, c: Ctx)
    requires Closed(w.tree) && CanRestore(DiskOf(w), p)
    requires c.mkdir && c.rename && c.metaRemove(EntryName(p))
    ensures RestorePath(w, Entry(p), c).1 == Ok
    ensures DiskOf(RestorePath(w, Entry(p), c).0) == Restored(DiskOf(w), p)
  {
    hide EntryName;
    OutsideTrash(p, EntryName(p));
  }

  // ---- Sequences ----

  datatype BinRequest = BinRequest(path: Deletable, ctx: Ctx)

  function Paths(rs: seq<BinRequest>): (ps: seq<Below>)
    ensures |ps| == |rs| && forall k :: 0 <= k < |rs| ==> ps[k] == rs[k].path
  {
    seq(|rs|, k requires 0 <= k < |rs| => rs[k].path)
  }

  // The state after soft deleting each path in turn, if all of that succeeds.
  function SoftDeletes(w: WS, ds: seq<BinRequest>): Option<WS>
    decreases |ds|
  {
    if ds == [] then Some(w)
    else
      var before := SoftDeletes(w, ds[..|ds| - 1]);
      if before.None? then None
      else
        var (w', r) := SoftDelete(before.value, ds[|ds| - 1].path, ds[|ds| - 1].ctx);
        if r == Ok then Some(w') else None
  }

  // The state after restoring the entry of each path in turn, if all of that succeeds.
  function Restores(w: WS, rs: seq<BinRequest>): Option<WS>
    decreases |rs|
  {
    if rs == [] then Some(w)
    else
      var (w', r) := RestorePath(w, Entry(rs[0].path), rs[0].ctx);
      if r == Ok then Restores(w', rs[1..]) else None
  }

  ghost predicate Healthy(rs: seq<BinRequest>) {
    forall k :: 0 <= k < |rs| ==>
      rs[k].ctx.mkdir && rs[k].ctx.rename && rs[k].ctx.metaRemove(EntryName(rs[k].path))
  }

  // Every path is restored after the paths related to it that were deleted later.
  ghost predicate UndoOrder(ps: seq<Below>, rs: seq<Below>)
    decreases |ps|
  {
    && |ps| == |rs|
    && (rs == [] ||
        exists k: nat :: k < |ps| && ps[k] == rs[0] && UnrelatedToLater(ps, k) && UndoOrder(Without(ps, k), rs[1..]))
  }

  ghost predicate UnrelatedToLater(ps: seq<Below>, k: nat)
    requires k < |ps|
  {
    forall j :: k < j < |ps| ==> Unrelated(ps[k], ps[j])
  }

  function Names(ps: seq<Below>): set<string> {
    set p | p in ps :: EntryName(p)
  }

  // The disk the deletions started from, with a trash directory.
  function Base(w: WS, ds: seq<BinRequest>): Disk {
    if ds == [] then DiskOf(w) else Disk(WithTrash(w.tree, ds[0].ctx.alloc), w.meta)
  }

  lemma {:induction false} SoftDeletesMeaning(w: WS, ds: seq<BinRequest>)
    requires Closed(w.tree) && SoftDeletes(w, ds).Some?
    ensures Closed(Base(w, ds).tree) && CanTrashAll(Base(w, ds), Paths(ds))
    ensures DiskOf(SoftDeletes(w, ds).value) == TrashedAll(Base(w, ds), Paths(ds))
    ensures ds != [] ==> TRASH in SoftDeletes(w, ds).value.tree
    decreases |ds|
  {
    if ds != [] {
      hide CanTrash, Trashed, EntryName, SoftDelete, WithTrash, TrashedAll, CanTrashAll;
      var init, last := ds[..|ds| - 1], ds[|ds| - 1];
      SoftDeletesMeaning(w, init);
      var before := SoftDeletes(w, init).value;
      assert SoftDelete(before, last.path, last.ctx).1 == Ok;
      OneMoreSoftDelete(w, init, before, last);
      assert ds == init + [last];
    }
  }

  lemma OneMoreSoftDelete(w: WS, init: seq<BinRequest>, before: WS, last: BinRequest)
    requires Closed(w.tree) && SoftDelete(before, last.path, last.ctx).1 == Ok
    requires CanTrashAll(Base(w, init), Paths(init)) && Closed(Base(w, init).tree)
    requires DiskOf(before) == TrashedAll(Base(w, init), Paths(init))
    requires init != [] ==> TRASH in before.tree
    ensures var ds := init + [last];
            && Closed(Base(w, ds).tree) && CanTrashAll(Base(w, ds), Paths(ds))
            && DiskOf(SoftDelete(before, last.path, last.ctx).0) == TrashedAll(Base(w, ds), Paths(ds))
            && TRASH in SoftDelete(before, last.path, last.ctx).0.tree
  {
    hide CanTrash, Trashed, EntryName, SoftDelete;
    var ds, base := init + [last], Base(w, init);
    TrashedAllClosed(base, Paths(init));
    SoftDeleteMeaning(before, last.path, last.ctx);
    TrashDirMade(before.tree, last.ctx.alloc);
    var d := Disk(WithTrash(before.tree, last.ctx.alloc), before.meta);
    TrashStays(d, last.path);
    assert Base(w, ds) == if init == [] then d else base;
    assert Paths(ds) == Paths(init) + [last.path];
    TrashOneMore(Base(w, ds), Paths(init), last.path);
  }

  lemma TrashStays(d: Disk, p: Path)
    requires CanTrash(d, p)
    ensures IsDir(Trashed(d, p).tree, TRASH)
  {
    OutsideTrash(p, EntryName(p));
  }

  // The disk with the records of these paths' entries gone.
  function Cleared(d: Disk, ps: seq<Below>): Disk {
    Disk(d.tree, d.meta - Names(ps))
  }

  lemma ClearedSplit(d: Disk, ps: seq<Below>, k: nat)
    requires k < |ps|
    ensures Cleared(Forgetting(d, EntryName(ps[k])), Without(ps, k)) == Cleared(d, ps)
  {
    NamesSplit(ps, k);
    assert d.meta - {EntryName(ps[k])} - Names(Without(ps, k)) == d.meta - Names(ps);
  }

  lemma NamesSplit(ps: seq<Below>, k: nat)
    requires k < |ps|
    ensures Names(ps) == {EntryName(ps[k])} + Names(Without(ps, k))
  {
    var rest := Without(ps, k);
    forall p | p in ps ensures p == ps[k] || p in rest {
      var i :| 0 <= i < |ps| && ps[i] == p;
      assert i < k ==> rest[i] == p;
      assert i > k ==> rest[i - 1] == p;
    }
    forall p | p in rest ensures p in ps {
    }
  }

  lemma RestoreOne(d: Disk, ps: seq<Below>, w: WS, c: Ctx, k: nat) returns (w': WS)
    requires Closed(d.tree) && CanTrashAll(d, ps) && DiskOf(w) == TrashedAll(d, ps)
    requires k < |ps| && UnrelatedToLater(ps, k)
    requires c.mkdir && c.rename && c.metaRemove(EntryName(ps[k]))
    ensures RestorePath(w, Entry(ps[k]), c) == (w', Ok)
    ensures var d' := Forgetting(d, EntryName(ps[k]));
            CanTrashAll(d', Without(ps, k)) && DiskOf(w') == TrashedAll(d', Without(ps, k))
  {
    hide CanTrash, Trashed, CanRestore, Restored, EntryName, RestorePath, CanTrashAll, TrashedAll;
    RestoreAnywhere(d, ps, k);
    TrashedAllClosed(d, ps);
    RestoreMeaning(w, ps[k], c);
    w' := RestorePath(w, Entry(ps[k]), c).0;
  }

  lemma NextRestored(ps: seq<Below>, rs: seq<BinRequest>) returns (k: nat)
    requires UndoOrder(ps, Paths(rs)) && rs != []
    ensures k < |ps| && ps[k] == rs[0].path && UnrelatedToLater(ps, k)
    ensures UndoOrder(Without(ps, k), Paths(rs[1..]))
  {
    assert Paths(rs)[1..] == Paths(rs[1..]);
    k :| k < |ps| && ps[k] == Paths(rs)[0] && UnrelatedToLater(ps, k) && UndoOrder(Without(ps, k), Paths(rs)[1..]);
  }

  lemma NothingRestored(d: Disk, ps: seq<Below>, rs: seq<BinRequest>)
    requires UndoOrder(ps, Paths(rs)) && rs == []
    ensures TrashedAll(d, ps) == Cleared(d, ps)
  {
    assert ps == [];
    assert d.meta - Names([]) == d.meta;
  }

  lemma {:induction false} RestoresUndo(d: Disk, ps: seq<Below>, w: WS, rs: seq<BinRequest>)
    requires Closed(d.tree) && CanTrashAll(d, ps) && DiskOf(w) == TrashedAll(d, ps)
    requires UndoOrder(ps, Paths(rs)) && Healthy(rs)
    ensures Restores(w, rs).Some?
    ensures DiskOf(Restores(w, rs).value) == Cleared(d, ps)
    decreases |rs|
  {
    hide CanTrash, Trashed, CanTrashAll, TrashedAll, EntryName, RestorePath, Without, Cleared, UnrelatedToLater,
      UndoOrder;
    if rs == [] {
      NothingRestored(d, ps, rs);
    } else {
      var k := NextRestored(ps, rs);
      var w' := RestoreOne(d, ps, w, rs[0].ctx, k);
      RestoresUndo(Forgetting(d, EntryName(ps[k])), Without(ps, k), w', rs[1..]);
      ClearedSplit(d, ps, k);
    }
  }

  // ---- Restores undo soft deletes ----

  // Everything outside the trash, contents and inodes included.
  function Live(t: Tree): Tree {
    map q | q in t && !(TRASH <= q) :: t[q]
  }

  // Any sequence of successful soft deletes is undone by restores that put related paths back in the
  // opposite order: nothing is different afterwards but that there is a trash directory.
  lemma RestoreInUndoOrder(w: WS, ds: seq<BinRequest>, rs: seq<BinRequest>)
    requires Closed(w.tree) && SoftDeletes(w, ds).Some?
    requires UndoOrder(Paths(ds), Paths(rs)) && Healthy(rs)
    ensures var r := Restores(SoftDeletes(w, ds).value, rs);
            && r.Some? && Live(r.value.tree) == Live(w.tree)
            && r.value.tree == Base(w, ds).tree
            && r.value.meta == w.meta - Names(Paths(ds))
  {
    hide CanTrashAll, TrashedAll, EntryName, SoftDeletes, Restores, UndoOrder;
    SoftDeletesMeaning(w, ds);
    RestoresUndo(Base(w, ds), Paths(ds), SoftDeletes(w, ds).value, rs);
    assert Live(Base(w, ds).tree) == Live(w.tree);
  }

  function Reversed(ps: seq<Below>): (r: seq<Below>)
    ensures |r| == |ps| && forall k :: 0 <= k < |ps| ==> r[k] == ps[|ps| - 1 - k]
  {
    seq(|ps|, k requires 0 <= k < |ps| => ps[|ps| - 1 - k])
  }

  lemma {:induction false} ReverseIsUndoOrder(ps: seq<Below>)
    ensures UndoOrder(ps, Reversed(ps))
    decreases |ps|
  {
    if ps != [] {
      var k := |ps| - 1;
      ReverseIsUndoOrder(ps[..k]);
      assert Without(ps, k) == ps[..k];
      assert Reversed(ps)[1..] == Reversed(ps[..k]);
      assert UnrelatedToLater(ps, k);
    }
  }

  ghost predicate PairwiseUnrelated(ps: seq<Below>) {
    forall a, b :: 0 <= a < b < |ps| ==> Unrelated(ps[a], ps[b])
  }

  lemma WithoutOne(ps: seq<Below>, k: nat)
    requires k < |ps|
    ensures multiset(Without(ps, k)) == multiset(ps) - multiset{ps[k]}
  {
    assert ps == ps[..k] + [ps[k]] + ps[k + 1..];
  }

  lemma WithoutKeepsUnrelated(ps: seq<Below>, k: nat)
    requires k < |ps| && PairwiseUnrelated(ps)
    ensures PairwiseUnrelated(Without(ps, k))
  {
    hide Unrelated;
    var r := Without(ps, k);
    forall a, b | 0 <= a < b < |r| ensures Unrelated(r[a], r[b]) {
      assert r[a] == ps[if a < k then a else a + 1] && r[b] == ps[if b < k then b else b + 1];
    }
  }

  lemma {:induction false} UnrelatedIsUndoOrder(ps: seq<Below>, rs: seq<Below>)
    requires PairwiseUnrelated(ps) && multiset(ps) == multiset(rs)
    ensures UndoOrder(ps, rs)
    decreases |ps|
  {
    assert |ps| == |multiset(ps)| == |multiset(rs)| == |rs|;
    if rs != [] {
      assert rs[0] in multiset(ps);
      var k: nat :| k < |ps| && ps[k] == rs[0];
      WithoutOne(ps, k);
      WithoutKeepsUnrelated(ps, k);
      assert rs == [rs[0]] + rs[1..];
      UnrelatedIsUndoOrder(Without(ps, k), rs[1..]);
      assert UnrelatedToLater(ps, k);
    }
  }

  // In reverse order that is any sequence of soft deletes at all.
  lemma ReverseRestoreIsIdentity(w: WS, ds: seq<BinRequest>, rs: seq<BinRequest>)
    requires Closed(w.tree) && SoftDeletes(w, ds).Some? && Healthy(rs)
    requires Paths(rs) == Reversed(Paths(ds))
    ensures var r := Restores(SoftDeletes(w, ds).value, rs);
            r.Some? && Live(r.value.tree) == Live(w.tree) && r.value.meta == w.meta - Names(Paths(ds))
  {
    ReverseIsUndoOrder(Paths(ds));
    RestoreInUndoOrder(w, ds, rs);
  }

  // Paths none of which lies below another may be restored in any order.
  lemma UnrelatedRestoreInAnyOrder(w: WS, ds: seq<BinRequest>, rs: seq<BinRequest>)
    requires Closed(w.tree) && SoftDeletes(w, ds).Some? && Healthy(rs)
    requires PairwiseUnrelated(Paths(ds)) && multiset(Paths(rs)) == multiset(Paths(ds))
    ensures var r := Restores(SoftDeletes(w, ds).value, rs);
            r.Some? && Live(r.value.tree) == Live(w.tree) && r.value.meta == w.meta - Names(Paths(ds))
  {
    UnrelatedIsUndoOrder(Paths(ds), Paths(rs));
    RestoreInUndoOrder(w, ds, rs);
  }
}
