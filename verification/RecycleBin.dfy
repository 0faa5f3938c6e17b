// Soft delete and restore undo each other, one by one and in sequences.
module RecycleBin {
  import opened PosixTree
  import opened TrashNames
  import opened Workspace

  // ---- The net effect of a successful soft delete and of a successful restore ----

  // What the two operations work on, the index aside.
  datatype Disk = Disk(tree: Tree, meta: map<string, Below>)

  function Entry(p: Path): Below {
    EntryPath(EntryName(p))
  }

  ghost predicate CanTrash(d: Disk, p: Path) {
    IsDir(d.tree, TRASH) && p != [] && !(TRASH <= p) && p in d.tree && Entry(p) !in d.tree
  }

  function Trashed(d: Disk, p: Below): Disk {
    Disk(MoveSubtree(d.tree, p, Entry(p)), d.meta[EntryName(p) := p])
  }

  ghost predicate CanRestore(d: Disk, p: Path) {
    && p != [] && !(TRASH <= p)
    && EntryName(p) in d.meta && d.meta[EntryName(p)] == p
    && IsDir(d.tree, TRASH) && Entry(p) in d.tree && p !in d.tree && IsDir(d.tree, Parent(p))
  }

  function Restored(d: Disk, p: Below): Disk {
    Disk(MoveSubtree(d.tree, Entry(p), p), d.meta - {EntryName(p)})
  }

  function Forgetting(d: Disk, e: string): Disk {
    d.(meta := d.meta - {e})
  }

  lemma OutsideTrash(p: Path, e: string)
    requires p != [] && !(TRASH <= p)
    ensures Unrelated(p, EntryPath(e)) && !(p <= TRASH)
  {
    assert p[0] != EntryPath(e)[0];
  }

  lemma EntriesUnrelated(e: string, f: string)
    requires e != f
    ensures Unrelated(EntryPath(e), EntryPath(f))
  {
    assert EntryPath(e)[1] != EntryPath(f)[1];
  }

  lemma TrashedClosed(d: Disk, p: Path)
    requires Closed(d.tree) && CanTrash(d, p)
    ensures Closed(Trashed(d, p).tree)
  {
    OutsideTrash(p, EntryName(p));
    assert Parent(Entry(p)) == TRASH;
    MoveKeepsClosed(d.tree, p, Entry(p));
  }

  lemma NothingAt(t: Tree, p: Path)
    requires Closed(t) && p !in t
    ensures forall q :: q in t ==> !(p <= q)
  {
    forall q | q in t ensures !(p <= q) {
      if p <= q {
        assert p != q;
        NothingBelow(t, p, q);
      }
    }
  }

  // What a move to a free place does to the paths the operations look at.
  lemma MoveEffect(t: Tree, src: Path, dst: Path)
    requires Closed(t) && src in t && src != [] && Unrelated(src, dst) && dst !in t
    ensures var r := MoveSubtree(t, src, dst);
            dst in r && src !in r && (IsDir(r, Parent(src)) && forall q :: IsDir(t, q) && !(src <= q) ==> IsDir(r, q))
    ensures MoveSubtree(MoveSubtree(t, src, dst), dst, src) == t
  {
    assert src + dst[|dst|..] == src;
    assert !(src <= Parent(src));
    NothingAt(t, dst);
    MoveBack(t, src, dst);
  }

  // A restore takes back a soft delete.
  lemma TrashThenRestore(d: Disk, p: Path)
    requires Closed(d.tree) && CanTrash(d, p)
    ensures CanRestore(Trashed(d, p), p)
    ensures Restored(Trashed(d, p), p) == Forgetting(d, EntryName(p))
  {
    OutsideTrash(p, EntryName(p));
    MoveEffect(d.tree, p, Entry(p));
    assert d.meta[EntryName(p) := p] - {EntryName(p)} == d.meta - {EntryName(p)};
  }

  // ---- Operations on unrelated paths commute ----

  lemma MovesCommute(t: Tree, a: Path, a': Path, b: Path, b': Path)
    requires Unrelated(a, a') && Unrelated(b, b') && Unrelated(a, b) && Unrelated(a, b')
    requires Unrelated(a', b) && Unrelated(a', b')
    ensures MoveSubtree(MoveSubtree(t, a, a'), b, b') == MoveSubtree(MoveSubtree(t, b, b'), a, a')
  {
    var ta, tb := MoveSubtree(t, a, a'), MoveSubtree(t, b, b');
    var l, r := MoveSubtree(ta, b, b'), MoveSubtree(tb, a, a');
    forall q: Path ensures (q in l <==> q in r) && (q in l ==> l[q] == r[q]) {
      if b' <= q {
        DisjointBelow(b, a, q[|b'|..]);
        DisjointBelow(b, a', q[|b'|..]);
        DisjointBelow(b', a, q[|b'|..]);
        DisjointBelow(b', a', q[|b'|..]);
        SplitPath(b', q);
      } else if a' <= q {
        DisjointBelow(a, b, q[|a'|..]);
        DisjointBelow(a, b', q[|a'|..]);
        DisjointBelow(a', b, q[|a'|..]);
        DisjointBelow(a', b', q[|a'|..]);
        SplitPath(a', q);
      }
    }
  }

  lemma DisjointBelow(a: Path, b: Path, s: Path)
    requires Unrelated(a, b)
    ensures !(b <= a + s)
  {
    var n := if |a| <= |b| then |a| else |b|;
    if a[..n] == b[..n] {
      assert false;
    } else {
      assert (a + s)[..n] == a[..n];
    }
  }

  lemma NotAboveParent(p: Path, q: Path)
    requires p != [] && Unrelated(p, q)
    ensures !(q <= Parent(p))
  {
  }

  lemma StillRestorable(d: Disk, p: Path, q: Path)
    requires Closed(d.tree) && CanRestore(d, p) && CanTrash(d, q) && Unrelated(p, q)
    ensures CanRestore(Trashed(d, q), p)
  {
    OutsideTrash(p, EntryName(q));
    OutsideTrash(q, EntryName(p));
    OutsideTrash(q, EntryName(q));
    EntriesUnrelated(EntryName(p), EntryName(q));
    NotAboveParent(p, q);
    NotAboveParent(p, Entry(q));
  }

  lemma StillTrashable(d: Disk, p: Path, q: Path)
    requires Closed(d.tree) && CanRestore(d, p) && CanTrash(d, q) && Unrelated(p, q)
    ensures CanTrash(Restored(d, p), q)
  {
    OutsideTrash(p, EntryName(q));
    OutsideTrash(p, EntryName(p));
    OutsideTrash(q, EntryName(p));
    EntriesUnrelated(EntryName(p), EntryName(q));
  }

  lemma RestoreCommutes(d: Disk, p: Path, q: Path)
    requires Closed(d.tree) && CanRestore(d, p) && CanTrash(d, q) && Unrelated(p, q)
    ensures Restored(Trashed(d, q), p) == Trashed(Restored(d, p), q)
  {
    var e, f := EntryName(p), EntryName(q);
    assert e != f;
    OutsideTrash(p, e);
    OutsideTrash(p, f);
    OutsideTrash(q, e);
    OutsideTrash(q, f);
    EntriesUnrelated(e, f);
    MovesCommute(d.tree, q, Entry(q), Entry(p), p);
    assert d.meta[f := q] - {e} == (d.meta - {e})[f := q];
  }

  // ---- Sequences of soft deletes ----

  function TrashedAll(d: Disk, ps: seq<Below>): Disk
    decreases |ps|
  {
    if ps == [] then d else Trashed(TrashedAll(d, ps[..|ps| - 1]), ps[|ps| - 1])
  }

  ghost predicate CanTrashAll(d: Disk, ps: seq<Below>)
    decreases |ps|
  {
    ps == [] || (CanTrashAll(d, ps[..|ps| - 1]) && CanTrash(TrashedAll(d, ps[..|ps| - 1]), ps[|ps| - 1]))
  }

  function Without<T>(ps: seq<T>, k: nat): seq<T>
    requires k < |ps|
  {
    ps[..k] + ps[k + 1..]
  }

  lemma {:induction false} TrashedAllClosed(d: Disk, ps: seq<Below>)
    requires Closed(d.tree) && CanTrashAll(d, ps)
    ensures Closed(TrashedAll(d, ps).tree)
    decreases |ps|
  {
    if ps != [] {
      TrashedAllClosed(d, ps[..|ps| - 1]);
      TrashedClosed(TrashedAll(d, ps[..|ps| - 1]), ps[|ps| - 1]);
    }
  }

  lemma ForgetStep(d: Disk, p: Path, e: string)
    requires CanTrash(d, p) && EntryPath(e) !in Trashed(d, p).tree
    ensures EntryPath(e) !in d.tree && CanTrash(Forgetting(d, e), p)
    ensures Trashed(Forgetting(d, e), p) == Forgetting(Trashed(d, p), e)
  {
    var f := EntryName(p);
    assert p + EntryPath(f)[|EntryPath(f)|..] == p;
    assert EntryPath(f) in Trashed(d, p).tree;
    OutsideTrash(p, e);
    EntriesUnrelated(e, f);
    assert (d.meta - {e})[f := p] == d.meta[f := p] - {e};
  }

  // What is recorded under a name nobody in the sequence takes makes no difference.
  lemma {:induction false} ForgetBefore(d: Disk, ps: seq<Below>, e: string)
    requires CanTrashAll(d, ps) && EntryPath(e) !in TrashedAll(d, ps).tree
    ensures CanTrashAll(Forgetting(d, e), ps)
    ensures TrashedAll(Forgetting(d, e), ps) == Forgetting(TrashedAll(d, ps), e)
    decreases |ps|
  {
    if ps != [] {
      var init, p := ps[..|ps| - 1], ps[|ps| - 1];
      ForgetStep(TrashedAll(d, init), p, e);
      ForgetBefore(d, init, e);
    }
  }

  lemma TrashOneMore(d: Disk, ps: seq<Below>, q: Below)
    ensures CanTrashAll(d, ps + [q]) <==> CanTrashAll(d, ps) && CanTrash(TrashedAll(d, ps), q)
    ensures TrashedAll(d, ps + [q]) == Trashed(TrashedAll(d, ps), q)
  {
    assert (ps + [q])[..|ps|] == ps;
  }

  // Restoring the k-th of the deleted paths leaves the state in which it never was deleted.
  ghost predicate RestoreSkips(d: Disk, ps: seq<Below>, k: nat)
    requires k < |ps|
  {
    var d' := Forgetting(d, EntryName(ps[k]));
    && CanRestore(TrashedAll(d, ps), ps[k])
    && CanTrashAll(d', Without(ps, k))
    && Restored(TrashedAll(d, ps), ps[k]) == TrashedAll(d', Without(ps, k))
  }

  lemma RestoreLast(d: Disk, ps: seq<Below>, q: Below)
    requires Closed(d.tree) && CanTrashAll(d, ps) && CanTrash(TrashedAll(d, ps), q)
    ensures RestoreSkips(d, ps + [q], |ps|)
  {
    TrashedAllClosed(d, ps);
    TrashThenRestore(TrashedAll(d, ps), q);
    TrashOneMore(d, ps, q);
    ForgetBefore(d, ps, EntryName(q));
    assert Without(ps + [q], |ps|) == ps;
  }

  lemma RestoreEarlier(d: Disk, ps: seq<Below>, q: Below, k: nat)
    requires Closed(d.tree) && CanTrashAll(d, ps) && CanTrash(TrashedAll(d, ps), q)
    requires k < |ps| && RestoreSkips(d, ps, k) && Unrelated(ps[k], q)
    ensures RestoreSkips(d, ps + [q], k)
  {
    hide CanRestore, CanTrash, Restored, Trashed, CanTrashAll, TrashedAll, EntryName;
    var before, p := TrashedAll(d, ps), ps[k];
    TrashedAllClosed(d, ps);
    StillRestorable(before, p, q);
    StillTrashable(before, p, q);
    RestoreCommutes(before, p, q);
    TrashOneMore(d, ps, q);
    TrashOneMore(Forgetting(d, EntryName(p)), Without(ps, k), q);
    assert Without(ps + [q], k) == Without(ps, k) + [q];
  }

  // That is so whenever the path is unrelated to those deleted after it.
  lemma {:induction false} RestoreAnywhere(d: Disk, ps: seq<Below>, k: nat)
    requires Closed(d.tree) && CanTrashAll(d, ps) && k < |ps|
    requires forall j :: k < j < |ps| ==> Unrelated(ps[k], ps[j])
    ensures RestoreSkips(d, ps, k)
    decreases |ps|
  {
    hide CanRestore, CanTrash, Restored, Trashed, EntryName;
    var init, q := ps[..|ps| - 1], ps[|ps| - 1];
    assert ps == init + [q];
    if k == |init| {
      RestoreLast(d, init, q);
    } else {
      RestoreAnywhere(d, init, k);
      RestoreEarlier(d, init, q, k);
    }
  }
}
