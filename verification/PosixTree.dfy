// An abstract POSIX file tree: a map from paths to nodes with inodes, and the calls of the operating
// system that the workspace makes on it.
module PosixTree {
  import opened FileDomain

  // A path is the sequence of its names, [] being the root of the user's tree.
  type Path = seq<string>

  datatype Node =
    | FileNode(inode: nat, content: string)
    | DirNode(inode: nat)

  type Tree = map<Path, Node>

  function Parent(p: Path): Path
    requires p != []
  {
    p[..|p| - 1]
  }

  function Name(p: Path): string
    requires p != []
  {
    p[|p| - 1]
  }

  predicate IsDir(t: Tree, p: Path) {
    p in t && t[p].DirNode?
  }

  predicate IsFile(t: Tree, p: Path) {
    p in t && t[p].FileNode?
  }

  // Everything in the tree lies in a directory of the tree.
  ghost predicate Closed(t: Tree) {
    IsDir(t, []) && forall p :: p in t && p != [] ==> IsDir(t, Parent(p))
  }

  ghost predicate DistinctInodes(t: Tree) {
    forall p, q :: p in t && q in t && t[p].inode == t[q].inode ==> p == q
  }

  ghost predicate Unrelated(p: Path, q: Path) {
    !(p <= q) && !(q <= p)
  }

  lemma {:induction false} AncestorsAreDirs(t: Tree, p: Path, q: Path)
    requires Closed(t) && q in t && p < q
    ensures IsDir(t, p)
    decreases |q|
  {
    if |q| > |p| + 1 {
      AncestorsAreDirs(t, p, Parent(q));
    } else {
      assert p == Parent(q);
    }
  }

  // Nothing lies below a path that is absent or a file.
  lemma NothingBelow(t: Tree, p: Path, q: Path)
    requires Closed(t) && !IsDir(t, p) && p < q
    ensures q !in t
  {
    if q in t {
      AncestorsAreDirs(t, p, q);
    }
  }

  // ---- Stat ----

  datatype StatOutcome = Found(node: Node) | NotExist | NotADirectory

  // A path below a file cannot be looked up at all.
  function Stat(t: Tree, p: Path): StatOutcome {
    if p in t then Found(t[p])
    else if exists k :: 0 <= k < |p| && IsFile(t, p[..k]) then NotADirectory
    else NotExist
  }

  // ---- MkdirAll ----

  // The inodes the file system gives what a call creates: none of them is in use, none is given twice.
  ghost predicate FreshInodes(t: Tree, alloc: Path -> nat) {
    && (forall p, q :: alloc(p) == alloc(q) ==> p == q)
    && (forall p, q :: q in t ==> t[q].inode != alloc(p))
  }

  function MkdirAll(t: Tree, p: Path, alloc: Path -> nat): (r: Option<Tree>)
    decreases |p|
  {
    if p in t then if t[p].DirNode? then Some(t) else None
    else if p == [] then Some(t[p := DirNode(alloc(p))])
    else
      var above := MkdirAll(t, Parent(p), alloc);
      if above.None? then None else Some(above.value[p := DirNode(alloc(p))])
  }

  // What the call does: exactly the missing directories on the way to p are created. It fails only
  // when a file is in the way.
  lemma {:induction false} MkdirAllCreates(t: Tree, p: Path, alloc: Path -> nat)
    requires Closed(t)
    ensures MkdirAll(t, p, alloc).None? <==> exists k :: 0 <= k <= |p| && IsFile(t, p[..k])
    ensures MkdirAll(t, p, alloc).Some? ==>
              var r := MkdirAll(t, p, alloc).value;
              && (forall q :: q in r <==> q in t || q <= p)
              && (forall q :: q in t ==> r[q] == t[q])
              && (forall q :: q <= p && q !in t ==> r[q] == DirNode(alloc(q)))
    decreases |p|
  {
    assert p[..|p|] == p;
    if p !in t {
      var up := Parent(p);
      MkdirAllCreates(t, up, alloc);
      forall k | 0 <= k < |p| ensures p[..k] == up[..k] {}
      if MkdirAll(t, p, alloc).Some? {
        var r := MkdirAll(t, p, alloc).value;
        forall q: Path ensures q in r <==> q in t || q <= p {
          assert q <= p <==> q == p || q <= up;
        }
      }
    } else {
      forall k | 0 <= k < |p| ensures IsDir(t, p[..k]) { AncestorsAreDirs(t, p[..k], p); }
      forall q: Path | q <= p ensures q in t { assert q == p[..|q|]; }
    }
  }

  lemma MkdirAllKeepsClosed(t: Tree, p: Path, alloc: Path -> nat)
    requires Closed(t) && MkdirAll(t, p, alloc).Some?
    ensures Closed(MkdirAll(t, p, alloc).value) && IsDir(MkdirAll(t, p, alloc).value, p)
    ensures DistinctInodes(t) && FreshInodes(t, alloc) ==> DistinctInodes(MkdirAll(t, p, alloc).value)
  {
    MkdirAllCreates(t, p, alloc);
    var r := MkdirAll(t, p, alloc).value;
    forall q | q in r && q != [] ensures IsDir(r, Parent(q)) {
      if q !in t {
        assert Parent(q) <= p;
      }
    }
    assert forall k :: 0 <= k <= |p| ==> !IsFile(t, p[..k]);
    assert p[..|p|] == p;
  }

  // ---- Rename ----

  // Everything at or below src goes to dst, and what was at or below dst is gone.
  function MoveSubtree(t: Tree, src: Path, dst: Path): (r: Tree)
    ensures forall q :: q in r <==> if dst <= q then src + q[|dst|..] in t else q in t && !(src <= q)
    ensures forall q :: q in r ==> r[q] == if dst <= q then t[src + q[|dst|..]] else t[q]
  {
    var stay := set q | q in t && !(src <= q) && !(dst <= q);
    var gone := set q | q in t && src <= q :: dst + q[|src|..];
    assert forall q :: q in gone ==> dst <= q && src + q[|dst|..] in t by {
      forall q | q in gone ensures dst <= q && src + q[|dst|..] in t {
        var p :| p in t && src <= p && q == dst + p[|src|..];
        assert src + q[|dst|..] == p;
      }
    }
    assert forall q :: dst <= q && src + q[|dst|..] in t ==> q in gone by {
      forall q | dst <= q && src + q[|dst|..] in t ensures q in gone {
        var p := src + q[|dst|..];
        assert q == dst + p[|src|..];
      }
    }
    map q | q in stay + gone :: if dst <= q then t[src + q[|dst|..]] else t[q]
  }

  // Go's os.Rename: an existing directory is never replaced, a file replaces only a file, and a
  // directory never moves below itself.
  function Rename(t: Tree, src: Path, dst: Path): (r: Option<Tree>) {
    if src !in t || IsDir(t, dst) || dst == [] || !IsDir(t, Parent(dst)) then None
    else if src == dst then Some(t)
    else if t[src].DirNode? && (src <= dst || dst in t) then None
    else Some(MoveSubtree(t, src, dst))
  }

  // A rename never works between a path and one of its ancestors.
  lemma RenameUnrelated(t: Tree, src: Path, dst: Path)
    requires Closed(t) && Rename(t, src, dst).Some? && src != dst
    ensures Unrelated(src, dst) && src != []
  {
    var up := Parent(dst);
    assert dst == up + [Name(dst)];
    assert src <= dst ==> src < up || src == up;
    assert dst <= src ==> dst < src;
    if src < up {
      AncestorsAreDirs(t, src, up);
    }
    if dst < src {
      AncestorsAreDirs(t, dst, src);
    }
  }

  lemma SplitPath(p: Path, q: Path)
    requires p <= q
    ensures p + q[|p|..] == q
  {
  }

  // Moving to a free place and back changes nothing.
  lemma MoveBack(t: Tree, src: Path, dst: Path)
    requires !(src <= dst) && !(dst <= src) && forall q :: q in t ==> !(dst <= q)
    ensures MoveSubtree(MoveSubtree(t, src, dst), dst, src) == t
  {
    var m := MoveSubtree(t, src, dst);
    var r := MoveSubtree(m, dst, src);
    forall q: Path ensures q in r <==> q in t {
      if src <= q {
        var there := dst + q[|src|..];
        assert there[|dst|..] == q[|src|..];
        assert src + q[|src|..] == q;
      }
    }
    forall q | q in r ensures r[q] == t[q] {
      if src <= q {
        var there := dst + q[|src|..];
        assert there[|dst|..] == q[|src|..];
        assert src + q[|src|..] == q;
      }
    }
  }

  lemma MoveKeepsClosed(t: Tree, src: Path, dst: Path)
    requires Closed(t) && src in t && src != [] && dst != [] && !(src <= dst) && !(dst <= src)
    requires IsDir(t, Parent(dst))
    ensures Closed(MoveSubtree(t, src, dst))
    ensures DistinctInodes(t) ==> DistinctInodes(MoveSubtree(t, src, dst))
  {
    var r := MoveSubtree(t, src, dst);
    forall q | q in r && q != [] ensures IsDir(r, Parent(q)) {
      if dst < q {
        var was := src + q[|dst|..];
        assert Parent(was) == src + Parent(q)[|dst|..];
      } else if dst == q {
        assert !(src <= Parent(q)) && !(dst <= Parent(q));
      } else {
        assert !(dst <= Parent(q)) && !(src <= Parent(q));
      }
    }
    forall p, q | DistinctInodes(t) && p in r && q in r && r[p].inode == r[q].inode ensures p == q {
      var p0 := if dst <= p then src + p[|dst|..] else p;
      var q0 := if dst <= q then src + q[|dst|..] else q;
      assert p0 == q0;
      if dst <= p && dst <= q {
        assert p0[|src|..] == p[|dst|..] && q0[|src|..] == q[|dst|..];
        SplitPath(dst, p);
        SplitPath(dst, q);
      }
    }
  }

  // ---- Removal ----

  function RemoveAll(t: Tree, p: Path): (r: Tree)
    ensures forall q :: q in r <==> q in t && !(p <= q)
    ensures forall q :: q in r ==> r[q] == t[q]
  {
    map q | q in t && !(p <= q) :: t[q]
  }

  lemma RemoveAllKeepsClosed(t: Tree, p: Path)
    requires Closed(t) && p != []
    ensures Closed(RemoveAll(t, p))
    ensures DistinctInodes(t) ==> DistinctInodes(RemoveAll(t, p))
  {
  }
}
