// A recursive copy overlays the destination with the source.
module CopyTree {
  import opened FileDomain
  import opened PosixTree

  // ---- What the program does ----

  // Creating an existing file empties it, so it keeps its inode, and a file copied onto itself is
  // empty by the time it is read.
  function CopyFile(t: Tree, src: Path, dst: Path, alloc: Path -> nat): (Tree, bool)
    requires dst != []
  {
    var dir := MkdirAll(t, Parent(dst), alloc);
    if dir.None? then (t, false)
    else if !IsFile(dir.value, src) || IsDir(dir.value, dst) then (dir.value, false)
    else
      var inode := if dst in dir.value then dir.value[dst].inode else alloc(dst);
      (dir.value[dst := FileNode(inode, if src == dst then "" else dir.value[src].content)], true)
  }

  // One entry of the walk, at src + rel.
  function CopyEntry(t: Tree, src: Path, dst: Path, rel: Path, alloc: Path -> nat): (Tree, bool)
    requires rel != []
  {
    if IsDir(t, src + rel) then
      var dir := MkdirAll(t, dst + rel, alloc);
      if dir.None? then (t, false) else (dir.value, true)
    else CopyFile(t, src + rel, dst + rel, alloc)
  }

  type Rel = p: Path | p != [] witness ["a"]

  function CopyEntries(t: Tree, src: Path, dst: Path, walk: seq<Rel>, alloc: Path -> nat): (Tree, bool)
    decreases |walk|
  {
    if walk == [] then (t, true)
    else
      var (t1, ok) := CopyEntry(t, src, dst, walk[0], alloc);
      if !ok then (t1, false) else CopyEntries(t1, src, dst, walk[1..], alloc)
  }

  // walk is the order in which the walk of src visits what lies below it.
  function CopyDir(t: Tree, src: Path, dst: Path, walk: seq<Rel>, alloc: Path -> nat): (Tree, bool) {
    if src !in t then (t, false)
    else
      var top := MkdirAll(t, dst, alloc);
      if top.None? then (t, false) else CopyEntries(top.value, src, dst, walk, alloc)
  }

  // A walk visits everything below src once, a directory before what it holds.
  ghost predicate Walks(t: Tree, src: Path, walk: seq<Rel>) {
    && (forall s: Rel :: s in walk <==> src + s in t)
    && (forall a, b :: 0 <= a < b < |walk| ==> walk[a] != walk[b])
    && (forall a :: 0 <= a < |walk| && |walk[a]| > 1 ==> Parent(walk[a]) in walk[..a])
  }

  // ---- What it amounts to ----

  // The entry s of src, put over what t has at dst + s: directories and overwritten files keep their
  // inode, file contents come from src.
  function Overlaid(t: Tree, src: Path, dst: Path, s: Path, alloc: Path -> nat): Node
    requires src + s in t
  {
    var inode := if dst + s in t then t[dst + s].inode else alloc(dst + s);
    match t[src + s]
    case DirNode(_) => DirNode(inode)
    case FileNode(_, content) => FileNode(inode, content)
  }

  // t with the entries of src named by done put over dst.
  function PartialOverlay(t: Tree, src: Path, dst: Path, done: set<Path>, alloc: Path -> nat): (r: Tree)
    requires forall s :: s in done ==> src + s in t
    ensures forall q :: q in r <==> q in t || (dst <= q && q[|dst|..] in done)
    ensures forall q :: q in r ==>
              r[q] == if dst <= q && q[|dst|..] in done then Overlaid(t, src, dst, q[|dst|..], alloc) else t[q]
  {
    var copied := set s | s in done :: dst + s;
    assert forall q :: q in copied <==> dst <= q && q[|dst|..] in done by {
      forall q ensures q in copied <==> dst <= q && q[|dst|..] in done {
        if dst <= q && q[|dst|..] in done {
          SplitPath(dst, q);
        }
      }
    }
    map q | q in t.Keys + copied ::
      if dst <= q && q[|dst|..] in done then Overlaid(t, src, dst, q[|dst|..], alloc) else t[q]
  }

  // Everything below src, as paths relative to it.
  function Descendants(t: Tree, src: Path): (r: set<Path>)
    ensures forall s :: s in r <==> s != [] && src + s in t
  {
    var r := set q | q in t && src < q :: q[|src|..];
    assert forall s :: s != [] && src + s in t ==> s in r by {
      forall s | s != [] && src + s in t ensures s in r {
        assert src < src + s && (src + s)[|src|..] == s;
      }
    }
    assert forall s :: s in r ==> s != [] && src + s in t by {
      forall s | s in r ensures s != [] && src + s in t {
        var q :| q in t && src < q && s == q[|src|..];
        SplitPath(src, q);
      }
    }
    r
  }

  function Overlay(t: Tree, src: Path, dst: Path, alloc: Path -> nat): Tree {
    PartialOverlay(t, src, dst, Descendants(t, src), alloc)
  }

  ghost predicate KindMatches(t: Tree, src: Path, dst: Path, s: Path) {
    src + s in t && dst + s in t ==> t[src + s].DirNode? == t[dst + s].DirNode?
  }

  ghost predicate KindsMatch(t: Tree, src: Path, dst: Path) {
    forall s :: KindMatches(t, src, dst, s)
  }

  // ---- One entry ----

  lemma Apart(src: Path, dst: Path, s: Path)
    requires Unrelated(src, dst)
    ensures !(dst <= src + s) && !(src <= dst + s)
  {
    var n := if |src| <= |dst| then |src| else |dst|;
    assert src[..n] != dst[..n];
    assert (src + s)[..n] == src[..n] && (dst + s)[..n] == dst[..n];
  }

  // Where the walk stands: some entries are done, with them every directory they lie in.
  ghost predicate Ready(t: Tree, src: Path, dst: Path, done: set<Path>, s: Path) {
    && Closed(t) && Unrelated(src, dst) && IsDir(t, dst) && IsDir(t, src)
    && (forall d :: d in done ==> d != [] && src + d in t)
    && s != [] && s !in done && src + s in t
    && (|s| > 1 ==> Parent(s) in done)
  }

  lemma ParentIsDir(t: Tree, src: Path, s: Path)
    requires Closed(t) && s != [] && src + s in t
    ensures IsDir(t, src + Parent(s))
  {
    assert Parent(src + s) == src + Parent(s);
  }

  lemma ParentReady(t: Tree, src: Path, dst: Path, done: set<Path>, s: Path, alloc: Path -> nat)
    requires Ready(t, src, dst, done, s)
    ensures IsDir(PartialOverlay(t, src, dst, done, alloc), Parent(dst + s))
  {
    var r := PartialOverlay(t, src, dst, done, alloc);
    assert Parent(src + s) == src + Parent(s) && Parent(dst + s) == dst + Parent(s);
    ParentIsDir(t, src, s);
    hide Closed;
    if |s| > 1 {
      assert (dst + Parent(s))[|dst|..] == Parent(s);
    } else {
      assert dst + Parent(s) == dst && dst[|dst|..] == [];
    }
  }

  lemma OverlayGrows(t: Tree, src: Path, dst: Path, done: set<Path>, s: Path, alloc: Path -> nat)
    requires forall d :: d in done ==> src + d in t
    requires src + s in t
    ensures PartialOverlay(t, src, dst, done + {s}, alloc)
            == PartialOverlay(t, src, dst, done, alloc)[dst + s := Overlaid(t, src, dst, s, alloc)]
  {
    var r' := PartialOverlay(t, src, dst, done + {s}, alloc);
    var e := PartialOverlay(t, src, dst, done, alloc)[dst + s := Overlaid(t, src, dst, s, alloc)];
    assert (dst + s)[|dst|..] == s;
    forall q: Path ensures (q in r' <==> q in e) && (q in r' ==> r'[q] == e[q]) {
      if dst <= q {
        SplitPath(dst, q);
      }
    }
  }

  lemma EntryCopied(t: Tree, src: Path, dst: Path, done: set<Path>, s: Path, alloc: Path -> nat)
    requires Ready(t, src, dst, done, s)
    ensures var r := PartialOverlay(t, src, dst, done, alloc);
            if KindMatches(t, src, dst, s)
            then CopyEntry(r, src, dst, s, alloc) == (PartialOverlay(t, src, dst, done + {s}, alloc), true)
            else CopyEntry(r, src, dst, s, alloc) == (r, false)
  {
    hide CopyEntry, KindMatches, Closed;
    var r := PartialOverlay(t, src, dst, done, alloc);
    ParentReady(t, src, dst, done, s, alloc);
    Apart(src, dst, s);
    assert src <= src + s && dst <= dst + s;
    assert (dst + s)[|dst|..] == s;
    EntryStep(t, r, src, dst, s, alloc);
    OverlayGrows(t, src, dst, done, s, alloc);
  }

  lemma EntryStep(t: Tree, r: Tree, src: Path, dst: Path, s: Path, alloc: Path -> nat)
    requires s != [] && src + s in t && src + s in r && r[src + s] == t[src + s] && src + s != dst + s
    requires dst + s in r <==> dst + s in t
    requires dst + s in t ==> r[dst + s] == t[dst + s]
    requires IsDir(r, Parent(dst + s))
    ensures CopyEntry(r, src, dst, s, alloc) ==
              if KindMatches(t, src, dst, s) then (r[dst + s := Overlaid(t, src, dst, s, alloc)], true) else (r, false)
  {
    assert MkdirAll(r, Parent(dst + s), alloc) == Some(r);
    if dst + s in r && IsDir(t, src + s) && IsDir(t, dst + s) {
      assert r[dst + s := r[dst + s]] == r;
    }
  }

  // ---- The whole walk ----

  function Done(walk: seq<Rel>, i: nat): set<Path>
    requires i <= |walk|
  {
    set s | s in walk[..i]
  }

  ghost predicate Same(t: Tree, r: Tree, q: Path) {
    (q in r <==> q in t) && (q in t ==> r[q] == t[q])
  }

  lemma NextReady(t: Tree, src: Path, dst: Path, walk: seq<Rel>, i: nat)
    requires Closed(t) && IsDir(t, src) && IsDir(t, dst) && Unrelated(src, dst) && Walks(t, src, walk) && i < |walk|
    ensures Ready(t, src, dst, Done(walk, i), walk[i])
    ensures Done(walk, i + 1) == Done(walk, i) + {walk[i]}
  {
    assert walk[..i + 1] == walk[..i] + [walk[i]];
    forall d | d in Done(walk, i) ensures d != [] && src + d in t && d != walk[i] {
      var k :| 0 <= k < i && walk[k] == d;
      assert walk[k] in walk;
    }
    assert walk[i] in walk;
  }

  lemma {:induction false} EntriesCopied(t: Tree, src: Path, dst: Path, walk: seq<Rel>, i: nat, alloc: Path -> nat)
    requires Closed(t) && IsDir(t, src) && IsDir(t, dst) && Unrelated(src, dst) && Walks(t, src, walk)
    requires i <= |walk|
    requires forall s :: s in Done(walk, i) ==> src + s in t
    ensures forall s :: s in Done(walk, |walk|) ==> src + s in t
    ensures var (r, ok) := CopyEntries(PartialOverlay(t, src, dst, Done(walk, i), alloc), src, dst, walk[i..], alloc);
            && (ok <==> forall k :: i <= k < |walk| ==> KindMatches(t, src, dst, walk[k]))
            && (ok ==> r == PartialOverlay(t, src, dst, Done(walk, |walk|), alloc))
            && (forall q :: !(dst <= q) ==> Same(t, r, q))
    decreases |walk| - i
  {
    hide KindMatches, Closed, CopyEntry, Walks, Ready;
    if i < |walk| {
      var s := walk[i];
      assert walk[i..][0] == s && walk[i..][1..] == walk[i + 1..];
      NextReady(t, src, dst, walk, i);
      StillThere(t, src, dst, Done(walk, i), s);
      EntryCopied(t, src, dst, Done(walk, i), s, alloc);
      EntriesCopied(t, src, dst, walk, i + 1, alloc);
      assert (forall k :: i <= k < |walk| ==> KindMatches(t, src, dst, walk[k])) <==>
             KindMatches(t, src, dst, s) && forall k :: i + 1 <= k < |walk| ==> KindMatches(t, src, dst, walk[k]);
    }
  }

  lemma StillThere(t: Tree, src: Path, dst: Path, done: set<Path>, s: Path)
    requires Ready(t, src, dst, done, s)
    ensures forall d :: d in done + {s} ==> src + d in t
  {
  }

  lemma WalkIsBelow(t: Tree, src: Path, dst: Path, walk: seq<Rel>)
    requires Walks(t, src, walk) && IsDir(t, src) && IsDir(t, dst)
    ensures Done(walk, |walk|) == Descendants(t, src)
    ensures (forall k :: 0 <= k < |walk| ==> KindMatches(t, src, dst, walk[k])) <==> KindsMatch(t, src, dst)
  {
    assert walk[..|walk|] == walk;
    forall s: Path ensures s in Done(walk, |walk|) <==> s in Descendants(t, src) {
      if s != [] {
        var r: Rel := s;
        assert r in walk <==> src + r in t;
      }
    }
    if forall k :: 0 <= k < |walk| ==> KindMatches(t, src, dst, walk[k]) {
      forall s ensures KindMatches(t, src, dst, s) {
        if s == [] {
          assert src + s == src && dst + s == dst;
        } else if src + s in t {
          var r: Rel := s;
          assert r in walk;
          var k :| 0 <= k < |walk| && walk[k] == r;
          assert KindMatches(t, src, dst, walk[k]);
        }
      }
    }
  }

  // Making the destination changes neither the source nor what there is to match.
  lemma DestinationMade(t: Tree, src: Path, dst: Path, walk: seq<Rel>, alloc: Path -> nat)
    requires Closed(t) && IsDir(t, src) && Unrelated(src, dst) && Walks(t, src, walk)
    requires MkdirAll(t, dst, alloc).Some?
    ensures var t1 := MkdirAll(t, dst, alloc).value;
            && Closed(t1) && IsDir(t1, src) && IsDir(t1, dst) && Walks(t1, src, walk)
            && (KindsMatch(t1, src, dst) <==> KindsMatch(t, src, dst))
            && (forall s :: src + s in t1 <==> src + s in t)
  {
    MkdirAllCreates(t, dst, alloc);
    MkdirAllKeepsClosed(t, dst, alloc);
    var t1 := MkdirAll(t, dst, alloc).value;
    forall s: Path ensures src + s in t1 <==> src + s in t {
      Apart(src, dst, s);
      assert src <= src + s;
    }
    forall s: Path | dst + s in t1 && dst + s !in t ensures s == [] {
      assert dst + s <= dst;
    }
    forall s ensures KindMatches(t1, src, dst, s) <==> KindMatches(t, src, dst, s) {
      if s == [] {
        assert src + s == src && dst + s == dst;
      }
    }
    assert KindsMatch(t1, src, dst) <==> KindsMatch(t, src, dst);
  }

  // A file is in the way of the destination, or is the destination.
  predicate FileInTheWay(t: Tree, dst: Path) {
    exists k :: 0 <= k <= |dst| && IsFile(t, dst[..k])
  }

  // Copying a directory to a place neither at, above nor below it succeeds exactly when no file is in
  // the way and kinds match where the two overlap. It then makes the destination the old one overlaid
  // by the source; and whether it succeeds or not, the source and everything else outside the
  // destination stay as they are, apart from the directories on the way to the destination.
  lemma CopyOverlays(t: Tree, src: Path, dst: Path, walk: seq<Rel>, alloc: Path -> nat)
    requires Closed(t) && IsDir(t, src) && Unrelated(src, dst) && Walks(t, src, walk)
    ensures var (r, ok) := CopyDir(t, src, dst, walk, alloc);
            && (ok <==> !FileInTheWay(t, dst) && KindsMatch(t, src, dst))
            && (ok ==> r == Overlay(MkdirAll(t, dst, alloc).value, src, dst, alloc))
            && (forall q :: !(q <= dst) && !(dst <= q) ==> Same(t, r, q))
            && (forall s :: Same(t, r, src + s))
  {
    hide Closed, KindsMatch, Walks, KindMatches, FileInTheWay;
    MkdirAllCreates(t, dst, alloc);
    FileInTheWayMeaning(t, dst, alloc);
    if MkdirAll(t, dst, alloc).Some? {
      var t1 := MkdirAll(t, dst, alloc).value;
      DestinationMade(t, src, dst, walk, alloc);
      assert Done(walk, 0) == {};
      assert PartialOverlay(t1, src, dst, {}, alloc) == t1;
      assert walk[0..] == walk;
      EntriesCopied(t1, src, dst, walk, 0, alloc);
      WalkIsBelow(t1, src, dst, walk);
      var r := CopyDir(t, src, dst, walk, alloc).0;
      forall s ensures Same(t, r, src + s) {
        Apart(src, dst, s);
        assert Same(t1, r, src + s);
      }
      forall q | !(q <= dst) && !(dst <= q) ensures Same(t, r, q) {
        assert Same(t1, r, q);
      }
    }
  }

  // What the overlay holds: every entry of the source is there, a directory as a directory and a file as
  // a file with the same content; what was there keeps its inode, and what the source does not have
  // stays as it was.
  lemma CopySpelled(t: Tree, src: Path, dst: Path, walk: seq<Rel>, alloc: Path -> nat, s: Path)
    requires Closed(t) && IsDir(t, src) && Unrelated(src, dst) && Walks(t, src, walk)
    requires CopyDir(t, src, dst, walk, alloc).1
    ensures var r := CopyDir(t, src, dst, walk, alloc).0;
            && (src + s in t ==>
                  && dst + s in r
                  && (t[src + s].DirNode? ==> r[dst + s].DirNode?)
                  && (t[src + s].FileNode? ==> r[dst + s].FileNode? && r[dst + s].content == t[src + s].content)
                  && r[dst + s].inode == if dst + s in t then t[dst + s].inode else alloc(dst + s))
            && (src + s !in t ==> Same(t, r, dst + s))
  {
    hide Closed, Walks, FileInTheWay, CopyDir, Overlay, KindsMatch, MkdirAll;
    CopyOverlays(t, src, dst, walk, alloc);
    FileInTheWayMeaning(t, dst, alloc);
    DestinationMade(t, src, dst, walk, alloc);
    var t1 := MkdirAll(t, dst, alloc).value;
    Apart(src, dst, s);
    MadeOnlyAbove(t, src, dst, s, alloc);
    OverlayAt(t1, src, dst, s, alloc);
  }

  // Making dst touches neither the source nor anything below dst.
  lemma MadeOnlyAbove(t: Tree, src: Path, dst: Path, s: Path, alloc: Path -> nat)
    requires Closed(t) && Unrelated(src, dst) && MkdirAll(t, dst, alloc).Some?
    ensures var t1 := MkdirAll(t, dst, alloc).value;
            && Same(t, t1, src + s) && (s != [] ==> Same(t, t1, dst + s))
            && (dst in t ==> t1[dst] == t[dst]) && IsDir(t1, dst)
            && (dst !in t ==> t1[dst] == DirNode(alloc(dst)))
  {
    MkdirAllCreates(t, dst, alloc);
    MkdirAllKeepsClosed(t, dst, alloc);
    Apart(src, dst, s);
    assert src <= src + s;
    assert s != [] ==> !(dst + s <= dst);
  }

  lemma OverlayAt(t: Tree, src: Path, dst: Path, s: Path, alloc: Path -> nat)
    requires IsDir(t, src) && IsDir(t, dst)
    ensures var r := Overlay(t, src, dst, alloc);
            if s != [] && src + s in t then dst + s in r && r[dst + s] == Overlaid(t, src, dst, s, alloc)
            else Same(t, r, dst + s)
    ensures src + [] == src && dst + [] == dst
  {
    assert (dst + s)[|dst|..] == s;
  }

  lemma FileInTheWayMeaning(t: Tree, dst: Path, alloc: Path -> nat)
    requires Closed(t)
    ensures FileInTheWay(t, dst) <==> MkdirAll(t, dst, alloc).None?
  {
    MkdirAllCreates(t, dst, alloc);
  }

  // ---- What a copy never touches ----

  // Any copy, also one that fails half-way, leaves a tree, and leaves alone what is neither above nor
  // below its destination.
  ghost predicate CopyConfined(t: Tree, r: Tree, dst: Path) {
    Closed(r) && forall q :: Unrelated(q, dst) ==> Same(t, r, q)
  }

  lemma MkdirConfined(t: Tree, p: Path, dst: Path, alloc: Path -> nat)
    requires Closed(t) && (dst <= p || p <= dst)
    ensures MkdirAll(t, p, alloc).Some? ==> CopyConfined(t, MkdirAll(t, p, alloc).value, dst)
  {
    MkdirAllCreates(t, p, alloc);
    if MkdirAll(t, p, alloc).Some? {
      MkdirAllKeepsClosed(t, p, alloc);
      var r := MkdirAll(t, p, alloc).value;
      forall q | Unrelated(q, dst) ensures Same(t, r, q) {
      }
    }
  }

  lemma FileConfined(t: Tree, src: Path, p: Path, dst: Path, alloc: Path -> nat)
    requires Closed(t) && dst <= p && p != []
    ensures CopyConfined(t, CopyFile(t, src, p, alloc).0, dst)
  {
    var up := Parent(p);
    assert dst <= up || up <= dst;
    MkdirConfined(t, up, dst, alloc);
    if MkdirAll(t, up, alloc).Some? {
      MkdirAllKeepsClosed(t, up, alloc);
    }
  }

  lemma EntryConfined(t: Tree, src: Path, dst: Path, rel: Path, alloc: Path -> nat)
    requires Closed(t) && rel != []
    ensures CopyConfined(t, CopyEntry(t, src, dst, rel, alloc).0, dst)
  {
    MkdirConfined(t, dst + rel, dst, alloc);
    FileConfined(t, src + rel, dst + rel, dst, alloc);
  }

  lemma {:induction false} EntriesConfined(t: Tree, src: Path, dst: Path, walk: seq<Rel>, alloc: Path -> nat)
    requires Closed(t)
    ensures CopyConfined(t, CopyEntries(t, src, dst, walk, alloc).0, dst)
    decreases |walk|
  {
    if walk != [] {
      hide CopyEntry, Closed, Unrelated;
      var t1 := CopyEntry(t, src, dst, walk[0], alloc).0;
      EntryConfined(t, src, dst, walk[0], alloc);
      EntriesConfined(t1, src, dst, walk[1..], alloc);
    }
  }

  lemma DirConfined(t: Tree, src: Path, dst: Path, walk: seq<Rel>, alloc: Path -> nat)
    requires Closed(t)
    ensures CopyConfined(t, CopyDir(t, src, dst, walk, alloc).0, dst)
  {
    hide Closed, Unrelated;
    MkdirConfined(t, dst, dst, alloc);
    if MkdirAll(t, dst, alloc).Some? {
      EntriesConfined(MkdirAll(t, dst, alloc).value, src, dst, walk, alloc);
    }
  }
}
