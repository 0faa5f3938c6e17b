// The breadcrumb list of a directory: the directories from the user's root down to it.
module Breadcrumbs {
  import opened FileDomain
  import opened Text
  import opened Paths

  datatype Info = Info(inode: nat, isDir: bool)

  // What can be statted, by clean absolute path.
  type Dirs = map<string, Info>

  datatype Crumb = Crumb(path: string, info: Info)

  datatype Result = Nodes(nodes: seq<Crumb>) | NotFound | NotADirectory | StatError

  lemma TopOfEmpty()
    ensures Dir("/") == "/" && Dir(".") == "." && Clean("") == "."
  {
    ReadEmpty();
    CutName("", ".");
    assert Split("") == [""] && Segs("") == Fold(Push([], "", false), [], false);
  }

  // The parent of a path with one name.
  lemma TopPops(name: string, rooted: bool)
    requires '/' !in name
    ensures Dir(Render(rooted, [name])) == Render(rooted, [])
  {
    hide Segs, Fold, Split, Normal, Clean;
    TopOfEmpty();
    CutName(if rooted then "/" else "", name);
    CutName("/", "");
    assert "" + name == name;
    assert Render(rooted, [name]) == (if rooted then "/" else "") + name;
  }

  // The parent of a path with more than one.
  lemma DeepPops(init: seq<string>, last: string, rooted: bool)
    requires init != [] && '/' !in last && Normal(init, rooted)
    ensures Dir(Render(rooted, init + [last])) == Render(rooted, init)
  {
    hide Split, Normal, Join;
    var above := Render(rooted, init);
    JoinLast(init, last, rooted);
    CutName(above + "/", last);
    RenderRead(rooted, init);
    NotEmpty(init, rooted);
    SlashAtEnd(above);
  }

  lemma NotEmpty(init: seq<string>, rooted: bool)
    requires init != [] && Normal(init, rooted)
    ensures Render(rooted, init) != ""
  {
    assert Plain(init[0]) || DotDot(init[0]);
    JoinStart(init);
  }

  lemma SlashAtEnd(s: string)
    requires s != ""
    ensures Clean(s + "/") == Clean(s)
  {
    assert s + "/" == s + "/" + "";
    JoinSegs(s, "");
    assert Split("") == [""];
    assert Fold(Segs(s), [""], Rooted(s)) == Fold(Push(Segs(s), "", Rooted(s)), [], Rooted(s));
  }

  // The path above a clean path has one name less.
  lemma DirPops(s: string)
    requires Clean(s) == s
    ensures Segs(Dir(s)) == if Segs(s) == [] then [] else Segs(s)[..|Segs(s)| - 1]
    ensures Rooted(Dir(s)) == Rooted(s) && Clean(Dir(s)) == Dir(s)
    ensures Dir(s) == Render(Rooted(s), Segs(Dir(s)))
  {
    hide Fold, Split, Dir;
    var segs, rooted := Segs(s), Rooted(s);
    SegsNormal(s);
    if segs == [] {
      TopOfEmpty();
      ReadEmpty();
      assert s == if rooted then "/" else ".";
    } else {
      var n := |segs| - 1;
      var init, last := segs[..n], segs[n];
      assert segs == init + [last];
      assert '/' !in last by { assert Plain(last) || DotDot(last); }
      NormalInit(segs, rooted);
      RenderRead(rooted, init);
      if n == 0 {
        assert segs == [last] && init == [];
        TopPops(last, rooted);
      } else {
        DeepPops(init, last, rooted);
      }
    }
  }

  lemma NormalInit(segs: seq<string>, rooted: bool)
    requires Normal(segs, rooted) && segs != []
    ensures Normal(segs[..|segs| - 1], rooted)
    ensures |segs| > 1 ==> segs[0] != ""
  {
    assert Plain(segs[0]) || DotDot(segs[0]);
  }

  lemma JoinLast(init: seq<string>, last: string, rooted: bool)
    requires init != []
    ensures Render(rooted, init + [last]) == Render(rooted, init) + "/" + last
  {
    JoinConcat(init, [last]);
  }

  lemma {:induction false} CutName(a: string, name: string)
    requires '/' !in name && (a == "" || a[|a| - 1] == '/')
    ensures UpToSlash(a + name) == a
    decreases |name|
  {
    if name == "" {
      assert a + name == a;
    } else {
      var s := a + name;
      assert name[|name| - 1] in name && s[|s| - 1] == name[|name| - 1];
      assert s[..|s| - 1] == a + name[..|name| - 1];
      CutName(a, name[..|name| - 1]);
    }
  }

  // ---- The climb ----

  // The paths visited from current upwards, the last one first.
  function Climb(current: string, userRoot: string): (r: seq<string>)
    requires Clean(current) == current
    ensures r != [] && r[|r| - 1] == current
    decreases |Segs(current)|
  {
    var parent := Dir(current);
    DirPops(current);
    if current == userRoot || parent == current || !HasPrefix(parent, userRoot) then [current]
    else
      assert Segs(current) != [];
      Climb(parent, userRoot) + [current]
  }

  // The nodes of the paths visited, if all of them can be statted.
  function Listing(tree: Dirs, current: string, userRoot: string): Option<seq<Crumb>>
    requires Clean(current) == current
    decreases |Segs(current)|
  {
    var parent := Dir(current);
    DirPops(current);
    if current !in tree then None
    else if current == userRoot || parent == current || !HasPrefix(parent, userRoot)
    then Some([Crumb(current, tree[current])])
    else
      assert Segs(current) != [];
      Before(Listing(tree, parent, userRoot), [Crumb(current, tree[current])])
  }

  function Before(nodes: Option<seq<Crumb>>, more: seq<Crumb>): Option<seq<Crumb>> {
    if nodes.None? then None else Some(nodes.value + more)
  }

  method GetFolderNodePath(tree: Dirs, userRoot: string, reqPath: string) returns (r: Result)
    ensures Clean(Clean(reqPath)) == Clean(reqPath)
    ensures var target := Clean(reqPath);
            r == if target !in tree then NotFound
                 else if !tree[target].isDir then NotADirectory
                 else match Listing(tree, target, userRoot)
                   case None => StatError
                   case Some(nodes) => Nodes(nodes)
  {
    hide Clean, Segs, Dir;
    var targetAbs := Clean(reqPath);
    CleanIdempotent(reqPath);
    if targetAbs !in tree {
      return NotFound;
    }
    if !tree[targetAbs].isDir {
      return NotADirectory;
    }
    var nodes := [];
    var current := targetAbs;
    ghost var goal := Listing(tree, targetAbs, userRoot);
    assert goal.Some? ==> goal.value + nodes == goal.value;
    while true
      invariant Clean(current) == current
      invariant goal == Before(Listing(tree, current, userRoot), nodes)
      decreases |Segs(current)|
    {
      if current !in tree {
        return StatError;
      }
      ghost var below := nodes;
      nodes := [Crumb(current, tree[current])] + nodes;
      if current == userRoot {
        break;
      }
      var parent := Dir(current);
      DirPops(current);
      if parent == current || !HasPrefix(parent, userRoot) {
        break;
      }
      BeforeBefore(Listing(tree, parent, userRoot), [Crumb(current, tree[current])], below);
      NotTop(current);
      current := parent;
    }
    return Nodes(nodes);
  }

  lemma BeforeBefore(nodes: Option<seq<Crumb>>, a: seq<Crumb>, b: seq<Crumb>)
    ensures Before(Before(nodes, a), b) == Before(nodes, a + b)
  {
    if nodes.Some? {
      assert nodes.value + a + b == nodes.value + (a + b);
    }
  }

  lemma NotTop(s: string)
    requires Clean(s) == s && Dir(s) != s
    ensures Segs(s) != []
  {
    DirPops(s);
  }

  // Whatever is in the tree lies in a directory of the tree.
  ghost predicate ParentClosed(tree: Dirs) {
    forall p :: p in tree ==> Clean(p) == p && Dir(p) in tree && tree[Dir(p)].isDir
  }

  // In a tree every call on a directory succeeds, and lists directories: those of the climb.
  lemma {:induction false} ListingSucceeds(tree: Dirs, current: string, userRoot: string)
    requires ParentClosed(tree) && current in tree && tree[current].isDir
    ensures Clean(current) == current && Listing(tree, current, userRoot).Some?
    ensures var nodes, paths := Listing(tree, current, userRoot).value, Climb(current, userRoot);
            && |nodes| == |paths|
            && forall k :: 0 <= k < |nodes| ==>
                 paths[k] in tree && tree[paths[k]].isDir && nodes[k] == Crumb(paths[k], tree[paths[k]])
    decreases |Segs(current)|
  {
    hide Segs, Dir;
    var parent := Dir(current);
    DirPops(current);
    if !(current == userRoot || parent == current || !HasPrefix(parent, userRoot)) {
      NotTop(current);
      ListingSucceeds(tree, parent, userRoot);
    }
  }

  // ---- What the climb visits ----

  // The paths of the names T[..n], T[..n + 1], ..., T.
  function Ancestors(rooted: bool, names: seq<string>, n: nat): (r: seq<string>)
    requires n <= |names|
    ensures |r| == |names| - n + 1
    ensures forall k :: 0 <= k < |r| ==> r[k] == Render(rooted, names[..n + k])
  {
    seq(|names| - n + 1, k requires 0 <= k <= |names| - n => Render(rooted, names[..n + k]))
  }

  lemma PrefixKept(rooted: bool, root: seq<string>, names: seq<string>)
    requires root <= names && root != []
    ensures HasPrefix(Render(rooted, names), Render(rooted, root))
  {
    if root < names {
      assert names == root + names[|root|..];
      JoinConcat(root, names[|root|..]);
    } else {
      assert root == names;
    }
  }

  // For a directory at or under the user root the list is exactly the directories from the root down
  // to it, in order, each the parent of the next.
  lemma {:induction false} ClimbIsAncestors(current: string, userRoot: string)
    requires Clean(current) == current && Clean(userRoot) == userRoot && Segs(userRoot) != []
    requires Rooted(current) == Rooted(userRoot) && Segs(userRoot) <= Segs(current)
    ensures Climb(current, userRoot) == Ancestors(Rooted(current), Segs(current), |Segs(userRoot)|)
    decreases |Segs(current)|
  {
    hide Segs, Dir, Rooted;
    var rooted, names, root := Rooted(current), Segs(current), Segs(userRoot);
    if names == root {
      assert current == userRoot;
      assert Ancestors(rooted, names, |root|) == [Render(rooted, names)] by { assert names[..|names|] == names; }
    } else {
      var parent := Dir(current);
      DirPops(current);
      assert root <= Segs(parent);
      PrefixKept(rooted, root, Segs(parent));
      assert Segs(parent) != names && parent != current;
      ClimbIsAncestors(parent, userRoot);
      assert names == Segs(parent) + [names[|names| - 1]];
      OneMoreAncestor(rooted, Segs(parent), names[|names| - 1], |root|);
      assert current != userRoot;
    }
  }

  lemma OneMoreAncestor(rooted: bool, names: seq<string>, name: string, n: nat)
    requires n <= |names|
    ensures Ancestors(rooted, names + [name], n) == Ancestors(rooted, names, n) + [Render(rooted, names + [name])]
  {
    var all := names + [name];
    var l, r := Ancestors(rooted, all, n), Ancestors(rooted, names, n) + [Render(rooted, all)];
    forall k | 0 <= k < |l| ensures l[k] == r[k] {
      if k < |l| - 1 {
        assert all[..n + k] == names[..n + k];
      } else {
        assert all[..n + k] == all;
      }
    }
  }

  ghost predicate ParentBefore(paths: seq<string>, k: nat)
    requires 0 < k < |paths|
  {
    Dir(paths[k]) == paths[k - 1]
  }

  // So the first node is the user root, each is the parent of the next, and their number is the depth
  // of the directory below the root plus one.
  lemma BreadcrumbChain(current: string, userRoot: string)
    requires Clean(current) == current && Clean(userRoot) == userRoot && Segs(userRoot) != []
    requires Rooted(current) == Rooted(userRoot) && Segs(userRoot) <= Segs(current)
    ensures var paths := Climb(current, userRoot);
            && paths[0] == userRoot && paths[|paths| - 1] == current
            && |paths| == |Segs(current)| - |Segs(userRoot)| + 1
            && forall k: nat :: 0 < k < |paths| ==> ParentBefore(paths, k)
  {
    hide Segs, Dir, Rooted, Climb, Normal, Render, ParentBefore;
    var rooted, names, n := Rooted(current), Segs(current), |Segs(userRoot)|;
    ClimbIsAncestors(current, userRoot);
    SegsNormal(current);
    assert Render(rooted, names) == current && Render(rooted, Segs(userRoot)) == userRoot by {
      CleanParts(current, userRoot);
    }
    assert names[..n] == Segs(userRoot) && names[..|names|] == names;
    forall k: nat | 0 < k < |Climb(current, userRoot)| ensures ParentBefore(Climb(current, userRoot), k) {
      AncestorsChain(rooted, names, n, k);
    }
  }

  lemma CleanParts(s: string, root: string)
    requires Clean(s) == s && Clean(root) == root && Rooted(s) == Rooted(root)
    ensures Render(Rooted(s), Segs(s)) == s && Render(Rooted(s), Segs(root)) == root
  {
  }

  lemma AncestorsChain(rooted: bool, names: seq<string>, n: nat, k: nat)
    requires Normal(names, rooted) && 0 < k <= |names| - n
    ensures ParentBefore(Ancestors(rooted, names, n), k)
  {
    hide Dir, Normal, Render;
    ParentOfNames(rooted, names, n + k);
  }

  lemma ParentOfNames(rooted: bool, names: seq<string>, m: nat)
    requires Normal(names, rooted) && 0 < m <= |names|
    ensures Dir(Render(rooted, names[..m])) == Render(rooted, names[..m - 1])
  {
    hide Segs, Dir, Rooted;
    var up := names[..m];
    RenderRead(rooted, up);
    DirPops(Render(rooted, up));
    assert up[..m - 1] == names[..m - 1];
  }

  lemma {:induction false} ClimbVisits(current: string, userRoot: string, p: string)
    requires Clean(current) == current && p in Climb(current, userRoot)
    ensures Clean(p) == p && Rooted(p) == Rooted(current) && Segs(p) <= Segs(current)
    decreases |Segs(current)|
  {
    if p != current {
      DirPops(current);
      ClimbVisits(Dir(current), userRoot, p);
    }
  }

  // The list starts at the user root exactly when the directory is at or under it; a path that only
  // shares leading characters with the root never makes it so.
  lemma StartsAtRoot(current: string, userRoot: string)
    requires Clean(current) == current && Clean(userRoot) == userRoot && Segs(userRoot) != []
    ensures Climb(current, userRoot)[0] == userRoot <==>
            Rooted(current) == Rooted(userRoot) && Segs(userRoot) <= Segs(current)
  {
    hide Segs, Rooted, Clean, Climb;
    if Climb(current, userRoot)[0] == userRoot {
      ClimbVisits(current, userRoot, userRoot);
    }
    if Rooted(current) == Rooted(userRoot) && Segs(userRoot) <= Segs(current) {
      BreadcrumbChain(current, userRoot);
    }
  }
}
