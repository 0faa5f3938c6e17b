// Unix paths as package path/filepath treats them: cleaning, joining, parents and relative paths, all
// of them functions of the text alone.
module Paths {
  import opened FileDomain
  import opened Text

  predicate Dot(s: string) {
    |s| == 1 && s[0] == '.'
  }

  predicate DotDot(s: string) {
    |s| == 2 && s[0] == '.' && s[1] == '.'
  }

  // A name that can lie in a directory.
  predicate Plain(s: string) {
    s != "" && '/' !in s && !Dot(s) && !DotDot(s)
  }

  predicate AllPlain(p: seq<string>) {
    forall k :: 0 <= k < |p| ==> Plain(p[k])
  }

  function Rooted(s: string): bool {
    s != "" && s[0] == '/'
  }

  // ---- Cleaning ----

  function Split(s: string): (r: seq<string>)
    ensures r != [] && forall k :: 0 <= k < |r| ==> '/' !in r[k]
  {
    if s == "" then [""]
    else
      var rest := Split(s[1..]);
      if s[0] == '/' then [""] + rest else [[s[0]] + rest[0]] + rest[1..]
  }

  function Push(stack: seq<string>, seg: string, rooted: bool): seq<string> {
    var n := |stack|;
    if seg == "" || Dot(seg) then stack
    else if !DotDot(seg) then stack + [seg]
    else if n > 0 && !DotDot(stack[n - 1]) then stack[..n - 1]
    else if rooted then stack
    else stack + [seg]
  }

  function Fold(stack: seq<string>, segs: seq<string>, rooted: bool): seq<string>
    decreases |segs|
  {
    if segs == [] then stack else Fold(Push(stack, segs[0], rooted), segs[1..], rooted)
  }

  // The names a path goes through once "." and ".." are taken out.
  function Segs(s: string): seq<string> {
    Fold([], Split(s), Rooted(s))
  }

  function Render(rooted: bool, segs: seq<string>): string {
    if rooted then "/" + Join(segs, "/") else if segs == [] then "." else Join(segs, "/")
  }

  // filepath.Clean.
  function Clean(s: string): string {
    Render(Rooted(s), Segs(s))
  }

  // filepath.Join of two elements.
  function Join2(a: string, b: string): string {
    if a == "" then (if b == "" then "" else Clean(b)) else Clean(a + "/" + b)
  }

  // filepath.Dir: the text up to the last slash, cleaned.
  function Dir(s: string): string {
    Clean(UpToSlash(s))
  }

  function UpToSlash(s: string): string {
    if s == "" || s[|s| - 1] == '/' then s else UpToSlash(s[..|s| - 1])
  }

  // strings.HasPrefix.
  predicate HasPrefix(s: string, prefix: string) {
    prefix <= s
  }

  function CommonLength(a: seq<string>, b: seq<string>): (n: nat)
    ensures n <= |a| && n <= |b| && a[..n] == b[..n]
    ensures n < |a| && n < |b| ==> a[n] != b[n]
  {
    if a == [] || b == [] || a[0] != b[0] then 0
    else
      var n := 1 + CommonLength(a[1..], b[1..]);
      assert a[..n] == [a[0]] + a[1..][..n - 1] && b[..n] == [b[0]] + b[1..][..n - 1];
      n
  }

  function Ups(n: nat): seq<string> {
    seq(n, _ => "..")
  }

  // filepath.Rel.
  function Rel(base: string, target: string): Option<string> {
    if Clean(base) == Clean(target) then Some(".")
    else if Rooted(base) != Rooted(target) then None
    else
      var b := Segs(base);
      var t := if Segs(target) == [] && !Rooted(target) then ["."] else Segs(target);
      var n := CommonLength(b, t);
      if n < |b| && DotDot(b[n]) then None
      else Some(Join(Ups(|b| - n) + t[n..], "/"))
  }

  // ---- What cleaning leaves ----

  // Names, below leading ".." elements when the path is relative.
  ghost predicate Normal(segs: seq<string>, rooted: bool) {
    forall k :: 0 <= k < |segs| ==>
      || Plain(segs[k])
      || (DotDot(segs[k]) && !rooted && forall j :: 0 <= j < k ==> DotDot(segs[j]))
  }

  lemma {:induction false} FoldConcat(stack: seq<string>, a: seq<string>, b: seq<string>, rooted: bool)
    ensures Fold(stack, a + b, rooted) == Fold(Fold(stack, a, rooted), b, rooted)
    decreases |a|
  {
    if a == [] {
      assert a + b == b;
    } else {
      assert (a + b)[1..] == a[1..] + b;
      FoldConcat(Push(stack, a[0], rooted), a[1..], b, rooted);
    }
  }

  lemma {:induction false} FoldNormal(stack: seq<string>, segs: seq<string>, rooted: bool)
    requires Normal(stack, rooted) && forall k :: 0 <= k < |segs| ==> '/' !in segs[k]
    ensures Normal(Fold(stack, segs, rooted), rooted)
    decreases |segs|
  {
    if segs != [] {
      PushNormal(stack, segs[0], rooted);
      FoldNormal(Push(stack, segs[0], rooted), segs[1..], rooted);
    }
  }

  lemma PushNormal(stack: seq<string>, seg: string, rooted: bool)
    requires Normal(stack, rooted) && '/' !in seg
    ensures Normal(Push(stack, seg, rooted), rooted)
  {
    if DotDot(seg) && stack != [] && DotDot(stack[|stack| - 1]) {
      assert forall j :: 0 <= j < |stack| ==> DotDot(stack[j]);
    }
  }

  // Folding names that are normal already only adds them.
  lemma {:induction false} FoldKeeps(stack: seq<string>, segs: seq<string>, rooted: bool)
    requires Normal(stack + segs, rooted)
    ensures Fold(stack, segs, rooted) == stack + segs
    decreases |segs|
  {
    if segs == [] {
      assert stack + segs == stack;
    } else {
      var n := |stack|;
      assert (stack + segs)[n] == segs[0];
      if DotDot(segs[0]) && n > 0 {
        assert (stack + segs)[n - 1] == stack[n - 1];
      }
      assert Push(stack, segs[0], rooted) == stack + [segs[0]];
      assert stack + [segs[0]] + segs[1..] == stack + segs;
      FoldKeeps(stack + [segs[0]], segs[1..], rooted);
    }
  }

  lemma SegsNormal(s: string)
    ensures Normal(Segs(s), Rooted(s))
  {
    FoldNormal([], Split(s), Rooted(s));
  }

  // ---- Splitting and joining ----

  lemma {:induction false} SplitConcat(a: string, b: string)
    ensures Split(a + "/" + b) == Split(a) + Split(b)
    decreases |a|
  {
    var s := a + "/" + b;
    if a == "" {
      assert s[1..] == b;
    } else {
      assert s[1..] == a[1..] + "/" + b && s[0] == a[0];
      SplitConcat(a[1..], b);
    }
  }

  lemma {:induction false} SplitName(s: string)
    requires '/' !in s
    ensures Split(s) == [s]
    decreases |s|
  {
    if s != "" {
      SplitName(s[1..]);
      assert [s[0]] + s[1..] == s;
    }
  }

  lemma {:induction false} SplitJoin(p: seq<string>)
    requires p != [] && forall k :: 0 <= k < |p| ==> '/' !in p[k]
    ensures Split(Join(p, "/")) == p
    decreases |p|
  {
    SplitName(p[0]);
    if |p| > 1 {
      SplitJoin(p[1..]);
      SplitConcat(p[0], Join(p[1..], "/"));
      assert p == [p[0]] + p[1..];
    } else {
      assert p == [p[0]];
    }
  }

  lemma {:induction false} JoinConcat(a: seq<string>, b: seq<string>)
    requires a != [] && b != []
    ensures Join(a + b, "/") == Join(a, "/") + "/" + Join(b, "/")
    decreases |a|
  {
    if |a| == 1 {
      assert (a + b)[1..] == b;
    } else {
      assert (a + b)[1..] == a[1..] + b;
      JoinConcat(a[1..], b);
    }
  }

  lemma JoinStart(p: seq<string>)
    requires p != [] && p[0] != ""
    ensures Join(p, "/") != "" && Join(p, "/")[0] == p[0][0]
  {
  }

  // ---- Rendering and reading back ----

  lemma RenderRead(rooted: bool, segs: seq<string>)
    requires Normal(segs, rooted)
    ensures Rooted(Render(rooted, segs)) == rooted && Segs(Render(rooted, segs)) == segs
  {
    var s := Render(rooted, segs);
    assert [] + segs == segs;
    FoldKeeps([], segs, rooted);
    if segs == [] {
      assert s == (if rooted then "/" else ".");
      ReadEmpty();
    } else {
      assert Plain(segs[0]) || DotDot(segs[0]);
      JoinStart(segs);
      SplitJoin(segs);
      if rooted {
        ReadRooted(segs, Join(segs, "/"));
      }
    }
  }

  lemma ReadRooted(segs: seq<string>, s: string)
    requires Split(s) == segs
    ensures Segs("/" + s) == Fold([], segs, true)
  {
    SplitConcat("", s);
    assert "" + "/" + s == "/" + s;
    assert Split("") == [""];
    FoldConcat([], [""], segs, true);
    assert Fold([], [""], true) == Fold(Push([], "", true), [""][1..], true);
  }

  lemma ReadEmpty()
    ensures Segs("/") == [] && Segs(".") == [] && Rooted("/") && !Rooted(".")
  {
    SplitName("");
    SplitName(".");
    SplitConcat("", "");
    assert "" + "/" + "" == "/";
    FoldConcat([], [""], [""], true);
    assert Fold([], [""], true) == [];
    assert Fold([], ["."], false) == Fold(Push([], ".", false), ["."][1..], false);
  }

  // Cleaning is idempotent, and clean paths are determined by their names.
  lemma CleanIdempotent(s: string)
    ensures Clean(Clean(s)) == Clean(s)
    ensures Segs(Clean(s)) == Segs(s) && Rooted(Clean(s)) == Rooted(s)
  {
    SegsNormal(s);
    RenderRead(Rooted(s), Segs(s));
  }

  // Joining goes on from the names of the first path with the elements of the second.
  lemma JoinSegs(a: string, b: string)
    requires a != ""
    ensures Rooted(a + "/" + b) == Rooted(a)
    ensures Segs(a + "/" + b) == Fold(Segs(a), Split(b), Rooted(a))
  {
    SplitConcat(a, b);
    FoldConcat([], Split(a), Split(b), Rooted(a));
  }

  // What cleaning means, element by element: a name goes below, "." and a doubled or trailing slash
  // change nothing, and ".." goes up one name; at the top of a rooted path it stays, and where a
  // relative path has no name left to take back it is kept.
  lemma CleanByElement(s: string, name: string)
    requires s != "" && '/' !in name
    ensures var names, next := Segs(s), Segs(s + "/" + name);
            && (Plain(name) ==> next == names + [name])
            && (name == "" || name == "." ==> next == names)
            && (name == ".." && names != [] && names[|names| - 1] != ".." ==> next == names[..|names| - 1])
            && (name == ".." && names == [] && Rooted(s) ==> next == [])
            && (name == ".." && !Rooted(s) && (names == [] || names[|names| - 1] == "..") ==> next == names + [".."])
    ensures Rooted(s + "/" + name) == Rooted(s)
  {
    JoinSegs(s, name);
    SplitName(name);
    var names := Segs(s);
    assert Fold(names, [name], Rooted(s)) == Fold(Push(names, name, Rooted(s)), [name][1..], Rooted(s));
    if names != [] {
      assert DotDot(names[|names| - 1]) <==> names[|names| - 1] == "..";
    }
  }

  // And where it starts: a single element, and a single element below the root.
  lemma CleanFirstElement(name: string)
    requires '/' !in name
    ensures !Rooted(name) && Segs(name) == (if name == "" || name == "." then [] else [name])
    ensures Rooted("/" + name) && Segs("/" + name) == (if Plain(name) then [name] else [])
  {
    SplitName(name);
    assert Fold([], [name], false) == Fold(Push([], name, false), [name][1..], false);
    ReadRooted([name], name);
    assert Fold([], [name], true) == Fold(Push([], name, true), [name][1..], true);
  }

  // The text of a clean path: "/" and "." without names, otherwise its names joined by slashes, after a
  // slash if it is rooted.
  lemma CleanSpelled(s: string)
    ensures Segs(s) == [] ==> Clean(s) == if Rooted(s) then "/" else "."
    ensures Segs(s) != [] ==> Clean(s) == (if Rooted(s) then "/" else "") + Join(Segs(s), "/")
    ensures Rooted(s) <==> s != "" && s[0] == '/'
  {
  }
}
