// Resolving what a caller names into a path below the caller's own directory, and back.
module PathResolution {
  import opened FileDomain
  import opened Text
  import opened Paths

  datatype RequestContext = RequestContext(ownerUIN: string, uin: string, appID: string, workspaceID: string) {
    function Normalize(): RequestContext {
      var owner, user := TrimSpace(ownerUIN), TrimSpace(uin);
      var user' := if user == "" then owner else user;
      RequestContext(if owner == "" then user' else owner, user', TrimSpace(appID), TrimSpace(workspaceID))
    }

    // The names from the mount down to the user's own directory.
    function PrefixSegs(): seq<string> {
      [appID, workspaceID, "users", uin]
    }

    // filepath.Join(AppID, WorkspaceID, "users", UIN): leading empty elements are dropped.
    function UserPathPrefix(): string {
      if appID != "" then Clean(Join(PrefixSegs(), "/"))
      else if workspaceID != "" then Clean(Join(PrefixSegs()[1..], "/"))
      else Clean(Join(PrefixSegs()[2..], "/"))
    }

    function ResolveRelativePath(userPath: string): Option<string> {
      var path := TrimSpace(userPath);
      if path == "" || Rooted(path) then None
      else
        var cleanPath := Clean(path);
        if Dot(cleanPath) || DotDot(cleanPath) || HasPrefix(cleanPath, "../") then None
        else if Under(cleanPath, UserPathPrefix()) then Some(cleanPath)
        else Some(Join2(UserPathPrefix(), cleanPath))
    }

    // Each identity field is one name and holds no white space at its ends.
    predicate SingleSegments() {
      && Plain(appID) && Plain(workspaceID) && Plain(uin)
      && !StartsWithSpace(appID) && !EndsWithSpace(uin)
    }
  }

  // The path is the root or continues it after a slash.
  predicate Under(path: string, root: string) {
    path == root || HasPrefix(path, root + "/")
  }

  datatype Resolution = Resolved(abs: string) | NoMount | NotAccepted | Escapes

  function ResolveAbsPath(mount: string, ctx: RequestContext, relPath: string): Resolution {
    if mount == "" then NoMount
    else if TrimSpace(relPath) == "" then Resolved(Join2(mount, ctx.Normalize().UserPathPrefix()))
    else
      var resolved := ctx.ResolveRelativePath(relPath);
      if resolved.None? then NotAccepted
      else
        var abs := Join2(mount, resolved.value);
        if !HasPrefix(abs, mount + "/") && abs != mount then Escapes else Resolved(abs)
  }

  function UserRootAbs(mount: string, ctx: RequestContext): string {
    if mount != "" then Join2(mount, ctx.UserPathPrefix()) else Clean(ctx.UserPathPrefix())
  }

  function UserRelPath(mount: string, ctx: RequestContext, abs: string): Option<string> {
    var path, root := Clean(abs), UserRootAbs(mount, ctx);
    if path == root then Some("")
    else if HasPrefix(path, root + "/") then Some(path[|root| + 1..])
    else None
  }

  function RelPathFromMount(abs: string, mount: string): string {
    if HasPrefix(abs, mount) then Rel(mount, abs).GetOr(abs) else abs
  }

  // ---- Names below names ----

  predicate Names(p: seq<string>) {
    p != [] && forall k :: 0 <= k < |p| ==> '/' !in p[k]
  }

  lemma BelowIsUnder(p: seq<string>, q: seq<string>)
    requires Names(p) && Names(q) && p < q
    ensures Join(q, "/") == Join(p, "/") + "/" + Join(q[|p|..], "/")
    ensures HasPrefix(Join(q, "/"), Join(p, "/") + "/")
  {
    assert q == p + q[|p|..];
    JoinConcat(p, q[|p|..]);
  }

  lemma UnderIsBelow(p: seq<string>, q: seq<string>)
    requires Names(p) && Names(q) && HasPrefix(Join(q, "/"), Join(p, "/") + "/")
    ensures p < q
  {
    var sp, sq := Join(p, "/"), Join(q, "/");
    SplitJoin(p);
    SplitJoin(q);
    var rest := sq[|sp + "/"|..];
    assert sq == sp + "/" + rest;
    SplitConcat(sp, rest);
  }

  lemma UnderMeansPrefix(p: seq<string>, q: seq<string>)
    requires Names(p) && Names(q)
    ensures Under(Join(q, "/"), Join(p, "/")) <==> p <= q
  {
    if p < q {
      BelowIsUnder(p, q);
    }
    if HasPrefix(Join(q, "/"), Join(p, "/") + "/") {
      UnderIsBelow(p, q);
    }
    SplitJoin(p);
    SplitJoin(q);
    assert p <= q ==> p < q || p == q;
  }

  lemma PrefixIsPlain(ctx: RequestContext)
    requires ctx.SingleSegments()
    ensures AllPlain(ctx.PrefixSegs()) && |ctx.PrefixSegs()| == 4
    ensures ctx.UserPathPrefix() == Join(ctx.PrefixSegs(), "/")
    ensures Segs(ctx.UserPathPrefix()) == ctx.PrefixSegs() && !Rooted(ctx.UserPathPrefix())
  {
    var p := ctx.PrefixSegs();
    RenderRead(false, p);
  }

  lemma PlainIsNormal(p: seq<string>, rooted: bool)
    requires AllPlain(p)
    ensures Normal(p, rooted)
  {
  }

  // A clean relative path that neither is nor starts with ".." has plain names only.
  lemma StaysInside(s: string)
    requires !Rooted(s)
    ensures Dot(Clean(s)) || DotDot(Clean(s)) || HasPrefix(Clean(s), "../") <==>
            Segs(s) == [] || DotDot(Segs(s)[0])
    ensures Segs(s) != [] && !DotDot(Segs(s)[0]) ==> AllPlain(Segs(s))
  {
    var segs := Segs(s);
    SegsNormal(s);
    if segs != [] {
      JoinStart(segs);
      assert Plain(segs[0]) || DotDot(segs[0]);
      FirstName(segs);
    }
  }

  lemma FirstName(segs: seq<string>)
    requires Names(segs) && (Plain(segs[0]) || DotDot(segs[0]))
    ensures !Dot(Join(segs, "/"))
    ensures DotDot(Join(segs, "/")) || HasPrefix(Join(segs, "/"), "../") <==> DotDot(segs[0])
  {
    var s := Join(segs, "/");
    SplitJoin(segs);
    if |s| <= 2 && '/' !in s {
      SplitName(s);
      assert segs == [s];
    }
    if HasPrefix(s, "../") {
      var rest := s[3..];
      assert s == ".." + "/" + rest;
      SplitConcat("..", rest);
      SplitName("..");
    }
    if |segs| > 1 && DotDot(segs[0]) {
      assert segs[0] == "..";
      assert s == (".." + "/") + Join(segs[1..], "/");
    }
  }

  // ---- Resolution below the user's directory ----

  // Where an accepted path leads, as names from the mount.
  function Target(ctx: RequestContext, userPath: string): seq<string> {
    var segs := Segs(TrimSpace(userPath));
    if ctx.PrefixSegs() <= segs then segs else ctx.PrefixSegs() + segs
  }

  predicate Accepted(userPath: string) {
    var path := TrimSpace(userPath);
    path != "" && !Rooted(path) && Segs(path) != [] && !DotDot(Segs(path)[0])
  }

  // A path is accepted exactly when it is relative and stays inside, and then resolves name by name
  // to a place below the user's directory.
  lemma ResolvesUnderUserRoot(ctx: RequestContext, userPath: string)
    requires ctx.SingleSegments()
    ensures ctx.ResolveRelativePath(userPath).Some? <==> Accepted(userPath)
    ensures Accepted(userPath) ==>
              && AllPlain(Target(ctx, userPath)) && ctx.PrefixSegs() <= Target(ctx, userPath)
              && ctx.ResolveRelativePath(userPath) == Some(Join(Target(ctx, userPath), "/"))
              && Segs(Join(Target(ctx, userPath), "/")) == Target(ctx, userPath)
  {
    var path, prefix := TrimSpace(userPath), ctx.PrefixSegs();
    if path != "" && !Rooted(path) {
      StaysInside(path);
      PrefixIsPlain(ctx);
      var segs := Segs(path);
      if Accepted(userPath) {
        UnderMeansPrefix(prefix, segs);
        RenderRead(false, prefix + segs);
        RenderRead(false, segs);
        JoinPlain(ctx.UserPathPrefix(), prefix, Clean(path), segs, false);
        JoinStart(prefix);
      }
    }
  }

  lemma RenderAppend(p: seq<string>, q: seq<string>, rooted: bool)
    requires p != [] && q != []
    ensures Render(rooted, p + q) == Render(rooted, p) + "/" + Join(q, "/")
  {
    JoinConcat(p, q);
  }

  // Joining plain names to a clean path appends them.
  lemma JoinPlain(a: string, p: seq<string>, b: string, q: seq<string>, rooted: bool)
    requires a == Render(rooted, p) && Normal(p, rooted) && p != []
    requires b == Join(q, "/") && AllPlain(q) && q != []
    ensures a != "" && Normal(p + q, rooted)
    ensures Join2(a, b) == Render(rooted, p + q) == a + "/" + b
  {
    hide Segs, Fold, Split, Normal, Join;
    RenderRead(rooted, p);
    NonEmpty(p, rooted);
    JoinSegs(a, b);
    PlainNames(q);
    SplitJoin(q);
    NormalAppend(p, q, rooted);
    FoldKeeps(p, q, rooted);
    RenderAppend(p, q, rooted);
  }

  lemma PlainNames(q: seq<string>)
    requires AllPlain(q)
    ensures forall k :: 0 <= k < |q| ==> '/' !in q[k]
  {
  }

  lemma NonEmpty(p: seq<string>, rooted: bool)
    requires p != [] && Normal(p, rooted)
    ensures Render(rooted, p) != ""
  {
    assert Plain(p[0]) || DotDot(p[0]);
    JoinStart(p);
  }

  lemma NormalAppend(p: seq<string>, q: seq<string>, rooted: bool)
    requires Normal(p, rooted) && AllPlain(q)
    ensures Normal(p + q, rooted)
  {
    var r := p + q;
    forall k | 0 <= k < |r|
      ensures Plain(r[k]) || (DotDot(r[k]) && !rooted && forall j :: 0 <= j < k ==> DotDot(r[j]))
    {
      if k < |p| {
        assert r[k] == p[k];
      } else {
        assert r[k] == q[k - |p|];
      }
    }
  }

  // ---- Below the mount ----

  // The absolute path of names below a mount root.
  function AbsOf(mount: string, names: seq<string>): string {
    mount + "/" + Join(names, "/")
  }

  lemma BelowMount(mount: string, names: seq<string>)
    requires Clean(mount) == mount && AllPlain(names) && names != []
    ensures Join2(mount, Join(names, "/")) == Render(Rooted(mount), Segs(mount) + names)
    ensures Segs(mount) != [] ==> Join2(mount, Join(names, "/")) == AbsOf(mount, names)
    ensures Segs(mount) != [] ==> Segs(AbsOf(mount, names)) == Segs(mount) + names
    ensures Segs(mount) != [] ==> Rooted(AbsOf(mount, names)) == Rooted(mount)
    ensures Segs(mount) != [] ==> Clean(AbsOf(mount, names)) == AbsOf(mount, names)
  {
    hide Segs, Fold, Split, Normal, Join, Rooted;
    SegsNormal(mount);
    if Segs(mount) != [] {
      JoinPlain(mount, Segs(mount), Join(names, "/"), names, Rooted(mount));
      RenderRead(Rooted(mount), Segs(mount) + names);
    } else {
      JoinPlainToRoot(mount, names);
      assert [] + names == names;
    }
  }

  lemma JoinPlainToRoot(mount: string, names: seq<string>)
    requires Clean(mount) == mount && AllPlain(names) && names != [] && Segs(mount) == []
    ensures Join2(mount, Join(names, "/")) == Render(Rooted(mount), names)
  {
    assert mount != "";
    JoinSegs(mount, Join(names, "/"));
    SplitJoin(names);
    assert [] + names == names;
    PlainIsNormal(names, Rooted(mount));
    FoldKeeps([], names, Rooted(mount));
  }

  // At a mount root without names, "/" or ".", nothing passes the final check.
  lemma NoNamesNoPrefix(mount: string, names: seq<string>)
    requires Clean(mount) == mount && AllPlain(names) && names != [] && Segs(mount) == []
    ensures !HasPrefix(Render(Rooted(mount), names), mount + "/") && Render(Rooted(mount), names) != mount
  {
    var s := Join(names, "/");
    JoinStart(names);
    assert s[0] == names[0][0] && s[0] != '/';
    if Rooted(mount) {
      assert mount == "/" && ("/" + s)[1] == s[0];
    } else {
      assert mount == ".";
      var a := names[0];
      assert a <= s;
      assert Plain(a);
      assert |a| >= 2 ==> s[1] == a[1];
    }
  }

  // What becomes of a path that is not blank: for a clean mount root the check for escapes rejects an
  // accepted path exactly when the root is "/" or "."; below any other root it never does, and the
  // path lies name by name below the mount root and the user's directory.
  lemma AbsResolves(mount: string, ctx: RequestContext, path: string)
    requires mount != "" && Clean(mount) == mount && ctx.SingleSegments() && TrimSpace(path) != ""
    ensures ResolveAbsPath(mount, ctx, path)
            == if !Accepted(path) then NotAccepted
               else if Segs(mount) == [] then Escapes
               else Resolved(AbsOf(mount, Target(ctx, path)))
    ensures Segs(mount) == [] <==> mount == "/" || mount == "."
  {
    hide Segs, Fold, Split, Normal, Join, TrimSpace, Target, RequestContext.ResolveRelativePath, Accepted, Join2, Clean;
    ResolvesUnderUserRoot(ctx, path);
    ClearMounts(mount);
    if Accepted(path) {
      var names := Target(ctx, path);
      PrefixIsPlain(ctx);
      BelowMount(mount, names);
      if Segs(mount) == [] {
        NoNamesNoPrefix(mount, names);
        assert Segs(mount) + names == names;
      } else {
        assert AbsOf(mount, names) == (mount + "/") + Join(names, "/");
      }
    }
  }

  lemma ClearMounts(mount: string)
    requires Clean(mount) == mount
    ensures Segs(mount) == [] <==> mount == "/" || mount == "."
  {
    ReadEmpty();
  }

  // The workspace client accepts every resolved path, and reads from it the path below the user root.
  lemma UserRelPathAccepts(mount: string, ctx: RequestContext, path: string)
    requires mount != "" && Clean(mount) == mount && Segs(mount) != [] && ctx.SingleSegments() && Accepted(path)
    ensures UserRelPath(mount, ctx, AbsOf(mount, Target(ctx, path))) == Some(Join(Target(ctx, path)[4..], "/"))
  {
    hide Segs, Fold, Split, Normal, Join, TrimSpace, RequestContext.ResolveRelativePath, Accepted, Join2, Clean, Target;
    ResolvesUnderUserRoot(ctx, path);
    PrefixIsPlain(ctx);
    UserRelPathBelow(mount, ctx, Target(ctx, path));
  }

  lemma UserRelPathBelow(mount: string, ctx: RequestContext, names: seq<string>)
    requires mount != "" && Clean(mount) == mount && Segs(mount) != []
    requires ctx.SingleSegments() && AllPlain(names) && ctx.PrefixSegs() <= names
    ensures UserRelPath(mount, ctx, AbsOf(mount, names)) == Some(Join(names[4..], "/"))
  {
    hide Segs, Fold, Split, Normal, Join2, Clean;
    PrefixIsPlain(ctx);
    var p := ctx.PrefixSegs();
    BelowMount(mount, names);
    BelowMount(mount, p);
    var root := AbsOf(mount, p);
    if p < names {
      BelowIsUnder(p, names);
      assert AbsOf(mount, names) == root + "/" + Join(names[4..], "/");
      assert AbsOf(mount, names)[|root| + 1..] == Join(names[4..], "/");
    } else {
      assert names == p && names[4..] == [];
    }
  }

  // ---- Going round ----

  lemma {:induction false} TrimTail(a: string, b: string)
    requires a != "" && !EndsWithSpace(a)
    ensures TrimRight(a + b) == a + TrimRight(b)
    decreases |b|
  {
    if b == "" {
      assert a + b == a;
    } else {
      assert (a + b)[|a + b| - 1] == b[|b| - 1];
      if EndsWithSpace(b) {
        assert (a + b)[..|a + b| - 1] == a + b[..|b| - 1];
        TrimTail(a, b[..|b| - 1]);
      }
    }
  }

  // Trimming a path whose last name ends in white space resolves it to somewhere else.
  lemma TrimmingMoves(ctx: RequestContext, names: seq<string>)
    requires ctx.SingleSegments() && AllPlain(names) && ctx.PrefixSegs() <= names
    requires EndsWithSpace(Join(names, "/"))
    ensures Target(ctx, Join(names, "/")) != names
  {
    var n := |names| - 1;
    var s, p := Join(names, "/"), ctx.PrefixSegs();
    LastName(names);
    var init, last := Join(names[..n], "/"), names[n];
    var last' := TrimRight(last);
    JoinStart(names);
    TrimTail(init + "/", last);
    assert init + "/" + last == s;
    var t := TrimRight(s);
    assert t == init + "/" + last';
    assert t[0] == init[0] == s[0];
    assert TrimSpace(s) == t;
    TrimmedSegs(names[..n], last, last');
    var segs := Segs(t);
    assert names[n] == last != last';
    assert segs != names;
    if !(p <= segs) {
      assert |p + segs| > |names|;
    }
  }

  lemma LastName(names: seq<string>)
    requires AllPlain(names) && |names| > 1
    ensures var n := |names| - 1;
            && Join(names, "/") == Join(names[..n], "/") + "/" + names[n]
            && Join(names[..n], "/") != "" && Join(names[..n], "/")[0] == names[0][0]
            && (EndsWithSpace(Join(names, "/")) <==> EndsWithSpace(names[n]))
  {
    var n := |names| - 1;
    assert names == names[..n] + [names[n]];
    JoinConcat(names[..n], [names[n]]);
    JoinStart(names[..n]);
    var s := Join(names, "/");
    assert s[|s| - 1] == names[n][|names[n]| - 1];
  }

  // The names of a path whose last name was cut short: that name may even be gone, or go up.
  lemma TrimmedSegs(init: seq<string>, last: string, last': string)
    requires AllPlain(init) && init != [] && '/' !in last && last' <= last && last' != last
    ensures var segs := Segs(Join(init, "/") + "/" + last');
            || segs == init || segs == init[..|init| - 1] || segs == init + [last']
    ensures !Rooted(Join(init, "/") + "/" + last')
  {
    var a := Join(init, "/");
    JoinStart(init);
    PlainIsNormal(init, false);
    RenderRead(false, init);
    JoinSegs(a, last');
    SplitName(last');
    assert Fold(init, [last'], false) == Push(init, last', false) by {
      assert [last'][1..] == [];
    }
  }

  // Resolving again changes nothing exactly when the resolved path does not end in white space, which
  // is trimmed before the path is cleaned.
  lemma ResolveIdempotent(ctx: RequestContext, names: seq<string>)
    requires ctx.SingleSegments() && AllPlain(names) && ctx.PrefixSegs() <= names
    ensures ctx.ResolveRelativePath(Join(names, "/")) == Some(Join(names, "/")) <==> !EndsWithSpace(Join(names, "/"))
    ensures TrimSpace(Join(names, "/")) != ""
    ensures Accepted(Join(names, "/")) && Target(ctx, Join(names, "/")) == names <==> !EndsWithSpace(Join(names, "/"))
  {
    hide Segs, Join, TrimSpace, RequestContext.ResolveRelativePath, Target, Accepted, EndsWithSpace;
    var s := Join(names, "/");
    ResolvesUnderUserRoot(ctx, s);
    StartsPlain(ctx, names);
    if EndsWithSpace(s) {
      TrimmingMoves(ctx, names);
      if Accepted(s) {
        JoinDistinct(names, Target(ctx, s));
      }
    } else {
      UntrimmedStays(ctx, names);
    }
  }

  lemma UntrimmedStays(ctx: RequestContext, names: seq<string>)
    requires ctx.SingleSegments() && AllPlain(names) && ctx.PrefixSegs() <= names
    requires !EndsWithSpace(Join(names, "/"))
    ensures Accepted(Join(names, "/")) && Target(ctx, Join(names, "/")) == names
  {
    var s := Join(names, "/");
    hide Segs, Join, EndsWithSpace;
    StartsPlain(ctx, names);
    assert TrimSpace(s) == s;
    PlainIsNormal(names, false);
    RenderRead(false, names);
    assert Render(false, names) == s;
  }

  lemma StartsPlain(ctx: RequestContext, names: seq<string>)
    requires ctx.SingleSegments() && AllPlain(names) && ctx.PrefixSegs() <= names
    ensures Join(names, "/") != "" && !StartsWithSpace(Join(names, "/")) && !Rooted(Join(names, "/"))
    ensures TrimSpace(Join(names, "/")) != ""
  {
    JoinStart(names);
    assert names[0] == ctx.appID;
    TrimKeepsStart(Join(names, "/"));
  }

  lemma TrimKeepsStart(s: string)
    requires s != "" && !StartsWithSpace(s)
    ensures TrimSpace(s) != ""
  {
    assert s == s[..1] + s[1..];
    TrimTail(s[..1], s[1..]);
  }

  lemma {:induction false} CommonWithExtension(a: seq<string>, b: seq<string>)
    ensures CommonLength(a, a + b) == |a|
    decreases |a|
  {
    if a != [] && b != [] {
      assert (a + b)[1..] == a[1..] + b;
      CommonWithExtension(a[1..], b);
    } else if a != [] {
      assert (a + b)[1..] == a[1..] + b;
      CommonWithExtension(a[1..], b);
    }
  }

  // The path shown to callers is the resolved one without the mount root.
  lemma ShownPath(mount: string, names: seq<string>)
    requires mount != "" && Clean(mount) == mount && Segs(mount) != [] && AllPlain(names) && names != []
    ensures RelPathFromMount(AbsOf(mount, names), mount) == Join(names, "/")
  {
    hide Segs, Fold, Split, Normal, Join, Clean, AllPlain;
    BelowMount(mount, names);
    var b, t := Segs(mount), Segs(AbsOf(mount, names));
    assert t == b + names && |t| > |b|;
    CommonWithExtension(b, names);
    CleanIdempotent(mount);
    assert Clean(AbsOf(mount, names)) != Clean(mount);
    assert Ups(0) + t[|b|..] == names;
    assert AbsOf(mount, names) == mount + ("/" + Join(names, "/"));
  }

  // Feeding the shown path back leads to the same file exactly when it does not end in white space.
  lemma RoundTrip(mount: string, ctx: RequestContext, path: string)
    requires mount != "" && Clean(mount) == mount && Segs(mount) != [] && ctx.SingleSegments() && Accepted(path)
    ensures var abs := AbsOf(mount, Target(ctx, path));
            var shown := RelPathFromMount(abs, mount);
            && shown == Join(Target(ctx, path), "/")
            && (ResolveAbsPath(mount, ctx, shown) == Resolved(abs) <==> !EndsWithSpace(shown))
  {
    hide Segs, Fold, Split, Normal, Join, Clean, TrimSpace, RequestContext.ResolveRelativePath, Accepted, Target,
      ResolveAbsPath, RelPathFromMount, AllPlain;
    var names := Target(ctx, path);
    ResolvesUnderUserRoot(ctx, path);
    assert names != [];
    ShownPath(mount, names);
    var shown := Join(names, "/");
    ResolveIdempotent(ctx, names);
    AbsResolves(mount, ctx, shown);
    if Accepted(shown) && Target(ctx, shown) != names {
      ResolvesUnderUserRoot(ctx, shown);
      assert Target(ctx, shown) != [];
      JoinDistinct(names, Target(ctx, shown));
      assert forall p :: AbsOf(mount, p)[|mount| + 1..] == Join(p, "/");
    }
  }

  lemma JoinDistinct(p: seq<string>, q: seq<string>)
    requires AllPlain(p) && AllPlain(q) && p != [] && q != [] && p != q
    ensures Join(p, "/") != Join(q, "/")
  {
    SplitJoin(p);
    SplitJoin(q);
  }

  // ---- Normalization ----

  // Normalized fields carry no white space at their ends, a missing user or owner is filled in by the
  // other, and normalizing again changes nothing.
  lemma NormalizeTrims(ctx: RequestContext)
    ensures var n := ctx.Normalize();
            && n.Normalize() == n
            && (n.uin == "" <==> TrimSpace(ctx.uin) == "" && TrimSpace(ctx.ownerUIN) == "")
            && (n.uin == "" <==> n.ownerUIN == "")
            && !StartsWithSpace(n.appID) && !EndsWithSpace(n.uin)
  {
  }
}
