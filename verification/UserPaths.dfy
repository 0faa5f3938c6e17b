// Whose directory a path leads into: the user's prefix spelled out, kept apart from every other user's.
module UserPaths {
  import opened Text
  import opened Paths
  import opened PathResolution

  // ---- The prefix ----

  // The canonical prefix is {appId}/{workspaceId}/users/{uin}.
  lemma PrefixSpelled(ctx: RequestContext)
    requires ctx.SingleSegments()
    ensures ctx.UserPathPrefix() == ctx.appID + "/" + ctx.workspaceID + "/users/" + ctx.uin
    ensures ctx.PrefixSegs() == [ctx.appID, ctx.workspaceID, "users", ctx.uin]
  {
    PrefixIsPlain(ctx);
    var p := ctx.PrefixSegs();
    assert p == [p[0]] + ([p[1]] + ([p[2]] + [p[3]]));
    JoinConcat([p[0]], [p[1]] + ([p[2]] + [p[3]]));
    JoinConcat([p[1]], [p[2]] + [p[3]]);
    JoinConcat([p[2]], [p[3]]);
    assert ctx.UserPathPrefix() == p[0] + "/" + (p[1] + "/" + (p[2] + "/" + p[3]));
    assert ctx.appID + "/" + ctx.workspaceID + "/users/" + ctx.uin
        == p[0] + "/" + (p[1] + "/" + (p[2] + "/" + p[3])) by {
      assert "/users/" == "/" + p[2] + "/";
    }
  }

  // Two contexts share a prefix exactly when application, workspace and user all agree.
  lemma PrefixesDiffer(a: RequestContext, b: RequestContext)
    requires a.SingleSegments() && b.SingleSegments()
    ensures a.UserPathPrefix() == b.UserPathPrefix() <==>
            a.appID == b.appID && a.workspaceID == b.workspaceID && a.uin == b.uin
  {
    PrefixSpelled(a);
    PrefixSpelled(b);
    PrefixIsPlain(a);
    PrefixIsPlain(b);
    var p, q := a.PrefixSegs(), b.PrefixSegs();
    if a.UserPathPrefix() == b.UserPathPrefix() {
      assert p == q;
      assert p[0] == q[0] && p[1] == q[1] && p[3] == q[3];
    }
  }

  // Whatever the caller names, what resolves for one user lies below another's prefix exactly when the
  // two are the same user of the same workspace and application.
  lemma ResolvesInOwnPrefixOnly(a: RequestContext, b: RequestContext, userPath: string)
    requires a.SingleSegments() && b.SingleSegments() && a.ResolveRelativePath(userPath).Some?
    ensures Under(a.ResolveRelativePath(userPath).value, b.UserPathPrefix()) <==>
            a.appID == b.appID && a.workspaceID == b.workspaceID && a.uin == b.uin
  {
    hide RequestContext.UserPathPrefix, RequestContext.ResolveRelativePath, Segs, Join, Target;
    ResolvesUnderUserRoot(a, userPath);
    var names := Target(a, userPath);
    PrefixIsPlain(a);
    PrefixIsPlain(b);
    PrefixSpelled(a);
    PrefixSpelled(b);
    UnderMeansPrefix(b.PrefixSegs(), names);
    var p, q := a.PrefixSegs(), b.PrefixSegs();
    assert names[..4] == p;
    if q <= names {
      assert q == names[..4];
      assert p[0] == q[0] && p[1] == q[1] && p[3] == q[3];
    }
  }

  // Where a path leads: the caller's names, below the prefix unless they start with it already.
  lemma TargetSpelled(ctx: RequestContext, userPath: string)
    requires ctx.SingleSegments()
    ensures var names, own := Segs(TrimSpace(userPath)), [ctx.appID, ctx.workspaceID, "users", ctx.uin];
            Target(ctx, userPath) == if own <= names then names else own + names
  {
    PrefixSpelled(ctx);
  }

  // ---- The user's own directory ----

  // A blank path means the user's own directory.
  lemma BlankIsUserRoot(mount: string, ctx: RequestContext, relPath: string)
    requires TrimSpace(relPath) == "" && ctx.Normalize().SingleSegments()
    requires Clean(mount) == mount && Segs(mount) != [] && mount != ""
    ensures var n := ctx.Normalize();
            ResolveAbsPath(mount, ctx, relPath)
            == Resolved(mount + "/" + n.appID + "/" + n.workspaceID + "/users/" + n.uin)
  {
    hide Segs, Join, Clean, TrimSpace, Join2, RequestContext.Normalize, RequestContext.UserPathPrefix,
      RequestContext.PrefixSegs, RequestContext.SingleSegments;
    var n := ctx.Normalize();
    PrefixIsPlain(n);
    PrefixSpelled(n);
    BelowMount(mount, n.PrefixSegs());
    Regroup(mount, n.appID, n.workspaceID, "/users/", n.uin);
  }

  lemma Regroup(a: string, b: string, c: string, d: string, e: string)
    ensures a + "/" + (b + "/" + c + d + e) == a + "/" + b + "/" + c + d + e
  {
  }

  // Without a mount root nothing resolves.
  lemma NoMountNoPath(ctx: RequestContext, relPath: string)
    ensures ResolveAbsPath("", ctx, relPath) == NoMount
  {
  }

  // The client reads a path below a user's directory from exactly the paths at or below it.
  lemma UserRelPathOnlyBelow(mount: string, ctx: RequestContext, abs: string)
    requires mount != "" && Clean(mount) == mount && Segs(mount) != [] && ctx.SingleSegments()
    ensures UserRelPath(mount, ctx, abs).Some? <==>
            Rooted(abs) == Rooted(mount) && Segs(mount) + ctx.PrefixSegs() <= Segs(abs)
    ensures UserRelPath(mount, ctx, abs).Some? ==>
              UserRelPath(mount, ctx, abs).value == Join(Segs(abs)[|Segs(mount)| + 4..], "/")
  {
    hide Segs, Join, Join2, Normal, Render, Rooted, RequestContext.PrefixSegs, RequestContext.SingleSegments,
      RequestContext.UserPathPrefix;
    PrefixIsPlain(ctx);
    BelowMount(mount, ctx.PrefixSegs());
    var root, p := AbsOf(mount, ctx.PrefixSegs()), Segs(mount) + ctx.PrefixSegs();
    SegsNormal(abs);
    SegsNormal(root);
    CleanUnder(Segs(abs), Rooted(abs), p, Rooted(root));
    assert Clean(abs) == Render(Rooted(abs), Segs(abs)) && root == Render(Rooted(root), p);
    RestOfPath(Clean(abs), root, Segs(abs), p);
  }

  lemma RestOfPath(a: string, root: string, q: seq<string>, p: seq<string>)
    ensures p == q ==> Join(q[|p|..], "/") == ""
    ensures |a| > |root| ==> a[|root|..][1..] == a[|root| + 1..]
  {
  }

  // Between clean paths "is the root or continues it after a slash" means that the names continue.
  lemma CleanUnder(q: seq<string>, qRooted: bool, p: seq<string>, pRooted: bool)
    requires Normal(q, qRooted) && Normal(p, pRooted) && p != []
    ensures Under(Render(qRooted, q), Render(pRooted, p)) <==> qRooted == pRooted && p <= q
    ensures qRooted == pRooted && p <= q ==>
              Render(qRooted, q)[|Render(pRooted, p)|..] == (if p == q then "" else "/" + Join(q[|p|..], "/"))
  {
    RenderRead(qRooted, q);
    RenderRead(pRooted, p);
    NonEmpty(p, pRooted);
    NormalNames(p, pRooted);
    assert p <= q ==> p < q || p == q;
    if q == [] {
      assert |Render(qRooted, q)| == 1;
    } else {
      NormalNames(q, qRooted);
      CleanUnderNames(q, qRooted, p, pRooted);
    }
  }

  lemma CleanUnderNames(q: seq<string>, qRooted: bool, p: seq<string>, pRooted: bool)
    requires Normal(q, qRooted) && Normal(p, pRooted) && p != [] && q != [] && Names(p) && Names(q)
    ensures HasPrefix(Render(qRooted, q), Render(pRooted, p) + "/") <==> qRooted == pRooted && p < q
    ensures qRooted == pRooted && p < q ==>
              Render(qRooted, q)[|Render(pRooted, p)|..] == "/" + Join(q[|p|..], "/")
  {
    hide Join, Normal;
    var a, b := Render(qRooted, q), Render(pRooted, p);
    NonEmpty(p, pRooted);
    RenderRead(qRooted, q);
    RenderRead(pRooted, p);
    if p < q && qRooted == pRooted {
      assert q == p + q[|p|..];
      RenderAppend(p, q[|p|..], pRooted);
      assert a == b + ("/" + Join(q[|p|..], "/")) && a == b + "/" + Join(q[|p|..], "/");
    }
    if HasPrefix(a, b + "/") {
      var rest := a[|b + "/"|..];
      assert a == b + "/" + rest && a[0] == b[0];
      RenderUnder(q, p, qRooted, rest);
    }
  }

  lemma NormalNames(p: seq<string>, rooted: bool)
    requires Normal(p, rooted) && p != []
    ensures Names(p) && p[0] != ""
  {
    assert forall k :: 0 <= k < |p| ==> Plain(p[k]) || DotDot(p[k]);
  }

  lemma RenderUnder(q: seq<string>, p: seq<string>, rooted: bool, rest: string)
    requires Names(p) && Names(q) && Render(rooted, q) == Render(rooted, p) + "/" + rest
    ensures p < q
  {
    var sp, sq := Join(p, "/"), Join(q, "/");
    assert sq == sp + "/" + rest by {
      if rooted {
        assert ("/" + sq)[1..] == sq && ("/" + sp + "/" + rest)[1..] == sp + "/" + rest;
      }
    }
    assert sq == (sp + "/") + rest;
    UnderIsBelow(p, q);
  }

  // ---- Normalization ----

  // Normalizing keeps what is there: application and workspace trimmed, user and owner trimmed, each
  // standing in for the other only where that is blank.
  lemma NormalizeKeeps(ctx: RequestContext)
    ensures var n := ctx.Normalize();
            && n.appID == TrimSpace(ctx.appID) && n.workspaceID == TrimSpace(ctx.workspaceID)
            && n.uin == (if TrimSpace(ctx.uin) != "" then TrimSpace(ctx.uin) else TrimSpace(ctx.ownerUIN))
            && n.ownerUIN == (if TrimSpace(ctx.ownerUIN) != "" then TrimSpace(ctx.ownerUIN) else TrimSpace(ctx.uin))
  {
  }
}
