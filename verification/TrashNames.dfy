// The names deleted paths get in the recycle bin: every "/" of the path becomes "__".
module TrashNames {
  import opened PosixTree
  import opened Text

  // strings.ReplaceAll(relPath, "/", "__").
  function TrashEntryName(relPath: string): string {
    if relPath == "" then ""
    else (if relPath[0] == '/' then "__" else relPath[..1]) + TrashEntryName(relPath[1..])
  }

  function EntryName(p: Path): string {
    Join(p, "__")
  }

  predicate Segment(s: string) {
    s != "" && '/' !in s
  }

  predicate Segments(p: Path) {
    forall k :: 0 <= k < |p| ==> Segment(p[k])
  }

  lemma {:induction false} EncodeConcat(a: string, b: string)
    ensures TrashEntryName(a + b) == TrashEntryName(a) + TrashEntryName(b)
    decreases |a|
  {
    if a == "" {
      assert a + b == b;
    } else {
      assert (a + b)[1..] == a[1..] + b && (a + b)[..1] == a[..1];
      EncodeConcat(a[1..], b);
    }
  }

  lemma {:induction false} EncodePlain(s: string)
    requires '/' !in s
    ensures TrashEntryName(s) == s
    decreases |s|
  {
    if s != "" {
      EncodePlain(s[1..]);
      assert s == s[..1] + s[1..];
    }
  }

  // The name of a path's entry is its segments joined by "__".
  lemma {:induction false} EncodeJoined(p: Path)
    requires Segments(p)
    ensures TrashEntryName(Join(p, "/")) == EntryName(p)
    decreases |p|
  {
    if |p| == 1 {
      EncodePlain(p[0]);
    } else if |p| > 1 {
      EncodeJoined(p[1..]);
      EncodePlain(p[0]);
      EncodeConcat(p[0] + "/", Join(p[1..], "/"));
      EncodeConcat(p[0], "/");
      assert TrashEntryName("/") == "__";
    }
  }

  // ---- Which paths can be read back from their entry names ----

  predicate MarkAt(s: string, k: nat) {
    k + 1 < |s| && s[k] == '_' && s[k + 1] == '_'
  }

  // Where the first "__" begins, |s| when there is none.
  function FirstMark(s: string): (r: nat)
    ensures r <= |s| && (r < |s| ==> MarkAt(s, r))
    ensures forall k: nat :: k < r ==> !MarkAt(s, k)
    decreases |s|
  {
    if |s| < 2 then |s|
    else if MarkAt(s, 0) then 0
    else
      var r := FirstMark(s[1..]);
      assert forall k: nat :: 0 < k < r + 1 ==> (MarkAt(s, k) <==> MarkAt(s[1..], k - 1));
      assert r + 1 < |s| ==> MarkAt(s, r + 1);
      r + 1
  }

  function Decode(s: string): Path
    decreases |s|
  {
    var m := FirstMark(s);
    if m == |s| then [s] else [s[..m]] + Decode(s[m + 2..])
  }

  predicate Unmarked(s: string) {
    forall k: nat :: k < |s| ==> !MarkAt(s, k)
  }

  // No segment holds "__", and only the last one may end in "_".
  predicate Readable(p: Path) {
    forall i :: 0 <= i < |p| ==> Unmarked(p[i]) && (i + 1 < |p| ==> p[i] != "" && p[i][|p[i]| - 1] != '_')
  }

  // The first mark of a joined path ends its first segment exactly when that segment is readable.
  lemma MarkAfterFirst(a: string, b: string)
    requires a != ""
    ensures FirstMark(a + "__" + b) == |a| <==> Unmarked(a) && a[|a| - 1] != '_'
    ensures FirstMark(a + "__" + b) <= |a|
  {
    var s := a + "__" + b;
    assert MarkAt(s, |a|);
    assert forall k: nat :: k + 1 < |a| ==> (MarkAt(s, k) <==> MarkAt(a, k));
    assert MarkAt(s, |a| - 1) <==> a[|a| - 1] == '_';
    if FirstMark(s) == |a| {
      assert !MarkAt(s, |a| - 1);
      forall k: nat | k < |a| ensures !MarkAt(a, k) { assert !MarkAt(s, k); }
    }
    if Unmarked(a) && a[|a| - 1] != '_' {
      assert forall k: nat :: k < |a| ==> !MarkAt(s, k);
    }
  }

  lemma DecodeJoined(a: string, b: string)
    requires Segment(a)
    ensures Unmarked(a) && a[|a| - 1] != '_' ==> Decode(a + "__" + b) == [a] + Decode(b)
    ensures !(Unmarked(a) && a[|a| - 1] != '_') ==> Decode(a + "__" + b)[0] != a
  {
    var s := a + "__" + b;
    MarkAfterFirst(a, b);
    var m := FirstMark(s);
    if m == |a| {
      assert s[..m] == a && s[m + 2..] == b;
    } else {
      assert |Decode(s)[0]| == m;
    }
  }

  lemma DecodeSingle(a: string)
    ensures Decode(a) == [a] <==> Unmarked(a)
  {
    if FirstMark(a) < |a| {
      assert |Decode(a)[0]| < |a|;
      assert MarkAt(a, FirstMark(a));
    }
  }

  // A path is read back from the name of its entry exactly when its segments neither hold "__" nor,
  // the last one aside, end in "_".
  lemma {:induction false} DecodeEncode(p: Path)
    requires p != [] && Segments(p)
    ensures Decode(EntryName(p)) == p <==> Readable(p)
    decreases |p|
  {
    if |p| == 1 {
      DecodeSingle(p[0]);
      assert p == [p[0]];
    } else {
      DecodeJoined(p[0], EntryName(p[1..]));
      DecodeEncode(p[1..]);
      ReadableSplit(p);
      assert p == [p[0]] + p[1..];
      assert EntryName(p) == p[0] + "__" + EntryName(p[1..]);
    }
  }

  lemma ReadableSplit(p: Path)
    requires |p| > 1 && p[0] != ""
    ensures Readable(p) <==> Unmarked(p[0]) && p[0][|p[0]| - 1] != '_' && Readable(p[1..])
  {
    if Readable(p) {
      forall i | 0 <= i < |p[1..]|
        ensures Unmarked(p[1..][i]) && (i + 1 < |p[1..]| ==> p[1..][i] != "" && p[1..][i][|p[1..][i]| - 1] != '_')
      {
        assert p[1..][i] == p[i + 1];
      }
    }
    if Unmarked(p[0]) && p[0][|p[0]| - 1] != '_' && Readable(p[1..]) {
      forall i | 0 < i < |p| ensures Unmarked(p[i]) && (i + 1 < |p| ==> p[i] != "" && p[i][|p[i]| - 1] != '_') {
        assert p[1..][i - 1] == p[i];
      }
    }
  }

  // Different readable paths have different entries.
  lemma EntryNamesInjective(p: Path, q: Path)
    requires p != [] && q != [] && Segments(p) && Segments(q) && Readable(p) && Readable(q)
    requires TrashEntryName(Join(p, "/")) == TrashEntryName(Join(q, "/"))
    ensures p == q
  {
    EncodeJoined(p);
    EncodeJoined(q);
    DecodeEncode(p);
    DecodeEncode(q);
  }

  // Outside that set two paths may share an entry: a segment that ends in "_" and one that starts with it.
  lemma EntryNamesCollide(a: string, b: string)
    requires Segment(a) && Segment(b)
    ensures var p, q := [a + "_", b], [a, "_" + b];
            && Segments(p) && Segments(q) && p != q && !Readable(p)
            && TrashEntryName(Join(p, "/")) == TrashEntryName(Join(q, "/"))
  {
    hide TrashEntryName;
    var p, q := [a + "_", b], [a, "_" + b];
    assert p[0] != q[0];
    EncodeJoined(p);
    EncodeJoined(q);
    JoinPair(a + "_", b, "__");
    JoinPair(a, "_" + b, "__");
    assert a + "_" + "__" + b == a + "__" + ("_" + b);
  }

  lemma JoinPair(a: string, b: string, sep: string)
    ensures Join([a, b], sep) == a + sep + b
  {
    assert [a, b][1..] == [b];
  }

  // Another path that would go to the same entry.
  ghost predicate SharesEntry(p: Path) {
    exists q: Path :: q != p && q != [] && Segments(q) && EntryName(q) == EntryName(p)
  }

  // The segment holds "__" with something on each side.
  predicate Splits(s: string) {
    exists k: nat :: 0 < k && k + 2 < |s| && MarkAt(s, k)
  }

  lemma JoinedIsSegment(p: Path)
    requires p != [] && Segments(p)
    ensures Segment(EntryName(p))
    decreases |p|
  {
    if |p| > 1 {
      JoinedIsSegment(p[1..]);
    }
  }

  // Exactly which paths may have to compete for their entry: all with more than one segment, and those
  // whose only segment can be taken for two.
  lemma EntryIsShared(p: Path)
    requires p != [] && Segments(p)
    ensures SharesEntry(p) <==> |p| > 1 || Splits(p[0])
  {
    hide EntryName;
    if |p| > 1 {
      JoinedIsSegment(p);
      var q := [EntryName(p)];
      assert q != p && EntryName(q) == EntryName(p) by { NameOfOne(EntryName(p)); }
    } else {
      assert p == [p[0]];
      NameOfOne(p[0]);
      SingleIsShared(p[0]);
    }
  }

  lemma NameOfOne(s: string)
    ensures EntryName([s]) == s
  {
  }

  lemma OneSegment(q: Path)
    requires |q| == 1
    ensures q == [EntryName(q)]
  {
  }

  lemma SingleIsShared(s: string)
    requires Segment(s)
    ensures SharesEntry([s]) <==> Splits(s)
  {
    NameOfOne(s);
    if Splits(s) {
      var k: nat :| 0 < k && k + 2 < |s| && MarkAt(s, k);
      var q: Path := [s[..k], s[k + 2..]];
      JoinPair(s[..k], s[k + 2..], "__");
      assert s == s[..k] + "__" + s[k + 2..];
      assert Segments(q) && q != [s];
    }
    if SharesEntry([s]) {
      var q: Path :| q != [s] && q != [] && Segments(q) && EntryName(q) == EntryName([s]);
      if |q| == 1 {
        OneSegment(q);
      } else {
        var rest := EntryName(q[1..]);
        JoinedIsSegment(q[1..]);
        assert s == q[0] + "__" + rest;
        assert MarkAt(s, |q[0]|);
      }
    }
  }

  // Only the path "_meta" would take the name of the metadata directory.
  lemma MetaNameOnlyOfMeta(p: Path)
    requires p != [] && Segments(p)
    ensures EntryName(p) == "_meta" <==> p == ["_meta"]
  {
    if |p| > 1 {
      var s := EntryName(p);
      assert s == p[0] + "__" + Join(p[1..], "__");
      assert MarkAt(s, |p[0]|);
      assert Unmarked("_meta");
    }
  }
}
