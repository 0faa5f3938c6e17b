// Character-level helpers the program takes from Go's strings package.
module Text {

  // White space in the sense of Unicode's White_Space property, which is what TrimSpace removes.
  predicate IsSpace(c: char) {
    || '\U{9}' <= c <= '\U{D}'
    || c == ' ' || c == '\U{85}' || c == '\U{A0}' || c == '\U{1680}'
    || '\U{2000}' <= c <= '\U{200A}'
    || c == '\U{2028}' || c == '\U{2029}' || c == '\U{202F}' || c == '\U{205F}' || c == '\U{3000}'
  }

  predicate StartsWithSpace(s: string) {
    s != "" && IsSpace(s[0])
  }

  predicate EndsWithSpace(s: string) {
    s != "" && IsSpace(s[|s| - 1])
  }

  function TrimLeft(s: string): (r: string)
    ensures !StartsWithSpace(r)
    ensures |r| <= |s| && r == s[|s| - |r|..]
    ensures !StartsWithSpace(s) ==> r == s
    ensures r != "" && !EndsWithSpace(s) ==> !EndsWithSpace(r)
  {
    if StartsWithSpace(s) then TrimLeft(s[1..]) else s
  }

  function TrimRight(s: string): (r: string)
    ensures !EndsWithSpace(r)
    ensures r <= s
    ensures !EndsWithSpace(s) ==> r == s
  {
    if EndsWithSpace(s) then TrimRight(s[..|s| - 1]) else s
  }

  function TrimSpace(s: string): (r: string)
    ensures !StartsWithSpace(r) && !EndsWithSpace(r)
    ensures |r| <= |s|
    ensures r == s <==> !StartsWithSpace(s) && !EndsWithSpace(s)
  {
    TrimLeft(TrimRight(s))
  }

  predicate Blank(s: string) {
    forall k :: 0 <= k < |s| ==> IsSpace(s[k])
  }

  lemma {:induction false} TrimLeftCuts(s: string)
    ensures forall k :: 0 <= k < |s| - |TrimLeft(s)| ==> IsSpace(s[k])
    decreases |s|
  {
    hide IsSpace;
    if StartsWithSpace(s) {
      var rest := s[1..];
      TrimLeftCuts(rest);
      forall k | 0 <= k < |s| - |TrimLeft(s)| ensures IsSpace(s[k]) {
        if k > 0 {
          assert s[k] == rest[k - 1];
        }
      }
    }
  }

  lemma {:induction false} TrimRightCuts(s: string)
    ensures s == TrimRight(s) + s[|TrimRight(s)|..] && Blank(s[|TrimRight(s)|..])
    decreases |s|
  {
    hide IsSpace;
    if EndsWithSpace(s) {
      var init := s[..|s| - 1];
      TrimRightCuts(init);
      assert s[|TrimRight(s)|..] == init[|TrimRight(s)|..] + [s[|s| - 1]];
    }
  }

  // Trimming cuts white space at both ends, and nothing else.
  lemma TrimSpaceCuts(s: string) returns (before: string, after: string)
    ensures s == before + TrimSpace(s) + after && Blank(before) && Blank(after)
  {
    TrimRightCuts(s);
    var r := TrimRight(s);
    TrimLeftCuts(r);
    before, after := r[..|r| - |TrimLeft(r)|], s[|r|..];
    assert r == before + TrimLeft(r);
  }

  // strings.Join.
  function Join(p: seq<string>, sep: string): string {
    if p == [] then "" else if |p| == 1 then p[0] else p[0] + sep + Join(p[1..], sep)
  }
}
