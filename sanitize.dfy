/** What `sanitize_inner` deletes. Each removal is given a ghost match
    predicate in plain positions; lemmas show that the scanner finds the
    match Python's engine reports, and that `re.sub` keeps the text before
    the leftmost match, drops the match and resumes after it. */
module Sanitize {

  import opened Wrappers
  import opened Text
  import opened Extract

  /** `name[^>]*>`, ignoring case, matches s[n..e]. */
  predicate TagFrom(s: string, n: nat, e: nat, name: string)
  {
    StartsAtCI(s, n, name) && n + |name| < e <= |s| && s[e - 1] == '>'
    && NoneIn(s, n + |name|, e - 1, IsGt)
  }

  /** s[i..e] is a match of `pat`: `<head`, anything, then `</head>`; or `<`,
      an optional `/`, the tag name and a run without `>` closed by `>`. */
  ghost predicate PatMatch(s: string, i: nat, e: nat, pat: Pattern)
  {
    i < e <= |s| &&
    match pat
    case HeadBlock =>
      StartsAtCI(s, i, "<head") && i + 12 <= e && StartsAtCI(s, e - 7, "</head>")
    case WrapperTag(name) =>
      s[i] == '<' &&
      (TagFrom(s, i + 1, e, name) || (i + 1 < |s| && s[i + 1] == '/' && TagFrom(s, i + 2, e, name)))
  }

  /** A tag name the scanner handles: non-empty and not itself starting with
      `/`, as `html` and `body` are. */
  predicate WellNamed(pat: Pattern)
  {
    pat.WrapperTag? ==> |pat.name| > 0 && pat.name[0] != '/'
  }

  /** What the scanner reports is a match. */
  lemma MatchEndIsMatch(s: string, i: nat, pat: Pattern)
    requires MatchEnd(s, i, pat).Some?
    ensures PatMatch(s, i, MatchEnd(s, i, pat).value, pat)
  {
  }

  /** Every match is seen by the scanner, which reports the shortest one:
      the lazy `.*?` stops at the first `</head>`, and a tag has one end only. */
  lemma MatchIsFound(s: string, i: nat, e: nat, pat: Pattern)
    requires WellNamed(pat) && PatMatch(s, i, e, pat)
    ensures MatchEnd(s, i, pat).Some? && MatchEnd(s, i, pat).value <= e
    ensures pat.WrapperTag? ==> MatchEnd(s, i, pat).value == e
  {
    match pat
    case HeadBlock =>
      var f := FindCI(s, "</head>", i + 5);
      assert f.Some? && f.value <= e - 7;
    case WrapperTag(name) =>
      if s[i + 1] == '/' {
        assert !TagFrom(s, i + 1, e, name);
        FindCharExact(s, i + 2 + |name|, e - 1, IsGt);
      } else {
        FindCharExact(s, i + 1 + |name|, e - 1, IsGt);
      }
  }

  /** Where the scanner finds a match, it is the shortest match starting there. */
  lemma MatchEndIsShortest(s: string, i: nat, e: nat, pat: Pattern)
    requires WellNamed(pat)
    ensures MatchEnd(s, i, pat) == Some(e) <==>
      PatMatch(s, i, e, pat) && forall f: nat :: f < e ==> !PatMatch(s, i, f, pat)
  {
    if MatchEnd(s, i, pat) == Some(e) {
      MatchEndIsMatch(s, i, pat);
      forall f: nat | f < e && PatMatch(s, i, f, pat) ensures false {
        MatchIsFound(s, i, f, pat);
      }
    }
    if PatMatch(s, i, e, pat) && forall f: nat :: f < e ==> !PatMatch(s, i, f, pat) {
      MatchIsFound(s, i, e, pat);
      MatchEndIsMatch(s, i, pat);
    }
  }

  lemma DeleteAllEnd(s: string, pat: Pattern)
    ensures DeleteAll(s, |s|, pat) == []
  {
  }

  /** Text in which no match starts is copied through. */
  lemma {:induction false} DeleteAllUpTo(s: string, from: nat, hi: nat, pat: Pattern)
    requires from <= hi <= |s|
    requires forall k :: from <= k < hi ==> MatchEnd(s, k, pat).None?
    ensures DeleteAll(s, from, pat) == s[from..hi] + DeleteAll(s, hi, pat)
    decreases hi - from
  {
    if from < hi {
      DeleteAllUpTo(s, from + 1, hi, pat);
      DeleteAllKeep(s, from, hi, pat);
    } else {
      assert s[from..hi] == [];
    }
  }

  lemma DeleteAllKeep(s: string, from: nat, hi: nat, pat: Pattern)
    requires from < hi <= |s| && MatchEnd(s, from, pat).None?
    requires DeleteAll(s, from + 1, pat) == s[from + 1..hi] + DeleteAll(s, hi, pat)
    ensures DeleteAll(s, from, pat) == s[from..hi] + DeleteAll(s, hi, pat)
  {
    ConsSlice(s, from, hi, DeleteAll(s, hi, pat));
  }

  lemma ConsSlice<T>(s: seq<T>, from: nat, hi: nat, b: seq<T>)
    requires from < hi <= |s|
    ensures [s[from]] + (s[from + 1..hi] + b) == s[from..hi] + b
  {
    assert s[from..hi] == [s[from]] + s[from + 1..hi];
    AppendAssoc([s[from]], s[from + 1..hi], b);
  }

  /** A match found at `i` is deleted and the search resumes at its end. */
  lemma DeleteAllAt(s: string, i: nat, pat: Pattern)
    requires i <= |s| && MatchEnd(s, i, pat).Some?
    ensures DeleteAll(s, i, pat) == DeleteAll(s, MatchEnd(s, i, pat).value, pat)
  {
  }

  /** `re.sub` in terms of matches: when the leftmost match at or after
      `from` starts at `i` and its shortest end is `e`, the text before `i`
      is kept, s[i..e] is dropped and the search resumes at `e`. */
  lemma DeleteAllStep(s: string, from: nat, i: nat, e: nat, pat: Pattern)
    requires WellNamed(pat) && from <= i && PatMatch(s, i, e, pat)
    requires forall k, f :: from <= k < i ==> !PatMatch(s, k, f, pat)
    requires forall f: nat :: f < e ==> !PatMatch(s, i, f, pat)
    ensures DeleteAll(s, from, pat) == s[from..i] + DeleteAll(s, e, pat)
  {
    forall k | from <= k < i ensures MatchEnd(s, k, pat).None? {
      if MatchEnd(s, k, pat).Some? {
        MatchEndIsMatch(s, k, pat);
      }
    }
    DeleteAllUpTo(s, from, i, pat);
    MatchEndIsShortest(s, i, e, pat);
    DeleteAllAt(s, i, pat);
  }

  /** Text without a match at or after `from` is copied through whole. */
  lemma DeleteAllNone(s: string, from: nat, pat: Pattern)
    requires from <= |s|
    requires forall k, f :: from <= k ==> !PatMatch(s, k, f, pat)
    ensures DeleteAll(s, from, pat) == s[from..]
  {
    forall k | from <= k <= |s| ensures MatchEnd(s, k, pat).None? {
      if MatchEnd(s, k, pat).Some? {
        MatchEndIsMatch(s, k, pat);
      }
    }
  }

  /** A removal changes the text exactly when the expression matches in it. */
  lemma DeleteAllUnchangedIff(s: string, pat: Pattern)
    requires WellNamed(pat)
    ensures DeleteAll(s, 0, pat) == s <==> forall k, f :: !PatMatch(s, k, f, pat)
  {
    if forall k, f :: !PatMatch(s, k, f, pat) {
      DeleteAllNone(s, 0, pat);
    } else {
      var k, f :| PatMatch(s, k, f, pat);
      MatchIsFound(s, k, f, pat);
      DeleteAllShrinks(s, 0, k, pat);
    }
  }

  /** A match anywhere at or after `from` makes the result shorter. */
  lemma {:induction false} DeleteAllShrinks(s: string, from: nat, k: nat, pat: Pattern)
    requires from <= k <= |s| && MatchEnd(s, k, pat).Some?
    decreases k - from
    ensures |DeleteAll(s, from, pat)| < |s| - from
  {
    if MatchEnd(s, from, pat).None? {
      DeleteAllShrinks(s, from + 1, k, pat);
    }
  }

  lemma NoLtStrip(s: string)
    requires NoLt(s)
    ensures NoLt(Strip(s))
  {
    StripInfix(s);
  }

  lemma NoLtNoMatch(s: string, pat: Pattern)
    requires NoLt(s)
    ensures forall k :: 0 <= k <= |s| ==> MatchEnd(s, k, pat).None?
  {
  }

  lemma CutDoctypeNoLt(s: string)
    requires NoLt(s)
    ensures CutDoctype(s) == s
  {
    forall k: nat ensures !StartsAtCI(s, k, "<!doctype") {
      if StartsAtCI(s, k, "<!doctype") {
        StartsAtCIHead(s, k, "<!doctype");
      }
    }
  }

  lemma DeleteAllNoLt(a: string, pat: Pattern)
    requires NoLt(a)
    ensures DeleteAll(a, 0, pat) == a
  {
    NoLtNoMatch(a, pat);
    assert a[0..] == a;
  }

  lemma {:induction false} DeleteEachNoLt(a: string, pats: seq<Pattern>)
    requires NoLt(a) && Strip(a) == a
    ensures DeleteEach(a, pats) == a
  {
    if pats != [] {
      DeleteAllNoLt(a, pats[0]);
      DeleteEachNoLt(a, pats[1..]);
    }
  }

  /** Text without markup only loses its surrounding whitespace. */
  lemma SanitizePlainText(s: string)
    requires NoLt(s)
    ensures SanitizeInner(s) == Strip(s)
  {
    CutDoctypeNoLt(s);
    NoLtStrip(s);
    StripIdempotent(s);
    DeleteEachNoLt(Strip(s), Removals);
  }

  /** Everything from the first `<!doctype` (any case) to the end is lost,
      whatever follows it: the expression does not stop at the declaration. */
  lemma SanitizeDropsAllAfterDoctype(s: string, d: string, t: string)
    requires forall k :: 0 <= k < |s| ==> !StartsAtCI(s, k, "<!doctype")
    requires StartsAtCI(d, 0, "<!doctype")
    ensures SanitizeInner(s + d + t) == SanitizeInner(s)
  {
    var u := s + d + t;
    assert Lower(d[0 + 0]) == "<!doctype"[0];
    assert u[|s|] == d[0];
    forall k | 0 <= k < |s| ensures !StartsAtCI(u, k, "<!doctype") {
      if k + 9 <= |s| {
        if StartsAtCI(u, k, "<!doctype") {
          assert StartsAtCI(s, k, "<!doctype");
        }
      } else {
        assert Lower(u[k + (|s| - k)]) != "<!doctype"[|s| - k];
      }
    }
    assert forall q :: 0 <= q < 9 ==> u[|s| + q] == d[q];
    assert StartsAtCI(u, |s|, "<!doctype");
    var c := CutDoctype(u);
    assert |c| == |s|;
    assert CutDoctype(u) == s;
    assert CutDoctype(s) == s;
  }

  /** A literal starting with `<` cannot occur where there is no `<`. */
  lemma NotAtLt(s: string, k: nat, pat: string)
    requires k < |s| && s[k] != '<' && |pat| > 0 && pat[0] == '<'
    ensures !StartsAtCI(s, k, pat)
  {
    if k + |pat| <= |s| {
      assert Lower(s[k + 0]) != pat[0];
    }
  }

  /** Text without `<` is copied through by every removal. */
  lemma DeleteAllPlain(s: string, from: nat, hi: nat, pat: Pattern)
    requires from <= hi <= |s|
    requires forall k :: from <= k < hi ==> s[k] != '<'
    ensures DeleteAll(s, from, pat) == s[from..hi] + DeleteAll(s, hi, pat)
  {
    DeleteAllUpTo(s, from, hi, pat);
  }

  /** The literal starts with `<` and holds no other `<`: the shape of every
      opening the sanitiser looks for. */
  predicate LtFirst(pat: string)
  {
    |pat| > 0 && pat[0] == '<' && forall j :: 0 < j < |pat| ==> pat[j] != '<'
  }

  /** No occurrence of `pat`, in any case, lies within `x`. */
  predicate Avoids(x: string, pat: string)
  {
    forall k :: 0 <= k < |x| ==> !StartsAtCI(x, k, pat)
  }

  /** Body text holding none of the markup the sanitiser removes: no head
      block, no `html` or `body` tag and no doctype starts in it. Other
      markup, `<p>` or `<div>` say, is allowed. */
  predicate NoWrapperMarkup(x: string)
  {
    && Avoids(x, "<head") && Avoids(x, "<html") && Avoids(x, "</html")
    && Avoids(x, "<body") && Avoids(x, "</body") && Avoids(x, "<!doctype")
  }

  /** Head text that neither closes the head early nor declares a doctype. */
  predicate PlainHead(y: string)
  {
    Avoids(y, "</head>") && Avoids(y, "<!doctype")
  }

  /** Text followed by a `<` hides no opening of its own: an occurrence
      starting in it either lies within it or runs into that `<`, which no
      later character of the literal matches. */
  lemma AvoidsWithin(s: string, lo: nat, x: string, pat: string)
    requires lo + |x| <= |s| && forall j :: 0 <= j < |x| ==> s[lo + j] == x[j]
    requires LtFirst(pat) && Avoids(x, pat)
    requires lo + |x| == |s| || s[lo + |x|] == '<'
    ensures forall k :: lo <= k < lo + |x| ==> !StartsAtCI(s, k, pat)
  {
    forall k | lo <= k < lo + |x| ensures !StartsAtCI(s, k, pat) {
      if k + |pat| <= lo + |x| {
        StartsWithin(s, lo, x, k, pat);
      } else if k + |pat| <= |s| {
        var j := lo + |x| - k;
        assert s[k + j] == '<' && pat[j] != '<';
      }
    }
  }

  /** An occurrence lying within a copy of `x` is an occurrence in `x`. */
  lemma StartsWithin(s: string, lo: nat, x: string, k: nat, pat: string)
    requires lo + |x| <= |s| && forall j :: 0 <= j < |x| ==> s[lo + j] == x[j]
    requires lo <= k && k + |pat| <= lo + |x|
    ensures StartsAtCI(s, k, pat) ==> StartsAtCI(x, k - lo, pat)
  {
    if StartsAtCI(s, k, pat) {
      forall m | 0 <= m < |pat| ensures Lower(x[k - lo + m]) == pat[m] {
        assert s[lo + (k - lo + m)] == x[k - lo + m];
      }
    }
  }

  /** A case-insensitive literal followed by another is their concatenation. */
  lemma JoinCI(s: string, k: nat, lit: string, name: string)
    requires StartsAtCI(s, k, lit)
    ensures StartsAtCI(s, k + |lit|, name) ==> StartsAtCI(s, k, lit + name)
  {
    if StartsAtCI(s, k + |lit|, name) {
      forall j | 0 <= j < |lit + name| ensures Lower(s[k + j]) == (lit + name)[j] {
        if j >= |lit| {
          assert Lower(s[k + |lit| + (j - |lit|)]) == name[j - |lit|];
        }
      }
    }
  }

  /** A tag `</?name[^>]*>` can only start where `<name` or `</name` does. */
  lemma TagNone(s: string, k: nat, name: string)
    requires !StartsAtCI(s, k, "<" + name) && !StartsAtCI(s, k, "</" + name)
    ensures MatchEnd(s, k, WrapperTag(name)).None?
  {
    if k + 1 < |s| && s[k] == '<' {
      if s[k + 1] == '/' {
        assert Lower(s[k + 0]) == "</"[0] && Lower(s[k + 1]) == "</"[1];
        JoinCI(s, k, "</", name);
      } else {
        assert Lower(s[k + 0]) == "<"[0];
        JoinCI(s, k, "<", name);
      }
    }
  }

  /** A document of the usual shape holds no doctype declaration. */
  lemma WrappedHasNoDoctype(x: string, y: string)
    requires Avoids(x, "<!doctype") && Avoids(y, "<!doctype")
    ensures var s := "<html><head>" + y + "</head><body>" + x + "</body></html>";
      CutDoctype(s) == s
  {
    var s := "<html><head>" + y + "</head><body>" + x + "</body></html>";
    var Y, X := |y|, |x|;
    AvoidsWithin(s, 12, y, "<!doctype");
    AvoidsWithin(s, 25 + Y, x, "<!doctype");
    forall k | 0 <= k < |s| && !(12 <= k < 12 + Y) && !(25 + Y <= k < 25 + Y + X)
      ensures !StartsAtCI(s, k, "<!doctype")
    {
      if s[k] != '<' {
        NotAtLt(s, k, "<!doctype");
      } else if k + 9 <= |s| {
        assert k == 0 || k == 6 || k == 12 + Y || k == 19 + Y || k == 25 + Y + X;
        assert Lower(s[k + 1]) != "<!doctype"[1];
      }
    }
  }

  /** The head block of such a document starts at 6 and runs to its `</head>`. */
  lemma HeadBlockAt(x: string, y: string)
    requires Avoids(y, "</head>")
    ensures MatchEnd("<html><head>" + y + "</head><body>" + x + "</body></html>", 6, HeadBlock)
         == Some(19 + |y|)
  {
    var s := "<html><head>" + y + "</head><body>" + x + "</body></html>";
    HeadCloseFirst(x, y);
    assert StartsAtCI(s, 6, "<head");
    FindCIExact(s, "</head>", 11, 12 + |y|);
    assert MatchEnd(s, 6, HeadBlock) == Some(12 + |y| + 7);
  }

  lemma HeadCloseFirst(x: string, y: string)
    requires Avoids(y, "</head>")
    ensures var s := "<html><head>" + y + "</head><body>" + x + "</body></html>";
      forall k :: 11 <= k < 12 + |y| ==> !StartsAtCI(s, k, "</head>")
  {
    var s := "<html><head>" + y + "</head><body>" + x + "</body></html>";
    NotAtLt(s, 11, "</head>");
    AvoidsWithin(s, 12, y, "</head>");
  }

  /** No other head block starts in such a document. */
  lemma HeadBlockOnly(x: string, y: string)
    requires Avoids(x, "<head")
    ensures var s := "<html><head>" + y + "</head><body>" + x + "</body></html>";
      && (forall k :: 0 <= k < 6 ==> MatchEnd(s, k, HeadBlock).None?)
      && (forall k :: 19 + |y| <= k <= |s| ==> MatchEnd(s, k, HeadBlock).None?)
  {
    var s := "<html><head>" + y + "</head><body>" + x + "</body></html>";
    assert !StartsAtCI(s, 0, "<head") by {
      assert Lower(s[0 + 2]) != "<head"[2];
    }
    HeadBlockNoneAfter(x, y);
  }

  lemma HeadBlockNoneAfter(x: string, y: string)
    requires Avoids(x, "<head")
    ensures var s := "<html><head>" + y + "</head><body>" + x + "</body></html>";
      forall k :: 19 + |y| <= k < |s| ==> !StartsAtCI(s, k, "<head")
  {
    var s := "<html><head>" + y + "</head><body>" + x + "</body></html>";
    var Y, X := |y|, |x|;
    AvoidsWithin(s, 25 + Y, x, "<head");
    forall k | 19 + Y <= k < |s| && !(25 + Y <= k < 25 + Y + X) && s[k] == '<'
      ensures !StartsAtCI(s, k, "<head")
    {
      assert k == 19 + Y || k == 25 + Y + X || k == 32 + Y + X;
      assert Lower(s[k + 1]) != "<head"[1];
    }
  }

  /** The head block of such a document, with what it holds, is deleted. */
  lemma HeadBlockRemoved(x: string, y: string)
    requires Avoids(x, "<head") && Avoids(y, "</head>")
    ensures DeleteAll("<html><head>" + y + "</head><body>" + x + "</body></html>", 0, HeadBlock)
         == "<html><body>" + x + "</body></html>"
  {
    var s := "<html><head>" + y + "</head><body>" + x + "</body></html>";
    var e := 19 + |y|;
    HeadBlockOnly(x, y);
    HeadBlockAt(x, y);
    DeleteAllUpTo(s, 0, 6, HeadBlock);
    DeleteAllAt(s, 6, HeadBlock);
    DeleteAllUpTo(s, e, |s|, HeadBlock);
    DeleteAllEnd(s, HeadBlock);
    HeadSlices(x, y);
  }

  lemma HeadSlices(x: string, y: string)
    ensures var s := "<html><head>" + y + "</head><body>" + x + "</body></html>";
      s[0..6] + (s[19 + |y|..|s|] + []) == "<html><body>" + x + "</body></html>"
  {
    var s := "<html><head>" + y + "</head><body>" + x + "</body></html>";
    assert s[0..6] == "<html>";
    assert s[19 + |y|..|s|] + [] == "<body>" + x + "</body></html>";
  }

  /** Where the `html` tags of such a document are. */
  lemma HtmlTagsAt(x: string)
    ensures var s := "<html><body>" + x + "</body></html>";
      && MatchEnd(s, 0, WrapperTag("html")) == Some(6)
      && MatchEnd(s, 19 + |x|, WrapperTag("html")) == Some(26 + |x|)
  {
    var s := "<html><body>" + x + "</body></html>";
    FindCharExact(s, 5, 5, IsGt);
    FindCharExact(s, 25 + |x|, 25 + |x|, IsGt);
  }

  /** No other `html` tag starts between them. */
  lemma HtmlTagsOnly(x: string)
    requires Avoids(x, "<html") && Avoids(x, "</html")
    ensures var s := "<html><body>" + x + "</body></html>";
      forall k :: 6 <= k < 19 + |x| ==> MatchEnd(s, k, WrapperTag("html")).None?
  {
    var s := "<html><body>" + x + "</body></html>";
    var X := |x|;
    AvoidsWithin(s, 12, x, "<html");
    AvoidsWithin(s, 12, x, "</html");
    assert "<" + "html" == "<html" && "</" + "html" == "</html";
    forall k | 12 <= k < 12 + X ensures MatchEnd(s, k, WrapperTag("html")).None? {
      TagNone(s, k, "html");
    }
    forall k | 6 <= k < 19 + X && !(12 <= k < 12 + X) && s[k] == '<'
      ensures MatchEnd(s, k, WrapperTag("html")).None?
    {
      assert k == 6 || k == 12 + X;
      var n := if s[k + 1] == '/' then k + 2 else k + 1;
      assert Lower(s[n + 0]) != "html"[0];
    }
  }

  /** Both `html` tags of such a document are deleted. */
  lemma HtmlTagsRemoved(x: string)
    requires Avoids(x, "<html") && Avoids(x, "</html")
    ensures DeleteAll("<html><body>" + x + "</body></html>", 0, WrapperTag("html"))
         == "<body>" + x + "</body>"
  {
    var s := "<html><body>" + x + "</body></html>";
    var pat := WrapperTag("html");
    HtmlTagsAt(x);
    HtmlTagsOnly(x);
    DeleteAllAt(s, 0, pat);
    DeleteAllUpTo(s, 6, 19 + |x|, pat);
    DeleteAllAt(s, 19 + |x|, pat);
    DeleteAllEnd(s, pat);
    HtmlSlice(x);
  }

  lemma HtmlSlice(x: string)
    ensures ("<html><body>" + x + "</body></html>")[6..19 + |x|] == "<body>" + x + "</body>"
  {
  }

  /** Where the `body` tags of such a document are. */
  lemma BodyTagsAt(x: string)
    ensures var s := "<body>" + x + "</body>";
      && MatchEnd(s, 0, WrapperTag("body")) == Some(6)
      && MatchEnd(s, 6 + |x|, WrapperTag("body")) == Some(13 + |x|)
  {
    var s := "<body>" + x + "</body>";
    FindCharExact(s, 5, 5, IsGt);
    FindCharExact(s, 12 + |x|, 12 + |x|, IsGt);
  }

  /** No other `body` tag starts between them. */
  lemma BodyTagsOnly(x: string)
    requires Avoids(x, "<body") && Avoids(x, "</body")
    ensures var s := "<body>" + x + "</body>";
      forall k :: 6 <= k < 6 + |x| ==> MatchEnd(s, k, WrapperTag("body")).None?
  {
    var s := "<body>" + x + "</body>";
    AvoidsWithin(s, 6, x, "<body");
    AvoidsWithin(s, 6, x, "</body");
    assert "<" + "body" == "<body" && "</" + "body" == "</body";
    forall k | 6 <= k < 6 + |x| ensures MatchEnd(s, k, WrapperTag("body")).None? {
      TagNone(s, k, "body");
    }
  }

  /** Both `body` tags of such a document are deleted, leaving the content. */
  lemma BodyTagsRemoved(x: string)
    requires Avoids(x, "<body") && Avoids(x, "</body")
    ensures DeleteAll("<body>" + x + "</body>", 0, WrapperTag("body")) == x
  {
    var s := "<body>" + x + "</body>";
    var pat := WrapperTag("body");
    BodyTagsAt(x);
    BodyTagsOnly(x);
    DeleteAllAt(s, 0, pat);
    DeleteAllUpTo(s, 6, 6 + |x|, pat);
    DeleteAllAt(s, 6 + |x|, pat);
    DeleteAllEnd(s, pat);
    assert s[6..6 + |x|] == x;
  }

  /** The sanitiser unwraps a whole document: the head block and the `html`
      and `body` tags go, and the body's content, markup and all, is what is
      left, stripped. */
  lemma SanitizeWrappedDocument(x: string, y: string)
    requires NoWrapperMarkup(x) && PlainHead(y)
    ensures SanitizeInner("<html><head>" + y + "</head><body>" + x + "</body></html>") == Strip(x)
  {
    var s1 := "<html><head>" + y + "</head><body>" + x + "</body></html>";
    var s2 := "<html><body>" + x + "</body></html>";
    var s3 := "<body>" + x + "</body>";
    WrappedHasNoDoctype(x, y);
    StripTrimmedText(s1);
    HeadBlockRemoved(x, y);
    StripTrimmedText(s2);
    HtmlTagsRemoved(x);
    StripTrimmedText(s3);
    BodyTagsRemoved(x);
    assert DeleteEach(s1, Removals) == DeleteEach(s2, Removals[1..]);
    assert DeleteEach(s2, Removals[1..]) == DeleteEach(s3, Removals[2..]);
    assert DeleteEach(s3, Removals[2..]) == DeleteEach(Strip(x), []);
  }

  /** A page with a title in its head and a paragraph in its body comes out
      as the paragraph, tags and all. */
  lemma SanitizeParagraphPage()
    ensures SanitizeInner("<html><head>" + "<title>T</title>" + "</head><body>" + "<p>X</p>" + "</body></html>")
         == "<p>X</p>"
  {
    var x := "<p>X</p>";
    ParagraphIsPlainBody();
    TitleIsPlainHead();
    SanitizeWrappedDocument(x, "<title>T</title>");
    ParagraphIsTrimmed();
  }

  lemma ParagraphIsTrimmed()
    ensures Strip("<p>X</p>") == "<p>X</p>"
  {
    var x := "<p>X</p>";
    assert x[0] == '<' && x[|x| - 1] == '>';
    StripTrimmedText(x);
  }

  lemma ParagraphIsPlainBody()
    ensures NoWrapperMarkup("<p>X</p>")
  {
    var x := "<p>X</p>";
    forall k, pat | 0 <= k < |x| && pat in ["<head", "<html", "</html", "<body", "</body", "<!doctype"]
      ensures !StartsAtCI(x, k, pat)
    {
      if k + |pat| <= |x| {
        assert Lower(x[k + 1]) != pat[1];
      }
    }
  }

  lemma TitleIsPlainHead()
    ensures PlainHead("<title>T</title>")
  {
    var y := "<title>T</title>";
    forall k, pat | 0 <= k < |y| && pat in ["</head>", "<!doctype"] ensures !StartsAtCI(y, k, pat) {
      if k + |pat| <= |y| {
        assert Lower(y[k]) != pat[0] || Lower(y[k + 1]) != pat[1] || Lower(y[k + 2]) != pat[2];
      }
    }
  }
}
