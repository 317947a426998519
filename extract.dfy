/** The HTML helpers of rebuild_site_v2.py: `parse_title_and_desc`,
    `extract_body_inner` and `sanitize_inner`. Each regular expression is a
    hand-written scanner. Beside each scanner, a ghost predicate states in
    plain positions what a match of the expression is, and lemmas show that
    the scanner finds the match Python's engine reports: the leftmost start,
    then the longest choice for a greedy quantifier, the shortest for a lazy one. */
module Extract {

  import opened Wrappers
  import opened Text

  predicate IsGt(c: char)
  {
    c == '>'
  }

  predicate IsQuote(c: char)
  {
    c == '\'' || c == '"'
  }

  /** Where a `[^>]*` run that starts at `from` has to stop. */
  function GtFrom(s: string, from: nat): nat
  {
    FindChar(s, from, IsGt)
  }

  /** A case-insensitive literal without `>` in it contains no `>` in `s`. */
  lemma LiteralHasNoGt(s: string, i: nat, pat: string)
    requires StartsAtCI(s, i, pat)
    requires forall q :: 0 <= q < |pat| ==> pat[q] != '>'
    ensures NoneIn(s, i, i + |pat|, IsGt)
  {
    forall k | i <= k < i + |pat| ensures !IsGt(s[k]) {
      assert Lower(s[i + (k - i)]) == pat[k - i];
    }
  }

  // ===========================================================================
  // Searches over positions

  /** The expressions whose start a search looks for. */
  datatype Start = TitleStart | BodyStart | MetaStart

  /** A match of the expression can start at `i`. */
  predicate StartsHere(s: string, p: Start, i: nat)
  {
    match p
    case TitleStart => TitleAt(s, i)
    case BodyStart => BodyAt(s, i)
    case MetaStart => MetaAt(s, i)
  }

  /** The least position in [lo, hi] where a match of `p` starts: the order
      in which a regex engine tries start positions. */
  function First(s: string, p: Start, lo: nat, hi: nat): (r: Option<nat>)
    decreases if lo <= hi then hi - lo + 1 else 0
    ensures r.Some? ==> lo <= r.value <= hi && StartsHere(s, p, r.value)
    ensures r.Some? ==> forall k :: lo <= k < r.value ==> !StartsHere(s, p, k)
    ensures r.None? ==> forall k :: lo <= k <= hi ==> !StartsHere(s, p, k)
  {
    if lo > hi then None
    else if StartsHere(s, p, lo) then Some(lo)
    else First(s, p, lo + 1, hi)
  }

  // ===========================================================================
  // <title[^>]*>(.*?)</title>   with re.I and re.S

  /** A match of the title expression starting at `i`: the `>` closing the
      opening tag is at `gt` and the group is s[gt+1..e]. */
  ghost predicate TitleMatch(s: string, i: nat, gt: nat, e: nat)
  {
    && StartsAtCI(s, i, "<title")
    && i + 6 <= gt < |s| && s[gt] == '>' && NoneIn(s, i + 6, gt, IsGt)
    && gt + 1 <= e && StartsAtCI(s, e, "</title>")
  }

  /** The lazy `(.*?)</title>`: the first closing tag after the opening one. */
  function TitleClose(s: string, gt: nat): Option<nat>
  {
    FindCI(s, "</title>", gt + 1)
  }

  predicate TitleAt(s: string, i: nat)
  {
    StartsAtCI(s, i, "<title") && GtFrom(s, i + 6) < |s| && TitleClose(s, GtFrom(s, i + 6)).Some?
  }

  /** The raw group of the first title match. */
  function FindTitle(s: string): Option<string>
  {
    match First(s, TitleStart, 0, |s|)
    case None => None
    case Some(i) =>
      var gt := GtFrom(s, i + 6);
      Some(s[gt + 1..TitleClose(s, gt).value])
  }

  /** The title half of `parse_title_and_desc`: the group with whitespace runs
      collapsed, then stripped. */
  function ParseTitle(s: string): (r: Option<string>)
    ensures r.Some? <==> FindTitle(s).Some?
    ensures r.Some? ==> SingleSpaced(r.value)
  {
    match FindTitle(s)
    case None => None
    case Some(g) =>
      StripCollapseSingleSpaced(g);
      Some(Strip(CollapseSpace(g)))
  }

  /** A scanner hit is a match of the expression. */
  lemma TitleAtMatches(s: string, i: nat)
    requires TitleAt(s, i)
    ensures TitleMatch(s, i, GtFrom(s, i + 6), TitleClose(s, GtFrom(s, i + 6)).value)
  {
  }

  /** A match makes the scanner hit at its start. */
  lemma TitleMatchIsAt(s: string, i: nat, gt: nat, e: nat)
    requires TitleMatch(s, i, gt, e)
    ensures GtFrom(s, i + 6) == gt && TitleAt(s, i)
  {
    FindCharExact(s, i + 6, gt, IsGt);
  }

  /** A title is found exactly when the expression matches somewhere. */
  lemma ParseTitleSomeIff(s: string)
    ensures ParseTitle(s).Some? <==> exists i: nat, gt: nat, e: nat :: TitleMatch(s, i, gt, e)
  {
    var f := First(s, TitleStart, 0, |s|);
    if f.Some? {
      TitleAtMatches(s, f.value);
    }
    if exists i: nat, gt: nat, e: nat :: TitleMatch(s, i, gt, e) {
      var i: nat, gt: nat, e: nat :| TitleMatch(s, i, gt, e);
      TitleMatchIsAt(s, i, gt, e);
      assert StartsHere(s, TitleStart, i);
    }
  }

  /** No match of the title expression starts before `i`, and none starting
      at `i` ends before `e`. */
  ghost predicate LeftmostShortest(s: string, i: nat, e: nat)
  {
    forall i2: nat, gt2: nat, e2: nat :: TitleMatch(s, i2, gt2, e2) ==> i <= i2 && (i2 == i ==> e <= e2)
  }

  /** The title is the normalised group of the leftmost match, cut at the
      first `</title>` after the opening tag. */
  lemma ParseTitleIsLeftmostShortest(s: string, i: nat, gt: nat, e: nat)
    requires TitleMatch(s, i, gt, e)
    requires LeftmostShortest(s, i, e)
    ensures ParseTitle(s) == Some(Strip(CollapseSpace(s[gt + 1..e])))
  {
    FindTitleIs(s, i, gt, e);
  }

  lemma FindTitleIs(s: string, i: nat, gt: nat, e: nat)
    requires TitleMatch(s, i, gt, e)
    requires LeftmostShortest(s, i, e)
    ensures FindTitle(s) == Some(s[gt + 1..e])
  {
    TitleFirstIs(s, i, gt, e);
    TitleCloseIs(s, i, gt, e);
    TitleMatchIsAt(s, i, gt, e);
  }

  /** The scanner's first hit is the leftmost match. */
  lemma TitleFirstIs(s: string, i: nat, gt: nat, e: nat)
    requires TitleMatch(s, i, gt, e)
    requires LeftmostShortest(s, i, e)
    ensures First(s, TitleStart, 0, |s|) == Some(i)
  {
    TitleMatchIsAt(s, i, gt, e);
    assert StartsHere(s, TitleStart, i);
    var f := First(s, TitleStart, 0, |s|);
    assert f.Some? && f.value <= i;
    var i0 := f.value;
    TitleAtMatches(s, i0);
    assert TitleMatch(s, i0, GtFrom(s, i0 + 6), TitleClose(s, GtFrom(s, i0 + 6)).value);
  }

  /** The lazy group ends at the shortest match's closing tag. */
  lemma TitleCloseIs(s: string, i: nat, gt: nat, e: nat)
    requires TitleMatch(s, i, gt, e)
    requires LeftmostShortest(s, i, e)
    ensures TitleClose(s, gt) == Some(e)
  {
    TitleMatchIsAt(s, i, gt, e);
    var e0 := TitleClose(s, gt).value;
    assert TitleMatch(s, i, gt, e0);
  }

  // ===========================================================================
  // <meta[^>]+name=['"]description['"][^>]+content=['"]([^'"]+)['"]   with re.I

  /** `name=` quote `description` quote, at `j`. */
  predicate NameAt(s: string, j: nat)
  {
    && StartsAtCI(s, j, "name=") && j + 18 <= |s| && IsQuote(s[j + 5])
    && StartsAtCI(s, j + 6, "description") && IsQuote(s[j + 17])
  }

  /** A match of the description expression starting at `i`, with `name=` at
      `j`, `content=` at `k`, and the group s[k+9..m] closed by the quote at `m`. */
  ghost predicate MetaMatch(s: string, i: nat, j: nat, k: nat, m: nat)
  {
    && StartsAtCI(s, i, "<meta")
    && i + 6 <= j <= |s| && NoneIn(s, i + 5, j, IsGt) && NameAt(s, j)
    && j + 19 <= k <= |s| && NoneIn(s, j + 18, k, IsGt)
    && StartsAtCI(s, k, "content=") && k + 8 < |s| && IsQuote(s[k + 8])
    && k + 10 <= m < |s| && NoneIn(s, k + 9, m, IsQuote) && IsQuote(s[m])
  }

  /** The greedy `[^'"]+` of the group runs up to the first quote. */
  function QuoteFrom(s: string, from: nat): nat
  {
    FindChar(s, from, IsQuote)
  }

  /** `content=` quote, then a non-empty quote-free value and a closing quote, at `k`. */
  predicate ContentAt(s: string, k: nat)
  {
    && StartsAtCI(s, k, "content=") && k + 8 < |s| && IsQuote(s[k + 8])
    && k + 10 <= QuoteFrom(s, k + 9) < |s|
  }

  /** The second greedy `[^>]+` gives back characters from the end of the tag
      (index `t`) until `content=` fits: the last candidate wins. */
  function LastContent(s: string, j: nat, t: nat): Option<nat>
  {
    ContentDown(s, j + 19, t)
  }

  /** The greatest position in [lo, hi] where `content=` and its value fit. */
  function ContentDown(s: string, lo: nat, hi: nat): (r: Option<nat>)
    decreases hi
    ensures r.Some? ==> lo <= r.value <= hi && ContentAt(s, r.value)
    ensures r.Some? ==> forall k :: r.value < k <= hi ==> !ContentAt(s, k)
    ensures r.None? ==> forall k :: lo <= k <= hi ==> !ContentAt(s, k)
  {
    if lo > hi then None
    else if ContentAt(s, hi) then Some(hi)
    else if hi == lo then None
    else ContentDown(s, lo, hi - 1)
  }

  predicate NameWithContent(s: string, j: nat, t: nat)
  {
    NameAt(s, j) && LastContent(s, j, t).Some?
  }

  /** The first greedy `[^>]+` likewise settles on the last workable `name=`. */
  function LastName(s: string, i: nat, t: nat): Option<nat>
  {
    NameDown(s, t, i + 6, t)
  }

  /** The greatest position in [lo, hi] where `name="description"` fits with
      a `content=` after it inside the tag. */
  function NameDown(s: string, t: nat, lo: nat, hi: nat): (r: Option<nat>)
    decreases hi
    ensures r.Some? ==> lo <= r.value <= hi && NameWithContent(s, r.value, t)
    ensures r.Some? ==> forall k :: r.value < k <= hi ==> !NameWithContent(s, k, t)
    ensures r.None? ==> forall k :: lo <= k <= hi ==> !NameWithContent(s, k, t)
  {
    if lo > hi then None
    else if NameWithContent(s, hi, t) then Some(hi)
    else if hi == lo then None
    else NameDown(s, t, lo, hi - 1)
  }

  predicate MetaAt(s: string, i: nat)
  {
    StartsAtCI(s, i, "<meta") && LastName(s, i, GtFrom(s, i + 5)).Some?
  }

  /** The raw group of the first description match. */
  function FindDescription(s: string): Option<string>
  {
    match First(s, MetaStart, 0, |s|)
    case None => None
    case Some(i) =>
      var t := GtFrom(s, i + 5);
      var j := LastName(s, i, t).value;
      var k := LastContent(s, j, t).value;
      Some(s[k + 9..QuoteFrom(s, k + 9)])
  }

  /** The description half of `parse_title_and_desc`: the group, stripped. */
  function ParseDescription(s: string): (r: Option<string>)
    ensures r.Some? <==> FindDescription(s).Some?
    ensures r.Some? ==> r.value == [] || (!IsSpace(r.value[0]) && !IsSpace(r.value[|r.value| - 1]))
  {
    match FindDescription(s)
    case None => None
    case Some(g) => Some(Strip(g))
  }

  /** The positions a match passes through hold no `>` up to `content=`. */
  lemma MetaMatchWithinTag(s: string, i: nat, j: nat, k: nat, m: nat)
    requires MetaMatch(s, i, j, k, m)
    ensures j <= GtFrom(s, i + 5) && k <= GtFrom(s, i + 5)
  {
    LiteralHasNoGt(s, j, "name=");
    LiteralHasNoGt(s, j + 6, "description");
    assert NoneIn(s, i + 5, k, IsGt);
    NoneInUpTo(s, i + 5, k, IsGt);
  }

  /** Candidates inside the tag are matches. */
  lemma CandidateMatches(s: string, i: nat, j: nat, k: nat)
    requires StartsAtCI(s, i, "<meta")
    requires i + 6 <= j && NameAt(s, j) && j + 19 <= k && ContentAt(s, k)
    requires k <= GtFrom(s, i + 5)
    ensures MetaMatch(s, i, j, k, QuoteFrom(s, k + 9))
  {
    NoneInUpTo(s, i + 5, k, IsGt);
    assert NoneIn(s, i + 5, j, IsGt);
  }

  /** A scanner hit is a match of the expression. */
  lemma MetaAtMatches(s: string, i: nat)
    requires MetaAt(s, i)
    ensures var t := GtFrom(s, i + 5);
      var j := LastName(s, i, t).value;
      var k := LastContent(s, j, t).value;
      MetaMatch(s, i, j, k, QuoteFrom(s, k + 9))
  {
    var t := GtFrom(s, i + 5);
    var j := LastName(s, i, t).value;
    var k := LastContent(s, j, t).value;
    CandidateMatches(s, i, j, k);
  }

  /** A match makes the scanner hit at its start. */
  lemma MetaMatchIsAt(s: string, i: nat, j: nat, k: nat, m: nat)
    requires MetaMatch(s, i, j, k, m)
    ensures MetaAt(s, i)
    ensures QuoteFrom(s, k + 9) == m
  {
    MetaMatchWithinTag(s, i, j, k, m);
    FindCharExact(s, k + 9, m, IsQuote);
    var t := GtFrom(s, i + 5);
    assert ContentAt(s, k);
    assert NameWithContent(s, j, t);
  }

  /** A description is found exactly when the expression matches somewhere. */
  lemma ParseDescriptionSomeIff(s: string)
    ensures ParseDescription(s).Some? <==> exists i: nat, j: nat, k: nat, m: nat :: MetaMatch(s, i, j, k, m)
  {
    var f := First(s, MetaStart, 0, |s|);
    if f.Some? {
      MetaAtMatches(s, f.value);
    }
    if exists i: nat, j: nat, k: nat, m: nat :: MetaMatch(s, i, j, k, m) {
      var i: nat, j: nat, k: nat, m: nat :| MetaMatch(s, i, j, k, m);
      MetaMatchIsAt(s, i, j, k, m);
      assert StartsHere(s, MetaStart, i);
    }
  }

  /** The match the backtracking engine reports among all matches: leftmost
      start, then the last `name=` that still admits a `content=`, then the
      last such `content=`. */
  ghost predicate MetaPreferred(s: string, i: nat, j: nat, k: nat)
  {
    forall i2: nat, j2: nat, k2: nat, m2: nat :: MetaMatch(s, i2, j2, k2, m2) ==>
      i <= i2 && (i2 == i ==> j2 <= j && (j2 == j ==> k2 <= k))
  }

  /** The search for a start settles on the leftmost match. */
  lemma MetaStartIsLeftmost(s: string, i: nat, j: nat, k: nat, m: nat)
    requires MetaMatch(s, i, j, k, m)
    requires MetaPreferred(s, i, j, k)
    ensures First(s, MetaStart, 0, |s|) == Some(i)
  {
    MetaMatchIsAt(s, i, j, k, m);
    assert StartsHere(s, MetaStart, i);
    var f := First(s, MetaStart, 0, |s|);
    assert f.Some? && f.value <= i;
    var i0 := f.value;
    MetaAtMatches(s, i0);
    var t0 := GtFrom(s, i0 + 5);
    var j1 := LastName(s, i0, t0).value;
    var k1 := LastContent(s, j1, t0).value;
    var m1 := QuoteFrom(s, k1 + 9);
    assert MetaMatch(s, i0, j1, k1, m1);
    assert i <= i0;
  }

  /** Within the tag, the first `[^>]+` stops at the last workable `name=`. */
  lemma MetaNameIsLast(s: string, i: nat, j: nat, k: nat, m: nat)
    requires MetaMatch(s, i, j, k, m)
    requires MetaPreferred(s, i, j, k)
    ensures LastName(s, i, GtFrom(s, i + 5)) == Some(j)
  {
    var t := GtFrom(s, i + 5);
    MetaMatchIsAt(s, i, j, k, m);
    MetaMatchWithinTag(s, i, j, k, m);
    assert ContentAt(s, k);
    assert NameWithContent(s, j, t);
    var j0 := LastName(s, i, t).value;
    var k0 := LastContent(s, j0, t).value;
    MetaAtMatches(s, i);
    assert MetaMatch(s, i, j0, k0, QuoteFrom(s, k0 + 9));
  }

  /** After `name=`, the second `[^>]+` stops at the last `content=`. */
  lemma MetaContentIsLast(s: string, i: nat, j: nat, k: nat, m: nat)
    requires MetaMatch(s, i, j, k, m)
    requires LastName(s, i, GtFrom(s, i + 5)) == Some(j)
    requires MetaPreferred(s, i, j, k)
    ensures LastContent(s, j, GtFrom(s, i + 5)) == Some(k)
  {
    var t := GtFrom(s, i + 5);
    MetaMatchIsAt(s, i, j, k, m);
    MetaMatchWithinTag(s, i, j, k, m);
    assert ContentAt(s, k);
    var k0 := LastContent(s, j, t).value;
    MetaAtMatches(s, i);
    assert MetaMatch(s, i, j, k0, QuoteFrom(s, k0 + 9));
  }

  /** The description is the stripped group of the match the engine reports:
      leftmost start, then the last `name=` that still admits a `content=`,
      then the last such `content=`. */
  lemma ParseDescriptionIsBacktrackingChoice(s: string, i: nat, j: nat, k: nat, m: nat)
    requires MetaMatch(s, i, j, k, m) && MetaPreferred(s, i, j, k)
    ensures ParseDescription(s) == Some(Strip(s[k + 9..m]))
  {
    FindDescriptionIs(s, i, j, k, m);
  }

  lemma FindDescriptionIs(s: string, i: nat, j: nat, k: nat, m: nat)
    requires MetaMatch(s, i, j, k, m) && MetaPreferred(s, i, j, k)
    ensures FindDescription(s) == Some(s[k + 9..m])
  {
    MetaStartIsLeftmost(s, i, j, k, m);
    MetaNameIsLast(s, i, j, k, m);
    MetaContentIsLast(s, i, j, k, m);
    MetaMatchIsAt(s, i, j, k, m);
  }

  /** `parse_title_and_desc`: (title, meta description), each absent when its
      expression does not match. */
  function ParseTitleAndDesc(s: string): (r: (Option<string>, Option<string>))
    ensures r.0.Some? <==> exists i: nat, gt: nat, e: nat :: TitleMatch(s, i, gt, e)
    ensures r.1.Some? <==> exists i: nat, j: nat, k: nat, m: nat :: MetaMatch(s, i, j, k, m)
    ensures r.0.Some? ==> SingleSpaced(r.0.value)
  {
    ParseTitleSomeIff(s);
    ParseDescriptionSomeIff(s);
    (ParseTitle(s), ParseDescription(s))
  }

  // ===========================================================================
  // <body[^>]*>(.*)</body>   with re.I and re.S

  /** A match of the body expression starting at `i`; the group is s[gt+1..e]. */
  ghost predicate BodyMatch(s: string, i: nat, gt: nat, e: nat)
  {
    && StartsAtCI(s, i, "<body")
    && i + 5 <= gt < |s| && s[gt] == '>' && NoneIn(s, i + 5, gt, IsGt)
    && gt + 1 <= e && StartsAtCI(s, e, "</body>")
  }

  /** The greedy `(.*)</body>`: the last closing tag after the opening one. */
  function BodyClose(s: string, gt: nat): Option<nat>
  {
    FindLastCI(s, "</body>", gt + 1)
  }

  predicate BodyAt(s: string, i: nat)
  {
    StartsAtCI(s, i, "<body") && GtFrom(s, i + 5) < |s| && BodyClose(s, GtFrom(s, i + 5)).Some?
  }

  /** `extract_body_inner`: the stripped group of the first match, or the
      whole text when nothing matches. */
  function ExtractBodyInner(s: string): (r: string)
    ensures |r| <= |s|
  {
    match FindBody(s)
    case None => s
    case Some(g) => Strip(g)
  }

  /** The raw group of the first body match. */
  function FindBody(s: string): (r: Option<string>)
    ensures r.Some? ==> |r.value| < |s|
  {
    match First(s, BodyStart, 0, |s|)
    case None => None
    case Some(i) =>
      var gt := GtFrom(s, i + 5);
      Some(s[gt + 1..BodyClose(s, gt).value])
  }

  lemma BodyAtMatches(s: string, i: nat)
    requires BodyAt(s, i)
    ensures BodyMatch(s, i, GtFrom(s, i + 5), BodyClose(s, GtFrom(s, i + 5)).value)
  {
  }

  lemma BodyMatchIsAt(s: string, i: nat, gt: nat, e: nat)
    requires BodyMatch(s, i, gt, e)
    ensures GtFrom(s, i + 5) == gt && BodyAt(s, i)
  {
    FindCharExact(s, i + 5, gt, IsGt);
  }

  /** The text comes back unchanged exactly when the expression matches
      nowhere; a match always yields something shorter. */
  lemma ExtractBodyInnerUnchangedIff(s: string)
    ensures ExtractBodyInner(s) == s <==> forall i: nat, gt: nat, e: nat :: !BodyMatch(s, i, gt, e)
  {
    FindBodySomeIff(s);
  }

  /** The group is found exactly when the expression matches somewhere. */
  lemma FindBodySomeIff(s: string)
    ensures FindBody(s).Some? <==> exists i: nat, gt: nat, e: nat :: BodyMatch(s, i, gt, e)
  {
    var f := First(s, BodyStart, 0, |s|);
    if f.Some? {
      BodyAtMatches(s, f.value);
    }
    if exists i: nat, gt: nat, e: nat :: BodyMatch(s, i, gt, e) {
      var i: nat, gt: nat, e: nat :| BodyMatch(s, i, gt, e);
      BodyMatchIsAt(s, i, gt, e);
      assert StartsHere(s, BodyStart, i);
    }
  }

  /** With a match, the result is the stripped text between the end of the
      first `<body…>` tag and the LAST `</body>` after it. */
  lemma ExtractBodyInnerIsLeftmostLongest(s: string, i: nat, gt: nat, e: nat)
    requires BodyMatch(s, i, gt, e)
    requires LeftmostLongest(s, i, e)
    ensures ExtractBodyInner(s) == Strip(s[gt + 1..e])
  {
    FindBodyIs(s, i, gt, e);
  }

  lemma FindBodyIs(s: string, i: nat, gt: nat, e: nat)
    requires BodyMatch(s, i, gt, e)
    requires LeftmostLongest(s, i, e)
    ensures FindBody(s) == Some(s[gt + 1..e])
  {
    BodyFirstIs(s, i, gt, e);
    BodyCloseIs(s, i, gt, e);
    BodyMatchIsAt(s, i, gt, e);
  }

  /** No match of the body expression starts before `i`, and none starting
      at `i` ends after `e`. */
  ghost predicate LeftmostLongest(s: string, i: nat, e: nat)
  {
    forall i2: nat, gt2: nat, e2: nat :: BodyMatch(s, i2, gt2, e2) ==> i <= i2 && (i2 == i ==> e2 <= e)
  }

  /** The scanner's first hit is the leftmost match. */
  lemma BodyFirstIs(s: string, i: nat, gt: nat, e: nat)
    requires BodyMatch(s, i, gt, e)
    requires LeftmostLongest(s, i, e)
    ensures First(s, BodyStart, 0, |s|) == Some(i)
  {
    BodyMatchIsAt(s, i, gt, e);
    assert StartsHere(s, BodyStart, i);
    var f := First(s, BodyStart, 0, |s|);
    assert f.Some? && f.value <= i;
    var i0 := f.value;
    BodyAtMatches(s, i0);
    assert BodyMatch(s, i0, GtFrom(s, i0 + 5), BodyClose(s, GtFrom(s, i0 + 5)).value);
  }

  /** The greedy group ends at the longest match's closing tag. */
  lemma BodyCloseIs(s: string, i: nat, gt: nat, e: nat)
    requires BodyMatch(s, i, gt, e)
    requires LeftmostLongest(s, i, e)
    ensures BodyClose(s, gt) == Some(e)
  {
    BodyMatchIsAt(s, i, gt, e);
    var e0 := BodyClose(s, gt).value;
    assert BodyMatch(s, i, gt, e0);
  }

  // ===========================================================================
  // sanitize_inner

  /** `re.sub(r"<!doctype.*", "", s, flags=re.I | re.S)`: `.*` runs to the end
      of the text, so everything from the first `<!doctype` on is deleted. */
  function CutDoctype(s: string): (r: string)
    ensures |r| <= |s| && r == s[..|r|]
    ensures |r| < |s| ==> StartsAtCI(s, |r|, "<!doctype")
    ensures forall k :: 0 <= k < |r| ==> !StartsAtCI(s, k, "<!doctype")
  {
    match FindCI(s, "<!doctype", 0)
    case None => s
    case Some(i) => s[..i]
  }

  /** The other expressions of `sanitize_inner`, each deleted wherever it matches. */
  datatype Pattern =
    | HeadBlock                 // <head.*?</head>     with re.I and re.S
    | WrapperTag(name: string)  // </?name[^>]*>       with re.I, name in lower case

  /** Where a match of `pat` that starts at `i` ends, if one starts there. */
  function MatchEnd(s: string, i: nat, pat: Pattern): (r: Option<nat>)
    ensures r.Some? ==> i < r.value <= |s| && s[i] == '<'
  {
    match pat
    case HeadBlock =>
      if !StartsAtCI(s, i, "<head") then None
      else
        assert Lower(s[i + 0]) == "<head"[0];
        (
        match FindCI(s, "</head>", i + 5)
        case None => None
        case Some(e) => Some(e + 7))
    case WrapperTag(name) =>
      if i + 1 >= |s| || s[i] != '<' then None
      else
        var n := if s[i + 1] == '/' then i + 2 else i + 1;
        var gt := GtFrom(s, n + |name|);
        if StartsAtCI(s, n, name) && gt < |s| then Some(gt + 1) else None
  }

  /** `re.sub(pat, "", s[from..])`: the engine tries each position in turn;
      a match found there is deleted and the search resumes where it ended,
      otherwise the character is kept. No match is empty, so every step
      moves forward. */
  function DeleteAll(s: string, from: nat, pat: Pattern): (r: string)
    requires from <= |s|
    decreases |s| - from
    ensures |r| <= |s| - from
    ensures (forall k :: from <= k <= |s| ==> MatchEnd(s, k, pat).None?) ==> r == s[from..]
  {
    if from == |s| then []
    else
      match MatchEnd(s, from, pat)
      case Some(e) => DeleteAll(s, e, pat)
      case None => [s[from]] + DeleteAll(s, from + 1, pat)
  }

  /** The tag expressions `sanitize_inner` deletes after the doctype cut, in order. */
  const Removals: seq<Pattern> := [HeadBlock, WrapperTag("html"), WrapperTag("body")]

  /** Text with no whitespace at either end. */
  predicate Trimmed(s: string)
  {
    s == [] || (!IsSpace(s[0]) && !IsSpace(s[|s| - 1]))
  }

  /** Each of `pats` in turn deleted everywhere, stripping after each. */
  function DeleteEach(s: string, pats: seq<Pattern>): (r: string)
    decreases |pats|
    ensures |r| <= |s|
    ensures Trimmed(s) ==> Trimmed(r)
  {
    if pats == [] then s
    else
      DeleteEach(Strip(DeleteAll(s, 0, pats[0])), pats[1..])
  }

  /** `sanitize_inner`: the doctype cut, then head blocks, then `html` tags,
      then `body` tags, stripping after each step. */
  function SanitizeInner(s: string): (r: string)
    ensures |r| <= |s|
    ensures Trimmed(r)
  {
    DeleteEach(Strip(CutDoctype(s)), Removals)
  }
}
