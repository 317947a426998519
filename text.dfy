/** String primitives the script relies on: ASCII whitespace and case folding,
    positional searches, `str.strip`, `re.sub(r"\s+", " ", ...)` and `str.replace`. */
module Text {

  import opened Wrappers

  /** Whitespace as `\s` and `str.strip()` see it, restricted to ASCII:
      space, tab, line feed, vertical tab, form feed, carriage return and the
      four separators U+001C to U+001F. */
  predicate IsSpace(c: char)
  {
    c == ' ' || '\t' <= c <= '\r' || '\U{1C}' <= c <= '\U{1F}'
  }

  predicate AllSpace(s: string)
  {
    forall k :: 0 <= k < |s| ==> IsSpace(s[k])
  }

  /** ASCII lower-casing, the case folding `re.I` applies to the ASCII letters. */
  function Lower(c: char): char
  {
    if 'A' <= c <= 'Z' then (c as int + 32) as char else c
  }

  /** `pat` occurs in `s` at index `i`, exactly. */
  predicate StartsAt(s: string, i: nat, pat: string)
  {
    i + |pat| <= |s| && s[i..i + |pat|] == pat
  }

  /** `pat` (written in lower case) occurs in `s` at index `i`, ignoring ASCII case. */
  predicate StartsAtCI(s: string, i: nat, pat: string)
  {
    i + |pat| <= |s| && forall k :: 0 <= k < |pat| ==> Lower(s[i + k]) == pat[k]
  }

  lemma StartsAtCIHead(s: string, i: nat, pat: string)
    requires StartsAtCI(s, i, pat) && |pat| > 0
    ensures Lower(s[i]) == pat[0]
  {
    var q := 0;
    assert Lower(s[i + q]) == pat[q];
  }

  /** Text with no `<`, hence no markup. */
  predicate NoLt(s: string)
  {
    forall k :: 0 <= k < |s| ==> s[k] != '<'
  }

  predicate EndsWith(s: string, suffix: string)
  {
    |suffix| <= |s| && s[|s| - |suffix|..] == suffix
  }

  // ---------------------------------------------------------------------------
  // Searches over positions

  /** The first occurrence of `pat` (ignoring ASCII case) at or after `lo`. */
  function FindCI(s: string, pat: string, lo: nat): (r: Option<nat>)
    decreases |s| - lo
    ensures r.Some? ==> lo <= r.value && StartsAtCI(s, r.value, pat)
    ensures r.Some? ==> forall k :: lo <= k < r.value ==> !StartsAtCI(s, k, pat)
    ensures r.None? ==> forall k :: lo <= k ==> !StartsAtCI(s, k, pat)
  {
    if lo + |pat| > |s| then None
    else if StartsAtCI(s, lo, pat) then Some(lo)
    else FindCI(s, pat, lo + 1)
  }

  /** FindCI stops exactly at an occurrence with none before it. */
  lemma FindCIExact(s: string, pat: string, lo: nat, i: nat)
    requires lo <= i && StartsAtCI(s, i, pat)
    requires forall k :: lo <= k < i ==> !StartsAtCI(s, k, pat)
    ensures FindCI(s, pat, lo) == Some(i)
  {
  }

  /** The last occurrence of `pat` (ignoring ASCII case) at or after `lo`. */
  function FindLastCI(s: string, pat: string, lo: nat): (r: Option<nat>)
    ensures r.Some? ==> lo <= r.value && StartsAtCI(s, r.value, pat)
    ensures r.Some? ==> forall k :: r.value < k ==> !StartsAtCI(s, k, pat)
    ensures r.None? ==> forall k :: lo <= k ==> !StartsAtCI(s, k, pat)
  {
    if lo + |pat| > |s| then None else LastCIDown(s, pat, lo, |s| - |pat|)
  }

  function LastCIDown(s: string, pat: string, lo: nat, hi: nat): (r: Option<nat>)
    requires hi + |pat| <= |s|
    requires forall k :: hi < k ==> !StartsAtCI(s, k, pat)
    decreases hi
    ensures r.Some? ==> lo <= r.value <= hi && StartsAtCI(s, r.value, pat)
    ensures r.Some? ==> forall k :: r.value < k ==> !StartsAtCI(s, k, pat)
    ensures r.None? ==> forall k :: lo <= k ==> !StartsAtCI(s, k, pat)
  {
    if lo > hi then None
    else if StartsAtCI(s, hi, pat) then Some(hi)
    else if hi == lo then None
    else LastCIDown(s, pat, lo, hi - 1)
  }

  /** The first index at or after `from` holding a character in the class
      `isTarget`, or |s| when there is none. */
  function FindChar(s: string, from: nat, isTarget: char -> bool): (r: nat)
    decreases |s| - from
    ensures r <= |s|
    ensures r < |s| ==> from <= r && isTarget(s[r])
    ensures forall k :: from <= k < r ==> !isTarget(s[k])
  {
    if from >= |s| then |s|
    else if isTarget(s[from]) then from
    else FindChar(s, from + 1, isTarget)
  }

  /** No character of s[a..b] belongs to the class `isTarget`. */
  predicate NoneIn(s: string, a: nat, b: nat, isTarget: char -> bool)
    requires a <= b <= |s|
  {
    forall k :: a <= k < b ==> !isTarget(s[k])
  }

  /** A run free of the class ends where FindChar stops: `[^x]*` can stretch
      from `a` exactly up to the first `x`. */
  lemma {:induction false} NoneInUpTo(s: string, a: nat, b: nat, isTarget: char -> bool)
    requires a <= b <= |s|
    ensures NoneIn(s, a, b, isTarget) <==> b <= FindChar(s, a, isTarget)
  {
  }

  /** FindChar stops exactly at a target character preceded by a run free of
      the class. */
  lemma FindCharExact(s: string, a: nat, b: nat, isTarget: char -> bool)
    requires a <= b < |s| && isTarget(s[b]) && NoneIn(s, a, b, isTarget)
    ensures FindChar(s, a, isTarget) == b
  {
    NoneInUpTo(s, a, b, isTarget);
  }

  // ---------------------------------------------------------------------------
  // str.strip()

  /** The length of the whitespace run at the start of `s`. */
  function LeadingSpace(s: string): (n: nat)
    decreases |s|
    ensures n <= |s|
    ensures forall k :: 0 <= k < n ==> IsSpace(s[k])
    ensures n < |s| ==> !IsSpace(s[n])
  {
    if s == [] || !IsSpace(s[0]) then 0
    else
      var n := LeadingSpace(s[1..]);
      assert forall k :: 1 <= k < n + 1 ==> s[k] == s[1..][k - 1];
      n + 1
  }

  /** The end of the text of `s`: everything from it on is whitespace. */
  function TextEnd(s: string): (n: nat)
    decreases |s|
    ensures n <= |s|
    ensures forall k :: n <= k < |s| ==> IsSpace(s[k])
    ensures n > 0 ==> !IsSpace(s[n - 1])
  {
    if s == [] || !IsSpace(s[|s| - 1]) then |s| else TextEnd(s[..|s| - 1])
  }

  /** `str.lstrip()`: drops the leading whitespace. */
  function LStrip(s: string): (r: string)
    ensures r == [] || !IsSpace(r[0])
    ensures |r| <= |s| && r == s[|s| - |r|..]
    ensures forall k :: 0 <= k < |s| - |r| ==> IsSpace(s[k])
  {
    s[LeadingSpace(s)..]
  }

  /** `str.rstrip()`: drops the trailing whitespace. */
  function RStrip(s: string): (r: string)
    ensures r == [] || !IsSpace(r[|r| - 1])
    ensures |r| <= |s| && r == s[..|r|]
    ensures forall k :: |r| <= k < |s| ==> IsSpace(s[k])
  {
    s[..TextEnd(s)]
  }

  /** `str.strip()`: whitespace removed at both ends; what is left neither
      starts nor ends with whitespace. */
  function Strip(s: string): (r: string)
    ensures |r| <= |s|
    ensures r == [] || (!IsSpace(r[0]) && !IsSpace(r[|r| - 1]))
  {
    var l := LStrip(s);
    var r := RStrip(l);
    assert r == [] || r[0] == l[0];
    r
  }

  /** What `Strip` keeps is the infix of `s` starting at `a`, between a
      whitespace prefix and a whitespace suffix. */
  lemma StripInfix(s: string)
    ensures var a := LeadingSpace(s);
      && a + |Strip(s)| <= |s|
      && (forall k :: 0 <= k < |Strip(s)| ==> Strip(s)[k] == s[a + k])
      && (forall k :: 0 <= k < a ==> IsSpace(s[k]))
      && (forall k :: a + |Strip(s)| <= k < |s| ==> IsSpace(s[k]))
  {
    var a := LeadingSpace(s);
    var l := s[a..];
    var r := l[..TextEnd(l)];
    assert Strip(s) == r;
    forall k | a + |r| <= k < |s|
      ensures IsSpace(s[k])
    {
      assert l[k - a] == s[k];
    }
  }

  /** Stripping leaves nothing exactly when everything was whitespace. */
  lemma StripEmptyIff(s: string)
    ensures Strip(s) == [] <==> AllSpace(s)
  {
    StripInfix(s);
    if Strip(s) != [] {
      assert Strip(s)[0] == s[LeadingSpace(s)];
    }
  }

  /** Stripping twice is stripping once. */
  lemma {:induction false} StripIdempotent(s: string)
    ensures Strip(Strip(s)) == Strip(s)
  {
    var r := Strip(s);
    if r != [] {
      assert LStrip(r) == r;
      assert RStrip(r) == r;
    }
  }

  /** Text that already neither starts nor ends with whitespace is left as it is. */
  lemma StripTrimmedText(s: string)
    requires s == [] || (!IsSpace(s[0]) && !IsSpace(s[|s| - 1]))
    ensures Strip(s) == s
  {
    if s != [] {
      assert LStrip(s) == s;
      assert RStrip(s) == s;
    }
  }

  /** Stripping removes exactly the whitespace padding around a text that
      starts and ends visibly. */
  lemma StripPadded(w1: string, t: string, w2: string)
    requires AllSpace(w1) && AllSpace(w2)
    requires t != [] && !IsSpace(t[0]) && !IsSpace(t[|t| - 1])
    ensures Strip(w1 + t + w2) == t
  {
    var s := w1 + t + w2;
    assert forall k :: 0 <= k < |w1| ==> s[k] == w1[k];
    assert s[|w1|] == t[0];
    assert LeadingSpace(s) == |w1|;
    var l := s[|w1|..];
    assert l == t + w2;
    assert forall k :: |t| <= k < |l| ==> l[k] == w2[k - |t|];
    assert l[|t| - 1] == t[|t| - 1];
    assert TextEnd(l) == |t|;
    assert l[..|t|] == t;
  }

  // ---------------------------------------------------------------------------
  // re.sub(r"\s+", " ", s)

  /** The non-whitespace characters of `s`, in order. */
  function Visible(s: string): string
  {
    if s == [] then [] else (if IsSpace(s[0]) then [] else [s[0]]) + Visible(s[1..])
  }

  /** Drops the whitespace run at the front of `s`. */
  function SkipSpace(s: string): (r: string)
    decreases |s|
    ensures |r| <= |s| && r == s[|s| - |r|..]
    ensures r == [] || !IsSpace(r[0])
    ensures Visible(r) == Visible(s)
  {
    if s == [] || !IsSpace(s[0]) then s else SkipSpace(s[1..])
  }

  /** Every whitespace run collapsed into a single space. */
  function CollapseSpace(s: string): (r: string)
    decreases |s|
    ensures r == [] <==> s == []
    ensures s != [] ==> (if IsSpace(s[0]) then r[0] == ' ' else r[0] == s[0])
    ensures Visible(r) == Visible(s)
    ensures forall k :: 0 <= k < |r| && IsSpace(r[k]) ==> r[k] == ' '
    ensures forall k :: 0 <= k < |r| - 1 && IsSpace(r[k]) ==> !IsSpace(r[k + 1])
  {
    if s == [] then []
    else if IsSpace(s[0]) then
      var rest := SkipSpace(s);
      var tail := CollapseSpace(rest);
      assert rest != [] ==> !IsSpace(tail[0]);
      [' '] + tail
    else [s[0]] + CollapseSpace(s[1..])
  }

  /** Text on one line with single spacing: no whitespace at either end,
      every whitespace character a plain space, never two in a row. */
  predicate SingleSpaced(t: string)
  {
    && (t == [] || (!IsSpace(t[0]) && !IsSpace(t[|t| - 1])))
    && (forall k :: 0 <= k < |t| && IsSpace(t[k]) ==> t[k] == ' ')
    && (forall k :: 0 <= k < |t| - 1 && IsSpace(t[k]) ==> !IsSpace(t[k + 1]))
  }

  /** `" ".join(s.split())`-style normalisation: collapsing the whitespace
      runs and stripping yields single-spaced text. */
  lemma StripCollapseSingleSpaced(s: string)
    ensures SingleSpaced(Strip(CollapseSpace(s)))
  {
    var c := CollapseSpace(s);
    var t := Strip(c);
    var a := LeadingSpace(c);
    StripInfix(c);
    forall k | 0 <= k < |t| - 1 && IsSpace(t[k])
      ensures !IsSpace(t[k + 1])
    {
      assert t[k] == c[a + k] && t[k + 1] == c[a + k + 1];
    }
    forall k | 0 <= k < |t| && IsSpace(t[k])
      ensures t[k] == ' '
    {
      assert t[k] == c[a + k];
    }
  }

  /** Skipping a whitespace run looks no further than the first visible
      character: the text after it is kept as it is. */
  lemma {:induction false} SkipSpaceAppend(x: string, y: string)
    ensures AllSpace(x) ==> SkipSpace(x) == [] && SkipSpace(x + y) == SkipSpace(y)
    ensures !AllSpace(x) ==> SkipSpace(x) != [] && SkipSpace(x + y) == SkipSpace(x) + y
  {
    if x == [] {
      assert x + y == y;
    } else {
      var u := x + y;
      assert u[0] == x[0];
      if IsSpace(x[0]) {
        assert u[1..] == x[1..] + y;
        SkipSpaceAppend(x[1..], y);
        AllSpaceTail(x);
      } else {
        assert !AllSpace(x) by { assert !IsSpace(x[0]); }
      }
    }
  }

  lemma AllSpaceTail(x: string)
    requires x != [] && IsSpace(x[0])
    ensures AllSpace(x) <==> AllSpace(x[1..])
  {
    if AllSpace(x[1..]) {
      forall k | 0 <= k < |x| ensures IsSpace(x[k]) {
        if k > 0 { assert x[k] == x[1..][k - 1]; }
      }
    }
  }

  /** Collapsing distributes over a concatenation whose halves do not meet
      in a whitespace run. */
  lemma {:induction false} CollapseAppend(x: string, y: string)
    requires x == [] || y == [] || !IsSpace(x[|x| - 1]) || !IsSpace(y[0])
    ensures CollapseSpace(x + y) == CollapseSpace(x) + CollapseSpace(y)
    decreases |x|
  {
    if x == [] {
      AppendEmpty(y);
      AppendEmpty(CollapseSpace(y));
    } else if y == [] {
      AppendEmpty(x);
      AppendEmpty(CollapseSpace(x));
    } else if !IsSpace(x[0]) {
      assert x[1..] == [] || x[1..][|x[1..]| - 1] == x[|x| - 1];
      CollapseAppend(x[1..], y);
      CollapseVisibleStep(x, y);
    } else if AllSpace(x) {
      CollapseAllSpaceStep(x, y);
    } else {
      SkipSpaceKeepsEnd(x);
      CollapseAppend(SkipSpace(x), y);
      CollapseSpaceStep(x, y);
    }
  }

  lemma CollapseVisibleStep(x: string, y: string)
    requires x != [] && !IsSpace(x[0])
    requires CollapseSpace(x[1..] + y) == CollapseSpace(x[1..]) + CollapseSpace(y)
    ensures CollapseSpace(x + y) == CollapseSpace(x) + CollapseSpace(y)
  {
    CollapseVisibleHead(x, y);
    AppendAssoc([x[0]], CollapseSpace(x[1..]), CollapseSpace(y));
  }

  lemma CollapseAllSpaceStep(x: string, y: string)
    requires x != [] && AllSpace(x)
    requires y == [] || !IsSpace(y[0])
    ensures CollapseSpace(x + y) == CollapseSpace(x) + CollapseSpace(y)
  {
    CollapseSpaceHeads(x, y);
    assert SkipSpace(y) == y;
    assert CollapseSpace(x) == [' '] by {
      assert CollapseSpace(SkipSpace(x)) == [];
      AppendEmpty([' ']);
    }
  }

  lemma CollapseSpaceStep(x: string, y: string)
    requires x != [] && IsSpace(x[0]) && !AllSpace(x)
    requires CollapseSpace(SkipSpace(x) + y) == CollapseSpace(SkipSpace(x)) + CollapseSpace(y)
    ensures CollapseSpace(x + y) == CollapseSpace(x) + CollapseSpace(y)
  {
    CollapseSpaceHeads(x, y);
    AppendAssoc([' '], CollapseSpace(SkipSpace(x)), CollapseSpace(y));
  }

  /** Skipping the leading whitespace of text that is not all whitespace
      leaves its last character in place. */
  lemma SkipSpaceKeepsEnd(x: string)
    requires !AllSpace(x)
    ensures var t := SkipSpace(x); t != [] && t[|t| - 1] == x[|x| - 1] && |t| < |x| + 1
  {
    SkipSpaceAppend(x, []);
    assert x + [] == x;
  }

  /** A visible first character is kept, with or without a suffix. */
  lemma CollapseVisibleHead(x: string, y: string)
    requires x != [] && !IsSpace(x[0])
    ensures CollapseSpace(x + y) == [x[0]] + CollapseSpace(x[1..] + y)
    ensures CollapseSpace(x) == [x[0]] + CollapseSpace(x[1..])
  {
    var u := x + y;
    assert u[0] == x[0] && u[1..] == x[1..] + y;
  }

  /** A leading whitespace run becomes one space, with or without a suffix. */
  lemma CollapseSpaceHeads(x: string, y: string)
    requires x != [] && IsSpace(x[0])
    ensures CollapseSpace(x) == [' '] + CollapseSpace(SkipSpace(x))
    ensures AllSpace(x) ==> CollapseSpace(x + y) == [' '] + CollapseSpace(SkipSpace(y)) && SkipSpace(x) == []
    ensures !AllSpace(x) ==> SkipSpace(x) != [] && CollapseSpace(x + y) == [' '] + CollapseSpace(SkipSpace(x) + y)
  {
    var u := x + y;
    assert u[0] == x[0];
    CollapseSpaceHead(u);
    CollapseSpaceHead(x);
    SkipSpaceAppend(x, y);
  }

  lemma CollapseSpaceHead(x: string)
    requires x != [] && IsSpace(x[0])
    ensures CollapseSpace(x) == [' '] + CollapseSpace(SkipSpace(x))
  {
  }

  /** A whitespace run between two visible characters becomes exactly one
      space, and the text on either side is collapsed on its own. */
  lemma CollapseRun(x: string, w: string, y: string)
    requires w != [] && AllSpace(w)
    requires x == [] || !IsSpace(x[|x| - 1])
    requires y == [] || !IsSpace(y[0])
    ensures CollapseSpace(x + w + y) == CollapseSpace(x) + " " + CollapseSpace(y)
  {
    var v := w + y;
    assert x + w + y == x + v;
    assert v[0] == w[0];
    assert IsSpace(w[0]);
    CollapseSpaceHead(w);
    SkipSpaceAppend(w, []);
    assert SkipSpace(w) == [];
    var cw := CollapseSpace(w);
    assert cw == " ";
    CollapseAppend(w, y);
    CollapseAppend(x, v);
    AppendAssoc(CollapseSpace(x), cw, CollapseSpace(y));
  }

  /** Whitespace padding on either side of a text that starts and ends
      visibly collapses to one space, or to nothing when there is none. */
  lemma CollapsePadded(a: string, m: string, d: string)
    requires AllSpace(a) && AllSpace(d)
    requires m != [] && !IsSpace(m[0]) && !IsSpace(m[|m| - 1])
    ensures CollapseSpace(a + m + d)
         == (if a == [] then "" else " ") + CollapseSpace(m) + (if d == [] then "" else " ")
  {
    var md := m + d;
    var cm := CollapseSpace(m);
    var p2: string := if d == [] then "" else " ";
    CollapseTrailing(m, d);
    AppendAssoc(a, m, d);
    if a != [] {
      CollapseRun([], a, md);
      AppendEmpty(a);
      assert CollapseSpace(a + m + d) == " " + (cm + p2);
      AppendAssoc(" ", cm, p2);
    } else {
      AppendEmpty(md);
      AppendEmpty(cm);
      assert CollapseSpace(a + m + d) == cm + p2;
    }
  }

  lemma CollapseTrailing(m: string, d: string)
    requires AllSpace(d)
    requires m != [] && !IsSpace(m[|m| - 1])
    ensures CollapseSpace(m + d) == CollapseSpace(m) + (if d == [] then "" else " ")
  {
    if d != [] {
      CollapseRun(m, d, []);
      assert m + d + [] == m + d;
      assert CollapseSpace(m) + " " + CollapseSpace([]) == CollapseSpace(m) + " ";
    } else {
      assert m + d == m;
    }
  }

  /** Three words separated by whitespace runs come out separated by single
      spaces. */
  lemma CollapseWords(u: string, b: string, v: string, c: string, w: string)
    requires u != [] && v != [] && w != []
    requires forall k :: 0 <= k < |u| ==> !IsSpace(u[k])
    requires forall k :: 0 <= k < |v| ==> !IsSpace(v[k])
    requires forall k :: 0 <= k < |w| ==> !IsSpace(w[k])
    requires b != [] && AllSpace(b) && c != [] && AllSpace(c)
    ensures CollapseSpace(u + b + v + c + w) == u + " " + v + " " + w
  {
    CollapseNoSpace(u);
    CollapseNoSpace(v);
    CollapseNoSpace(w);
    CollapseRun(v, c, w);
    var x := v + c + w;
    assert x[0] == v[0];
    CollapseRun(u, b, x);
    AppendAssoc(u + b, v + c, w);
    AppendAssoc(u + b, v, c);
    AppendAssoc(u + " ", v + " ", w);
    AppendAssoc(u + " ", v, " ");
  }

  lemma AppendEmpty<T>(a: seq<T>)
    ensures [] + a == a && a + [] == a
  {
  }

  lemma AppendAssoc<T>(a: seq<T>, b: seq<T>, c: seq<T>)
    ensures a + (b + c) == (a + b) + c
  {
  }

  /** Text without whitespace is left as it is. */
  lemma {:induction false} CollapseNoSpace(x: string)
    requires forall k :: 0 <= k < |x| ==> !IsSpace(x[k])
    ensures CollapseSpace(x) == x
  {
    if x != [] {
      CollapseNoSpace(x[1..]);
    }
  }

  lemma {:induction false} VisibleEmptyIff(s: string)
    ensures Visible(s) == [] <==> AllSpace(s)
  {
    if s != [] {
      VisibleEmptyIff(s[1..]);
      assert AllSpace(s) <==> IsSpace(s[0]) && AllSpace(s[1..]);
    }
  }

  /** The normalised text of the description is empty exactly when the raw
      text was blank. */
  lemma CollapseStripEmptyIff(s: string)
    ensures Strip(CollapseSpace(s)) == [] <==> AllSpace(s)
  {
    StripEmptyIff(CollapseSpace(s));
    VisibleEmptyIff(CollapseSpace(s));
    VisibleEmptyIff(s);
  }

  // ---------------------------------------------------------------------------
  // str.replace(old, new)

  /** `s.replace("", v)`: `v` before every character and at the end. */
  function Interleave(s: string, v: string): (r: string)
    ensures |r| == |s| + (|s| + 1) * |v|
  {
    if s == [] then v else v + [s[0]] + Interleave(s[1..], v)
  }

  /** `s.replace(p, v)`: scans left to right and replaces each non-overlapping
      occurrence of `p` by `v`. */
  function ReplaceAll(s: string, p: string, v: string): (r: string)
    decreases |s|
  {
    if |p| == 0 then Interleave(s, v)
    else if |s| < |p| then s
    else if s[..|p|] == p then v + ReplaceAll(s[|p|..], p, v)
    else [s[0]] + ReplaceAll(s[1..], p, v)
  }

  /** Text in which the pattern does not occur passes through unchanged. */
  lemma {:induction false} ReplaceAllAbsent(s: string, p: string, v: string)
    requires |p| > 0
    requires forall k :: !StartsAt(s, k, p)
    ensures ReplaceAll(s, p, v) == s
  {
    if |s| >= |p| {
      assert !StartsAt(s, 0, p);
      forall k: nat ensures !StartsAt(s[1..], k, p) {
        assert !StartsAt(s, k + 1, p);
      }
      ReplaceAllAbsent(s[1..], p, v);
    }
  }

  /** An occurrence of the pattern at the front is replaced, and the scan
      resumes after it. */
  lemma ReplaceAllLeading(p: string, s: string, v: string)
    requires |p| > 0
    ensures ReplaceAll(p + s, p, v) == v + ReplaceAll(s, p, v)
  {
    assert (p + s)[..|p|] == p;
    assert (p + s)[|p|..] == s;
  }

  /** Text that does not start with the pattern keeps its first character,
      and the scan moves on by one. */
  lemma ReplaceAllSkip(s: string, p: string, v: string)
    requires |p| > 0 && |s| > 0 && !StartsAt(s, 0, p)
    ensures ReplaceAll(s, p, v) == [s[0]] + ReplaceAll(s[1..], p, v)
  {
    if |s| < |p| {
      forall k ensures !StartsAt(s[1..], k, p) {
      }
      ReplaceAllAbsent(s[1..], p, v);
      assert s == [s[0]] + s[1..];
    }
  }

  /** A template that is exactly the placeholder becomes the value. */
  lemma ReplaceAllWhole(p: string, v: string)
    requires |p| > 0
    ensures ReplaceAll(p, p, v) == v
  {
    assert p[..|p|] == p;
    assert p[|p|..] == [];
  }

  /** The characters of `s` other than `c`, in order. */
  function Without(s: string, c: char): (r: string)
    ensures forall k :: 0 <= k < |r| ==> r[k] != c
  {
    if s == [] then [] else (if s[0] == c then [] else [s[0]]) + Without(s[1..], c)
  }

  lemma {:induction false} WithoutConcat(a: string, b: string, c: char)
    ensures Without(a + b, c) == Without(a, c) + Without(b, c)
  {
    if a != [] {
      assert (a + b)[0] == a[0];
      assert (a + b)[1..] == a[1..] + b;
      WithoutConcat(a[1..], b, c);
      var h := if a[0] == c then [] else [a[0]];
      calc {
        Without(a + b, c);
        h + Without(a[1..] + b, c);
        h + (Without(a[1..], c) + Without(b, c));
        (h + Without(a[1..], c)) + Without(b, c);
      }
    } else {
      assert a + b == b;
    }
  }

  lemma {:induction false} WithoutAbsent(s: string, c: char)
    requires forall k :: 0 <= k < |s| ==> s[k] != c
    ensures Without(s, c) == s
  {
    if s != [] {
      WithoutAbsent(s[1..], c);
    }
  }

  /** `s.replace(c, "")` for a one-character `c` deletes every `c` and keeps
      the other characters in order. */
  lemma {:induction false} ReplaceCharDeletes(s: string, c: char)
    ensures ReplaceAll(s, [c], "") == Without(s, c)
  {
    if s != [] {
      ReplaceCharDeletes(s[1..], c);
    }
  }
}
