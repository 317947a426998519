/** The fragment and substitution parts of `build_new_html` and
    `build_index_html`. The literal page and index templates are not
    reproduced: they are parameters, and only the placeholder substitution
    applied to them is modelled. */
module Render {

  import opened Wrappers
  import opened Text

  const Slate50 := "#f8fafc"
  const Slate800 := "#1f2937"
  const Slate500 := "#64748b"
  const Blue600 := "#2563eb"
  const Border := "#e2e8f0"
  const Card := "#ffffff"

  const TagOpen := "<span class=\"tag\">"
  const TagClose := "</span>"
  const SummaryPlaceholder := "<p>요약을 준비 중입니다.</p>"

  // ---------------------------------------------------------------------------
  // Tag pills

  /** `"".join(f'<span class="tag">{t}</span>' for t in tags)`. */
  function TagsHtml(tags: seq<string>): (r: string)
    ensures r == [] <==> tags == []
  {
    if tags == [] then [] else TagOpen + tags[0] + TagClose + TagsHtml(tags[1..])
  }

  /** Rendering distributes over concatenation: one pill per tag, in order. */
  lemma {:induction false} TagsHtmlAppend(a: seq<string>, b: seq<string>)
    ensures TagsHtml(a + b) == TagsHtml(a) + TagsHtml(b)
  {
    if a != [] {
      assert (a + b)[0] == a[0] && (a + b)[1..] == a[1..] + b;
      TagsHtmlAppend(a[1..], b);
    } else {
      assert a + b == b;
    }
  }

  predicate IsLt(c: char)
  {
    c == '<'
  }

  /** Reads a sequence of tag pills back into the tags; the inverse of
      TagsHtml on tags without markup. */
  function ParseTags(s: string): Option<seq<string>>
    decreases |s|
  {
    if s == [] then Some([])
    else if !StartsAt(s, 0, TagOpen) then None
    else
      var j := FindChar(s, |TagOpen|, IsLt);
      if !StartsAt(s, j, TagClose) then None
      else
        match ParseTags(s[j + |TagClose|..])
        case None => None
        case Some(rest) => Some([s[|TagOpen|..j]] + rest)
  }

  /** No tag is lost, reordered or altered by rendering: the pills read back
      to the original tags. */
  lemma {:induction false} TagsRoundTrip(tags: seq<string>)
    requires forall k :: 0 <= k < |tags| ==> NoLt(tags[k])
    ensures ParseTags(TagsHtml(tags)) == Some(tags)
  {
    if tags != [] {
      var t := tags[0];
      var rest := TagsHtml(tags[1..]);
      var s := TagsHtml(tags);
      assert s == TagOpen + t + TagClose + rest;
      assert s[..|TagOpen|] == TagOpen;
      var j := |TagOpen| + |t|;
      assert s[j] == '<';
      assert forall k :: |TagOpen| <= k < j ==> s[k] == t[k - |TagOpen|];
      FindCharExact(s, |TagOpen|, j, IsLt);
      assert s[j..j + |TagClose|] == TagClose;
      assert s[j + |TagClose|..] == rest;
      assert s[|TagOpen|..j] == t;
      TagsRoundTrip(tags[1..]);
      assert [t] + tags[1..] == tags;
    }
  }

  // ---------------------------------------------------------------------------
  // Summary paragraphs

  /** The lines kept by `if ln.strip()`. */
  function NonBlank(lines: seq<string>): (r: seq<string>)
    ensures |r| <= |lines|
    ensures forall k :: 0 <= k < |r| ==> !AllSpace(r[k])
  {
    if lines == [] then []
    else
      StripEmptyIff(lines[0]);
      (if Strip(lines[0]) == [] then [] else [lines[0]]) + NonBlank(lines[1..])
  }

  lemma {:induction false} NonBlankEmptyIff(lines: seq<string>)
    ensures NonBlank(lines) == [] <==> forall k :: 0 <= k < |lines| ==> AllSpace(lines[k])
  {
    if lines != [] {
      StripEmptyIff(lines[0]);
      NonBlankEmptyIff(lines[1..]);
      assert forall k :: 1 <= k < |lines| ==> lines[k] == lines[1..][k - 1];
    }
  }

  /** A single line is kept exactly when it is not blank. */
  lemma NonBlankOne(line: string)
    ensures NonBlank([line]) == if AllSpace(line) then [] else [line]
  {
    StripEmptyIff(line);
    assert [line][1..] == [];
  }

  /** The filter works line by line: with `NonBlankOne`, every non-blank line
      is kept, in its order, and every blank one dropped. */
  lemma {:induction false} NonBlankAppend(a: seq<string>, b: seq<string>)
    ensures NonBlank(a + b) == NonBlank(a) + NonBlank(b)
  {
    if a == [] {
      assert a + b == b;
    } else {
      assert (a + b)[0] == a[0];
      assert (a + b)[1..] == a[1..] + b;
      NonBlankAppend(a[1..], b);
      StripEmptyIff(a[0]);
      var h: seq<string> := if Strip(a[0]) == [] then [] else [a[0]];
      AppendAssoc(h, NonBlank(a[1..]), NonBlank(b));
    }
  }

  /** One `<p>ln</p>` per line, in order. */
  function Paragraphs(lines: seq<string>): (r: string)
    ensures |r| >= 7 * |lines|
  {
    if lines == [] then [] else "<p>" + lines[0] + "</p>" + Paragraphs(lines[1..])
  }

  lemma ParagraphsOne(line: string)
    ensures Paragraphs([line]) == "<p>" + line + "</p>"
  {
    assert [line][1..] == [];
  }

  /** The paragraphs of two lists of lines are those of the first followed by
      those of the second; with `ParagraphsOne`, each line becomes its own
      `<p>…</p>`, in order. */
  lemma {:induction false} ParagraphsAppend(a: seq<string>, b: seq<string>)
    ensures Paragraphs(a + b) == Paragraphs(a) + Paragraphs(b)
  {
    if a == [] {
      assert a + b == b;
    } else {
      assert (a + b)[0] == a[0];
      assert (a + b)[1..] == a[1..] + b;
      ParagraphsAppend(a[1..], b);
      AppendAssoc("<p>" + a[0] + "</p>", Paragraphs(a[1..]), Paragraphs(b));
    }
  }

  /** `summary_html`: a paragraph per non-blank line, or the placeholder
      paragraph when every line is blank. */
  function SummaryHtml(lines: seq<string>): (r: string)
    ensures (forall k :: 0 <= k < |lines| ==> AllSpace(lines[k])) ==> r == SummaryPlaceholder
    ensures (exists k :: 0 <= k < |lines| && !AllSpace(lines[k])) ==> r == Paragraphs(NonBlank(lines))
  {
    NonBlankEmptyIff(lines);
    var p := Paragraphs(NonBlank(lines));
    if p == [] then SummaryPlaceholder else p
  }

  /** The summary of a page whose only line is not blank is that line in one paragraph. */
  lemma SummaryOfOneLine(d: string)
    requires !AllSpace(d)
    ensures SummaryHtml([d]) == "<p>" + d + "</p>"
  {
    StripEmptyIff(d);
    assert [d][0] == d && [d][1..] == [];
    assert NonBlank([d]) == [d];
    assert Paragraphs([d]) == "<p>" + d + "</p>";
  }

  // ---------------------------------------------------------------------------
  // Placeholder substitution

  /** A chain of `.replace(placeholder, value)` calls, applied in order. */
  function Substitute(s: string, bindings: seq<(string, string)>): string
    decreases |bindings|
  {
    if bindings == [] then s else Substitute(ReplaceAll(s, bindings[0].0, bindings[0].1), bindings[1..])
  }

  /** A chain of replacements can be cut anywhere: the second part of the
      chain works on what the first part produced. */
  lemma {:induction false} SubstituteAppend(s: string, first: seq<(string, string)>, rest: seq<(string, string)>)
    ensures Substitute(s, first + rest) == Substitute(Substitute(s, first), rest)
    decreases |first|
  {
    if first == [] {
      assert first + rest == rest;
    } else {
      var t := ReplaceAll(s, first[0].0, first[0].1);
      assert (first + rest)[0] == first[0];
      assert (first + rest)[1..] == first[1..] + rest;
      SubstituteAppend(t, first[1..], rest);
    }
  }

  predicate NoBrace(s: string)
  {
    forall k :: 0 <= k < |s| ==> s[k] != '{'
  }

  /** Every placeholder opens with `{{`. */
  predicate Placeholders(bindings: seq<(string, string)>)
  {
    forall k :: 0 <= k < |bindings| ==> |bindings[k].0| >= 2 && bindings[k].0[0] == '{'
  }

  lemma NoBraceAbsent(s: string, p: string)
    requires NoBrace(s) && |p| > 0 && p[0] == '{'
    ensures forall k :: !StartsAt(s, k, p)
  {
    forall k: nat ensures !StartsAt(s, k, p) {
      if k + |p| <= |s| {
        assert s[k..k + |p|][0] == s[k];
      }
    }
  }

  /** Text without braces comes out of a substitution chain unchanged. */
  lemma {:induction false} SubstituteBraceFree(s: string, bindings: seq<(string, string)>)
    requires NoBrace(s) && Placeholders(bindings)
    ensures Substitute(s, bindings) == s
  {
    if bindings != [] {
      NoBraceAbsent(s, bindings[0].0);
      ReplaceAllAbsent(s, bindings[0].0, bindings[0].1);
      SubstituteBraceFree(s, bindings[1..]);
    }
  }

  /** A template that is exactly the `i`-th placeholder, untouched by the
      earlier placeholders, becomes the `i`-th value (when that value has no
      braces for the later placeholders to catch). */
  lemma {:induction false} SubstituteLonePlaceholder(bindings: seq<(string, string)>, i: nat)
    requires i < |bindings| && Placeholders(bindings) && NoBrace(bindings[i].1)
    requires forall k :: 0 <= k < i ==> forall q :: !StartsAt(bindings[i].0, q, bindings[k].0)
    ensures Substitute(bindings[i].0, bindings) == bindings[i].1
  {
    var p := bindings[i].0;
    if i == 0 {
      ReplaceAllWhole(p, bindings[0].1);
      SubstituteBraceFree(bindings[0].1, bindings[1..]);
    } else {
      ReplaceAllAbsent(p, bindings[0].0, bindings[0].1);
      SubstituteLonePlaceholder(bindings[1..], i - 1);
    }
  }

  /** The placeholders of the page template and their values, in the order
      `build_new_html` replaces them; `{{DESCRIPTION}}` receives the title. */
  function PageBindings(title: string, date: string, tagsHtml: string, summaryHtml: string,
                        bodyInner: string, footerRepo: string): (b: seq<(string, string)>)
    ensures Placeholders(b)
  {
    [ ("{{TITLE}}", title), ("{{DESCRIPTION}}", title), ("{{DATE}}", date),
      ("{{TAGS}}", tagsHtml), ("{{SUMMARY}}", summaryHtml), ("{{BODY}}", bodyInner),
      ("{{REPO}}", footerRepo), ("{{SLATE50}}", Slate50), ("{{SLATE800}}", Slate800),
      ("{{SLATE500}}", Slate500), ("{{BLUE600}}", Blue600), ("{{BORDER}}", Border),
      ("{{CARD}}", Card) ]
  }

  /** `build_new_html`, over the page template `template`. */
  function BuildNewHtml(template: string, title: string, date: string, tags: seq<string>,
                        summaryLines: seq<string>, bodyInner: string, footerRepo: string): string
  {
    Substitute(template, PageBindings(title, date, TagsHtml(tags), SummaryHtml(summaryLines), bodyInner, footerRepo))
  }

  /** A template without placeholders is emitted as it is. */
  lemma BuildNewHtmlBraceFree(template: string, title: string, date: string, tags: seq<string>,
                              summaryLines: seq<string>, bodyInner: string, footerRepo: string)
    requires NoBrace(template)
    ensures BuildNewHtml(template, title, date, tags, summaryLines, bodyInner, footerRepo) == template
  {
    SubstituteBraceFree(template, PageBindings(title, date, TagsHtml(tags), SummaryHtml(summaryLines), bodyInner, footerRepo));
  }

  /** `{{DESCRIPTION}}` is filled with the page title, not its description. */
  lemma DescriptionSlotGetsTitle(title: string, date: string, tags: seq<string>,
                                 summaryLines: seq<string>, bodyInner: string, footerRepo: string)
    requires NoBrace(title)
    ensures BuildNewHtml("{{DESCRIPTION}}", title, date, tags, summaryLines, bodyInner, footerRepo) == title
  {
    var b := PageBindings(title, date, TagsHtml(tags), SummaryHtml(summaryLines), bodyInner, footerRepo);
    TitleNotInDescription();
    SubstituteLonePlaceholder(b, 1);
  }

  lemma TitleNotInDescription()
    ensures forall q :: !StartsAt("{{DESCRIPTION}}", q, "{{TITLE}}")
  {
    var s := "{{DESCRIPTION}}";
    forall q: nat ensures !StartsAt(s, q, "{{TITLE}}") {
      if q + 9 <= |s| {
        var w := s[q..q + 9];
        assert w[0] == s[q] && w[1] == s[q + 1] && w[2] == s[q + 2];
        if q == 0 { assert s[2] == 'D'; }
        else if q == 1 { assert s[2] == 'D'; }
        else if q == 2 { assert s[2] == 'D'; }
        else if q == 3 { assert s[3] == 'E'; }
        else if q == 4 { assert s[4] == 'S'; }
        else if q == 5 { assert s[5] == 'C'; }
        else { assert q == 6; assert s[6] == 'R'; }
      }
    }
  }

  // ---------------------------------------------------------------------------
  // The index page

  /** The `site` object of the manifest; an absent key is None. */
  datatype Site = Site(title: Option<string>, subtitle: Option<string>,
                       repo: Option<string>, baseUrl: Option<string>)

  const DefaultSiteTitle := "OpenClaw Reports"
  const DefaultSiteSubtitle := "리포트 목록"
  const DefaultBase := "./"

  /** The placeholders of the index template and their values, in the order
      `build_index_html` replaces them, with the `site.get` defaults. */
  function IndexBindings(site: Site, repoUrl: string): (b: seq<(string, string)>)
    ensures Placeholders(b)
  {
    [ ("{{SITE_TITLE}}", site.title.GetOr(DefaultSiteTitle)),
      ("{{SITE_SUBTITLE}}", site.subtitle.GetOr(DefaultSiteSubtitle)),
      ("{{REPO}}", site.repo.GetOr(repoUrl)),
      ("{{BASE}}", site.baseUrl.GetOr(DefaultBase)),
      ("{{SLATE50}}", Slate50), ("{{SLATE800}}", Slate800), ("{{SLATE500}}", Slate500),
      ("{{BLUE600}}", Blue600), ("{{BORDER}}", Border), ("{{CARD}}", Card) ]
  }

  /** `build_index_html`, over the index template `template`. */
  function BuildIndexHtml(template: string, site: Site, repoUrl: string): string
  {
    Substitute(template, IndexBindings(site, repoUrl))
  }

  /** The site title slot gets the configured title, or "OpenClaw Reports"
      when the manifest has none. */
  lemma IndexTitleDefault(site: Site, repoUrl: string)
    requires NoBrace(site.title.GetOr(DefaultSiteTitle))
    ensures BuildIndexHtml("{{SITE_TITLE}}", site, repoUrl) ==
      (if site.title.Some? then site.title.value else DefaultSiteTitle)
  {
    SubstituteLonePlaceholder(IndexBindings(site, repoUrl), 0);
  }

  /** The repository link slot gets `site.repo`, or the fallback URL when the
      manifest has none. */
  lemma IndexRepoDefault(site: Site, repoUrl: string)
    requires NoBrace(site.repo.GetOr(repoUrl))
    ensures BuildIndexHtml("{{REPO}}", site, repoUrl) ==
      (if site.repo.Some? then site.repo.value else repoUrl)
  {
    var b := IndexBindings(site, repoUrl);
    assert forall q :: !StartsAt("{{REPO}}", q, b[0].0);
    assert forall q :: !StartsAt("{{REPO}}", q, b[1].0);
    SubstituteLonePlaceholder(b, 2);
  }

  /** An index template without placeholders is written out as it is. */
  lemma BuildIndexHtmlBraceFree(template: string, site: Site, repoUrl: string)
    requires NoBrace(template)
    ensures BuildIndexHtml(template, site, repoUrl) == template
  {
    SubstituteBraceFree(template, IndexBindings(site, repoUrl));
  }
}
