/** One iteration of the `main` loop of rebuild_site_v2.py: the fields of
    a stored page entry, the title and description fallbacks, the manifest
    entry of a rebuilt page and its re-rendered HTML. */
module Page {

  import opened Wrappers
  import opened Text
  import Identifiers
  import Classify
  import Extract
  import Render
  import opened Manifest

  /** One entry of the input manifest's `pages`; a missing key is None. */
  datatype OldPage = OldPage(href: Option<string>, title: Option<string>, desc: Option<string>,
                             description: Option<string>, tags: Option<seq<string>>)

  const IndexFile := "index.html"
  const PublishedVia := "Published via OpenClaw"

  /** What a run depends on besides the files: the current date (the clock),
      the page template and the repository URL shown in every footer. */
  datatype Env = Env(today: string, pageTemplate: string, repoUrl: string)

  /** The files, the per-date counters and the pages rebuilt so far. */
  datatype RunState = RunState(files: map<string, string>, counters: map<string, nat>, pages: seq<NewPage>)


  /** A string value is truthy in Python when present and non-empty. */
  predicate Truthy(o: Option<string>)
  {
    o.Some? && o.value != []
  }

  /** Python's `o or d` on an optional string. */
  function Or(o: Option<string>, d: string): string
  {
    if Truthy(o) then o.value else d
  }

  /** `href.replace("./", "")`, with a missing href read as "". */
  function FileName(p: OldPage): string
  {
    ReplaceAll(p.href.GetOr(""), "./", "")
  }

  /** An href `./f` names the file `f` when `f` holds no further `./`. */
  lemma FileNameDropsDotSlash(p: OldPage, f: string)
    requires p.href == Some("./" + f)
    requires forall k :: !StartsAt(f, k, "./")
    ensures FileName(p) == f
  {
    ReplaceAllLeading("./", f, "");
    ReplaceAllAbsent(f, "./", "");
  }

  /** Every `./` is deleted, not only a leading one: the href `..//` names
      the file `./`. */
  lemma FileNameDeletesEveryDotSlash(p: OldPage)
    requires p.href == Some("..//")
    ensures FileName(p) == "./"
  {
    var s := "..//";
    assert s[..2][1] == '.' && "./"[1] == '/';
    assert s[1..][..2] == "./";
    assert s[1..][2..] == "/";
    ReplaceAllAbsent("/", "./", "");
    ReplaceAllLeading("./", "/", "");
    assert ReplaceAll(s, "./", "") == [s[0]] + ReplaceAll(s[1..], "./", "");
  }

  /** The page is an HTML file other than the index. */
  predicate Eligible(fname: string): (r: bool)
    ensures r <==> fname != IndexFile && |fname| >= 5 && fname[|fname| - 5..] == ".html"
  {
    fname != IndexFile && EndsWith(fname, ".html")
  }

  /** `title or p.get("title") or fname`: the first non-empty of the parsed
      title, the stored title and the file name. */
  function FinalTitle(parsed: Option<string>, stored: Option<string>, fname: string): (r: string)
    ensures Truthy(parsed) ==> r == parsed.value
    ensures !Truthy(parsed) && Truthy(stored) ==> r == stored.value
    ensures !Truthy(parsed) && !Truthy(stored) ==> r == fname
    ensures fname != [] ==> r != []
  {
    Or(parsed, Or(stored, fname))
  }

  /** `p.get("desc") or p.get("description") or desc_meta or ""`. */
  function StoredDescription(p: OldPage, descMeta: Option<string>): string
  {
    Or(p.desc, Or(p.description, Or(descMeta, "")))
  }

  /** The description kept in the manifest: the stored description with its
      whitespace runs collapsed and stripped, unless that is blank or the
      publishing placeholder, in which case the page's meta description or
      else its title. */
  function FinalDescription(p: OldPage, descMeta: Option<string>, title: string): (r: string)
    ensures title != [] ==> r != []
    ensures !AllSpace(StoredDescription(p, descMeta)) && Strip(CollapseSpace(StoredDescription(p, descMeta))) != PublishedVia
            ==> r == Strip(CollapseSpace(StoredDescription(p, descMeta)))
    ensures r == PublishedVia ==> Or(descMeta, title) == PublishedVia
    ensures var d := Strip(CollapseSpace(StoredDescription(p, descMeta)));
            d == [] || d == PublishedVia ==> r == Or(descMeta, title)
  {
    var d := Strip(CollapseSpace(StoredDescription(p, descMeta)));
    CollapseStripEmptyIff(StoredDescription(p, descMeta));
    if d == [] || d == PublishedVia then Or(descMeta, title) else d
  }

  /** The per-page transformations of the loop: reading the title and meta
      description of a page, extracting its body, and filling the page
      template. The loop and its properties are stated for any pipeline;
      `Standard` is the one rebuild_site_v2.py uses. */
  datatype Pipeline = Pipeline(
    parse: string -> (Option<string>, Option<string>),
    body: string -> string,
    render: (string, string, seq<string>, seq<string>, string) -> string)
  {
    function ParseHtml(raw: string): (Option<string>, Option<string>)
    {
      parse(raw)
    }

    function BodyHtml(raw: string): string
    {
      body(raw)
    }

    function RenderPage(title: string, date: string, tags: seq<string>, lines: seq<string>, bodyInner: string): string
    {
      render(title, date, tags, lines, bodyInner)
    }
  }

  /** `parse_title_and_desc`, `sanitize_inner(extract_body_inner(raw))` and
      `build_new_html(title=…, date=…, tags=…, summary_lines=…, body_inner=…,
      footer_repo=repo_url)` over the page template. */
  function Standard(env: Env): Pipeline
  {
    Pipeline(
      (raw: string) => Extract.ParseTitleAndDesc(raw),
      (raw: string) => Extract.SanitizeInner(Extract.ExtractBodyInner(raw)),
      (title: string, date: string, tags: seq<string>, lines: seq<string>, body: string) =>
        Render.BuildNewHtml(env.pageTemplate, title, date, tags, lines, body, env.repoUrl))
  }

  /** With the standard pipeline, a kept page is rewritten as the page
      template filled with its final title, inferred date, tags, final
      description and sanitized body, with the repository link of `env`. */
  lemma NewHtmlStandard(st: RunState, p: OldPage, env: Env)
    requires Kept(st, p)
    ensures var raw := st.files[FileName(p)];
            var parsed := Extract.ParseTitleAndDesc(raw);
            var title := FinalTitle(parsed.0, p.title, FileName(p));
            NewHtml(st, p, env, Standard(env))
            == Render.BuildNewHtml(env.pageTemplate, title, Identifiers.InferDate(FileName(p), env.today),
                                   p.tags.GetOr([]), [FinalDescription(p, parsed.1, title)],
                                   Extract.SanitizeInner(Extract.ExtractBodyInner(raw)), env.repoUrl)
  {
  }

  /** A description that is blank, whatever the whitespace, falls back to
      the meta description or the title. */
  lemma BlankDescriptionFallsBack(p: OldPage, descMeta: Option<string>, title: string)
    requires AllSpace(StoredDescription(p, descMeta))
    ensures FinalDescription(p, descMeta, title) == Or(descMeta, title)
  {
    CollapseStripEmptyIff(StoredDescription(p, descMeta));
  }

  /** The publishing placeholder, even with extra whitespace inside or
      around it, falls back to the meta description or the title. */
  lemma PlaceholderFallsBack(p: OldPage, descMeta: Option<string>, title: string, a: string, b: string, c: string, d: string)
    requires StoredDescription(p, descMeta) == a + "Published" + b + "via" + c + "OpenClaw" + d
    requires AllSpace(a) && AllSpace(d)
    requires b != [] && AllSpace(b) && c != [] && AllSpace(c)
    ensures FinalDescription(p, descMeta, title) == Or(descMeta, title)
  {
    var x := a + "Published" + b + "via" + c + "OpenClaw" + d;
    assert Strip(CollapseSpace(x)) == PublishedVia by {
      PlaceholderCollapses(a, b, c, d);
    }
  }

  lemma PlaceholderCollapses(a: string, b: string, c: string, d: string)
    requires AllSpace(a) && AllSpace(d)
    requires b != [] && AllSpace(b) && c != [] && AllSpace(c)
    ensures Strip(CollapseSpace(a + "Published" + b + "via" + c + "OpenClaw" + d)) == PublishedVia
  {
    var mid := "Published" + b + ("via" + c + "OpenClaw");
    var p1: string := if a == [] then "" else " ";
    var p2: string := if d == [] then "" else " ";
    PlaceholderWords(b, c);
    PlaceholderEnds(b, c);
    Regroup(a, "Published", b, "via", c, "OpenClaw", d);
    CollapsePadded(a, mid, d);
    assert CollapseSpace(a + mid + d) == p1 + PublishedVia + p2;
    StripPublished(p1, p2);
  }

  lemma PlaceholderEnds(b: string, c: string)
    ensures var mid := "Published" + b + ("via" + c + "OpenClaw");
            mid != [] && !IsSpace(mid[0]) && !IsSpace(mid[|mid| - 1])
  {
    var mid := "Published" + b + ("via" + c + "OpenClaw");
    assert mid[0] == 'P';
    assert mid[|mid| - 1] == 'w';
  }

  lemma StripPublished(p1: string, p2: string)
    requires p1 == "" || p1 == " "
    requires p2 == "" || p2 == " "
    ensures Strip(p1 + PublishedVia + p2) == PublishedVia
  {
    assert PublishedVia[0] == 'P' && PublishedVia[|PublishedVia| - 1] == 'w';
    StripPadded(p1, PublishedVia, p2);
  }

  lemma PlaceholderWords(b: string, c: string)
    requires b != [] && AllSpace(b) && c != [] && AllSpace(c)
    ensures CollapseSpace("Published" + b + ("via" + c + "OpenClaw")) == PublishedVia
  {
    CollapseWords("Published", b, "via", c, "OpenClaw");
    AppendAssoc("Published" + b, "via" + c, "OpenClaw");
    AppendAssoc("Published" + b, "via", c);
    PlaceholderSpelled();
  }

  lemma Regroup(a: string, p: string, b: string, v: string, c: string, o: string, d: string)
    ensures a + p + b + v + c + o + d == a + (p + b + (v + c + o)) + d
  {
    var pb := p + b;
    AppendAssoc(a, p, b);
    AppendAssoc(a, pb, v);
    AppendAssoc(a, pb + v, c);
    AppendAssoc(a, pb + v + c, o);
    AppendAssoc(pb, v, c);
    AppendAssoc(pb, v + c, o);
  }

  lemma PlaceholderSpelled()
    ensures "Published" + " " + "via" + " " + "OpenClaw" == PublishedVia
  {
  }

  /** The page is rebuilt: an HTML file other than the index that exists. */
  predicate Kept(st: RunState, p: OldPage)
  {
    Eligible(FileName(p)) && FileName(p) in st.files
  }

  /** The compact date the page is counted under. */
  function DateKey(p: OldPage, env: Env): string
  {
    Identifiers.CompactDate(Identifiers.InferDate(FileName(p), env.today))
  }

  /** The counter value the page receives (`setdefault` then `+= 1`). */
  function NextCount(st: RunState, p: OldPage, env: Env): nat
  {
    Identifiers.Count(st.counters, DateKey(p, env)) + 1
  }

  /** The title and description of a kept page, from what the pipeline
      parses out of its current HTML. */
  function Texts(st: RunState, p: OldPage, pl: Pipeline): (r: (string, string))
    requires Kept(st, p)
    ensures var parsed := pl.ParseHtml(st.files[FileName(p)]);
            && r.0 == FinalTitle(parsed.0, p.title, FileName(p))
            && r.1 == FinalDescription(p, parsed.1, r.0)
    ensures r.0 != [] && r.1 != []
  {
    var parsed := pl.ParseHtml(st.files[FileName(p)]);
    var title := FinalTitle(parsed.0, p.title, FileName(p));
    (title, FinalDescription(p, parsed.1, title))
  }

  /** The manifest entry of a kept page. */
  function NewEntry(st: RunState, p: OldPage, env: Env, pl: Pipeline): (np: NewPage)
    requires Kept(st, p)
    ensures PageOk(np, env.today)
    ensures np.href == FileName(p)
    ensures Identifiers.CompactDate(np.date) == DateKey(p, env)
    ensures np.id == Identifiers.FormatId(DateKey(p, env), NextCount(st, p, env))
    ensures var parsed := pl.ParseHtml(st.files[FileName(p)]);
            && np.title == FinalTitle(parsed.0, p.title, FileName(p))
            && np.description == FinalDescription(p, parsed.1, np.title)
    ensures np.category == Classify.Category(p.tags.GetOr([]))
    ensures np.date == Identifiers.InferDate(FileName(p), env.today)
  {
    var texts := Texts(st, p, pl);
    NewPage(Identifiers.FormatId(DateKey(p, env), NextCount(st, p, env)), texts.0, texts.1,
            Classify.Category(p.tags.GetOr([])), Identifiers.InferDate(FileName(p), env.today), FileName(p))
  }

  /** The rebuilt HTML of a kept page. */
  function NewHtml(st: RunState, p: OldPage, env: Env, pl: Pipeline): string
    requires Kept(st, p)
  {
    var texts := Texts(st, p, pl);
    pl.RenderPage(texts.0, Identifiers.InferDate(FileName(p), env.today), p.tags.GetOr([]), [texts.1],
              pl.BodyHtml(st.files[FileName(p)]))
  }

  /** One iteration of the loop over the stored pages: a kept page is
      rewritten in place, its date counter bumped and its entry appended. */
  function Step(st: RunState, p: OldPage, env: Env, pl: Pipeline): (r: RunState)
    ensures !Kept(st, p) ==> r == st
    ensures Kept(st, p) ==> r.pages == st.pages + [NewEntry(st, p, env, pl)]
    ensures Kept(st, p) ==>
              (forall e :: Identifiers.Count(r.counters, e) ==
                 if e == DateKey(p, env) then NextCount(st, p, env) else Identifiers.Count(st.counters, e))
    ensures r.files.Keys == st.files.Keys
    ensures Kept(st, p) ==> r.files == st.files[FileName(p) := NewHtml(st, p, env, pl)]
  {
    if !Kept(st, p) then st
    else
      RunState(st.files[FileName(p) := NewHtml(st, p, env, pl)],
               st.counters[DateKey(p, env) := NextCount(st, p, env)],
               st.pages + [NewEntry(st, p, env, pl)])
  }

  /** What every rebuilt entry satisfies. */
  predicate PageOk(np: NewPage, today: string)
  {
    && Eligible(np.href)
    && np.title != []
    && np.description != []
    && (np.category == Classify.Development || np.category == Classify.Analysis)
    && np.date == Identifiers.InferDate(np.href, today)
  }

  /** Every entry of `pages` is well-formed. */
  predicate AllOk(pages: seq<NewPage>, today: string)
  {
    forall k :: 0 <= k < |pages| ==> PageOk(pages[k], today)
  }

  lemma AllOkAppend(pages: seq<NewPage>, np: NewPage, today: string)
    requires AllOk(pages, today) && PageOk(np, today)
    ensures AllOk(pages + [np], today)
  {
    assert forall k :: 0 <= k < |pages| + 1 ==> (pages + [np])[k] == if k < |pages| then pages[k] else np;
  }
}
