/** The `main` loop of rebuild_site_v2.py: every listed page whose HTML file
    exists is re-read, given a dated id and a category, re-rendered from the
    page template and written back; the new manifest lists the rebuilt pages
    in input order and the index page is regenerated.

    The file system is a map from file name to content (a key is a file that
    exists); reading the manifest and writing it back as JSON are left out,
    so the methods take the decoded `site` object and page list and return
    the new page list. */
module Rebuild {

  import opened Wrappers
  import opened Text
  import Identifiers
  import Classify
  import Render
  import opened Manifest
  import opened Page

  const DefaultRepo := "https://github.com/samdasuu/openclaw-pages"

  /** The loop over `pages`, from state `st`: no file is created or deleted,
      a file no page names keeps its content, and the manifest only grows,
      by at most one entry per page. */
  function Run(st: RunState, pages: seq<OldPage>, env: Env, pl: Pipeline): (r: RunState)
    ensures forall f :: f in r.files <==> f in st.files
    ensures forall f :: f in st.files && (forall k :: 0 <= k < |pages| ==> FileName(pages[k]) != f) ==>
              r.files[f] == st.files[f]
    ensures |st.pages| <= |r.pages| <= |st.pages| + |pages|
    ensures r.pages[..|st.pages|] == st.pages
  {
    if pages == [] then st else Step(Run(st, pages[..|pages| - 1], env, pl), pages[|pages| - 1], env, pl)
  }

  /** The file names the loop keeps, in input order: HTML files other than
      the index that exist among `names`. */
  function Selected(pages: seq<OldPage>, names: set<string>): (r: seq<string>)
    ensures |r| <= |pages|
  {
    if pages == [] then []
    else
      var f := FileName(pages[|pages| - 1]);
      Selected(pages[..|pages| - 1], names) + (if Eligible(f) && f in names then [f] else [])
  }

  /** What the loop keeps true: the counters count the entries of each date,
      the ids are numbered, and every entry is well-formed. */
  ghost predicate Good(st: RunState, env: Env)
  {
    && (forall c :: Identifiers.Count(st.counters, c) == CountDate(st.pages, c))
    && IdsNumbered(st.pages)
    && AllOk(st.pages, env.today)
  }

  // ---------------------------------------------------------------------------
  // Properties of a run

  lemma StepHrefs(st: RunState, p: OldPage, env: Env, pl: Pipeline)
    ensures Hrefs(Step(st, p, env, pl).pages) == Hrefs(st.pages) + if Kept(st, p) then [FileName(p)] else []
  {
    if Kept(st, p) {
      var n := Step(st, p, env, pl);
      assert n.pages[..|n.pages| - 1] == st.pages;
    }
  }

  lemma {:induction false} RunSelects(st: RunState, pages: seq<OldPage>, env: Env, pl: Pipeline)
    ensures Hrefs(Run(st, pages, env, pl).pages) == Hrefs(st.pages) + Selected(pages, st.files.Keys)
  {
    if pages != [] {
      var init, last := pages[..|pages| - 1], pages[|pages| - 1];
      var before := Run(st, init, env, pl);
      RunSelects(st, init, env, pl);
      StepHrefs(before, last, env, pl);
      var added := if Kept(before, last) then [FileName(last)] else [];
      assert Selected(pages, st.files.Keys) == Selected(init, st.files.Keys) + added;
      AppendAssoc(Hrefs(st.pages), Selected(init, st.files.Keys), added);
    }
  }

  /** Bumping the counter of the new entry's date keeps the counters equal
      to the per-date page counts. */
  lemma AppendCounts(before: map<string, nat>, after: map<string, nat>, out: seq<NewPage>, np: NewPage)
    requires forall c :: Identifiers.Count(before, c) == CountDate(out, c)
    requires forall e :: Identifiers.Count(after, e) ==
               if e == Identifiers.CompactDate(np.date) then Identifiers.Count(before, e) + 1 else Identifiers.Count(before, e)
    ensures forall e :: Identifiers.Count(after, e) == CountDate(out + [np], e)
  {
    forall e {
      CountDateAppend(out, np, e);
    }
  }

  lemma StepCounts(st: RunState, p: OldPage, env: Env, pl: Pipeline)
    requires forall c :: Identifiers.Count(st.counters, c) == CountDate(st.pages, c)
    ensures forall c :: Identifiers.Count(Step(st, p, env, pl).counters, c) == CountDate(Step(st, p, env, pl).pages, c)
  {
    if Kept(st, p) {
      var n := Step(st, p, env, pl);
      AppendCounts(st.counters, n.counters, st.pages, NewEntry(st, p, env, pl));
    }
  }

  lemma StepIds(st: RunState, p: OldPage, env: Env, pl: Pipeline)
    requires forall c :: Identifiers.Count(st.counters, c) == CountDate(st.pages, c)
    requires IdsNumbered(st.pages)
    ensures IdsNumbered(Step(st, p, env, pl).pages)
  {
    if Kept(st, p) {
      var np := NewEntry(st, p, env, pl);
      var key := DateKey(p, env);
      assert Identifiers.Count(st.counters, key) == CountDate(st.pages, key);
      AppendIds(st.pages, np, NextCount(st, p, env) - 1);
      assert Step(st, p, env, pl).pages == st.pages + [np];
    }
  }

  lemma StepPagesOk(st: RunState, p: OldPage, env: Env, pl: Pipeline)
    requires AllOk(st.pages, env.today)
    ensures AllOk(Step(st, p, env, pl).pages, env.today)
  {
    if Kept(st, p) {
      AllOkAppend(st.pages, NewEntry(st, p, env, pl), env.today);
    }
  }

  /** One step keeps the counters equal to the per-date page counts, the ids
      numbered, and every entry well-formed. */
  lemma StepGood(st: RunState, p: OldPage, env: Env, pl: Pipeline)
    requires Good(st, env)
    ensures Good(Step(st, p, env, pl), env)
  {
    StepCounts(st, p, env, pl);
    StepIds(st, p, env, pl);
    StepPagesOk(st, p, env, pl);
  }

  lemma {:induction false} RunGood(st: RunState, pages: seq<OldPage>, env: Env, pl: Pipeline)
    requires Good(st, env)
    ensures Good(Run(st, pages, env, pl), env)
  {
    if pages != [] {
      RunGood(st, pages[..|pages| - 1], env, pl);
      StepGood(Run(st, pages[..|pages| - 1], env, pl), pages[|pages| - 1], env, pl);
    }
  }

  // ---------------------------------------------------------------------------
  // The loop

  /** The body of the `for p in old_pages` loop of `main`: a kept page is
      rebuilt, any other page is skipped. */
  method RebuildPage(files0: map<string, string>, counters0: map<string, nat>, pages0: seq<NewPage>,
                     p: OldPage, env: Env, pl: Pipeline)
    returns (files: map<string, string>, counters: map<string, nat>, newPages: seq<NewPage>)
    ensures RunState(files, counters, newPages) == Step(RunState(files0, counters0, pages0), p, env, pl)
  {
    var fname := ReplaceAll(p.href.GetOr(""), "./", "");
    if fname != IndexFile && EndsWith(fname, ".html") && fname in files0 {
      files, counters, newPages := RebuildKept(files0, counters0, pages0, p, fname, env, pl);
    } else {
      files, counters, newPages := files0, counters0, pages0;
    }
  }

  /** A kept page is re-read, counted under its date, re-rendered and
      written back, and its entry is appended to the new manifest. */
  method RebuildKept(files0: map<string, string>, counters0: map<string, nat>, pages0: seq<NewPage>,
                     p: OldPage, fname: string, env: Env, pl: Pipeline)
    returns (files: map<string, string>, counters: map<string, nat>, newPages: seq<NewPage>)
    requires fname == FileName(p) && Eligible(fname) && fname in files0
    ensures RunState(files, counters, newPages) == Step(RunState(files0, counters0, pages0), p, env, pl)
  {
    ghost var st := RunState(files0, counters0, pages0);
    assert Kept(st, p);
    var raw := files0[fname];
    var parsed := pl.ParseHtml(raw);
    var title := FinalTitle(parsed.0, p.title, fname);
    var date := Identifiers.InferDate(fname, env.today);
    var dateCompact := Identifiers.CompactDate(date);
    // `setdefault(date_compact, 0)` followed by `+= 1`
    var n := Identifiers.Count(counters0, dateCompact) + 1;
    counters := counters0[dateCompact := n];
    var rid := Identifiers.FormatId(dateCompact, n);
    var category := Classify.Category(p.tags.GetOr([]));
    var description := FinalDescription(p, parsed.1, title);
    var tags := p.tags.GetOr([]);
    var bodyInner := pl.BodyHtml(raw);
    var newHtml := pl.RenderPage(title, date, tags, [description], bodyInner);
    files := files0[fname := newHtml];
    newPages := pages0 + [NewPage(rid, title, description, category, date, fname)];
    assert (title, description) == Texts(st, p, pl);
  }

  /** The `for p in old_pages` loop of `main`, for any pipeline: rebuilds
      every kept page of `pages` in `files0` and returns the rewritten files
      and the new manifest entries. */
  method RebuildPages(files0: map<string, string>, pages: seq<OldPage>, env: Env, pl: Pipeline)
    returns (files: map<string, string>, manifest: seq<NewPage>)
    ensures files == Run(RunState(files0, map[], []), pages, env, pl).files
    ensures manifest == Run(RunState(files0, map[], []), pages, env, pl).pages
    ensures forall f :: f in files <==> f in files0
    ensures Hrefs(manifest) == Selected(pages, files0.Keys)
    ensures IdsNumbered(manifest)
    ensures DistinctIds(manifest)
    ensures AllOk(manifest, env.today)
  {
    ghost var init := RunState(files0, map[], []);
    var counters: map<string, nat> := map[];
    manifest := [];
    files := files0;
    var i := 0;
    while i < |pages|
      invariant 0 <= i <= |pages|
      invariant RunState(files, counters, manifest) == Run(init, pages[..i], env, pl)
    {
      assert pages[..i + 1][..i] == pages[..i];
      files, counters, manifest := RebuildPage(files, counters, manifest, pages[i], env, pl);
      i := i + 1;
    }
    assert pages[..|pages|] == pages;
    RunSelects(init, pages, env, pl);
    RunGood(init, pages, env, pl);
    IdsDistinct(manifest);
  }

  /** `main` without the JSON decoding and encoding: rebuilds the pages with
      the standard pipeline, then writes the index page. `site.repo`, or the
      project's own repository, is the link in every footer. */
  method RebuildSite(files0: map<string, string>, site: Render.Site, pages: seq<OldPage>,
                     today: string, pageTemplate: string, indexTemplate: string)
    returns (files: map<string, string>, manifest: seq<NewPage>)
    ensures var env := Env(today, pageTemplate, site.repo.GetOr(DefaultRepo));
            var st := Run(RunState(files0, map[], []), pages, env, Standard(env));
            && manifest == st.pages
            && files == st.files[IndexFile := Render.BuildIndexHtml(indexTemplate, site, env.repoUrl)]
    ensures Hrefs(manifest) == Selected(pages, files0.Keys)
    ensures DistinctIds(manifest)
    ensures AllOk(manifest, today)
  {
    var repoUrl := site.repo.GetOr(DefaultRepo);
    var env := Env(today, pageTemplate, repoUrl);
    files, manifest := RebuildPages(files0, pages, env, Standard(env));
    files := files[IndexFile := Render.BuildIndexHtml(indexTemplate, site, repoUrl)];
  }
}
