# rebuild_site_v2 in Dafny

`rebuild_site_v2.py` rebuilds a static report site. It reads the page
manifest `pages.json`, then handles every listed page in turn. A page is
handled when it is an HTML file other than `index.html` and exists on disk.
For each such page the script:

- reads the HTML file;
- recovers a title and a meta description;
- dates the page from its file name, or from today's date;
- numbers it within its date (`YYYYMMDD-NN`);
- gives it a category from its tags;
- cuts the document's body out of the old HTML and strips wrapper markup from it;
- re-renders the page from the page template;
- writes the page back;
- appends an entry to the new manifest.

Finally the script regenerates `index.html` from the index template.

The model follows the script's own structure:

| module | file | models |
|---|---|---|
| `Wrappers` | wrappers.dfy | `Option` |
| `Text` | text.dfy | ASCII whitespace and case folding, literal searches, `str.strip`, `re.sub(r"\s+", " ", …)`, `str.replace` |
| `Decimal` | decimal.dfy | the `:02d` format and its inverse |
| `Identifiers` | identifiers.dfy | `infer_date_from_filename`, the compact date, the page id |
| `Classify` | classify.dfy | `category_from_old` |
| `Extract` | extract.dfy | `parse_title_and_desc`, `extract_body_inner`, `sanitize_inner` |
| `Sanitize` | sanitize.dfy | what each `re.sub` of `sanitize_inner` deletes, and a whole wrapped document sanitized |
| `Render` | render.dfy | `build_new_html`, `build_index_html` |
| `Manifest` | manifest.dfy | the new manifest's entries, how their ids are numbered, and that ids are distinct |
| `Page` | page.dfy | one iteration of the loop as a function `Step` on a `RunState` |
| `Rebuild` | rebuild.dfy | the loop (`RebuildPages`, `RebuildPage`, `RebuildKept`) and `main` (`RebuildSite`) |

The regular expressions are modelled as follows.

- **The title, meta and body searches** (`re.search` in `parse_title_and_desc`
  and `extract_body_inner`) each have a scanner and a match predicate. The
  scanner is a function that searches the text the way the regex engine does.
  The match predicate is a ghost predicate that states, in plain positional
  terms, what a match of the expression is. Lemmas prove that the scanner
  succeeds exactly when a match exists, and that it returns the match Python's
  engine picks:
  - the leftmost start;
  - for `.*?` the shortest end, and for `.*` the longest end;
  - for `[^>]+` the backtracking choice, which is the last possible position.
- **The head block and the `html` and `body` tags** (`re.sub` in
  `sanitize_inner`) each have a match predicate as well. Lemmas prove that the
  matcher at one position finds exactly the shortest match there. They also
  prove that the deletion scan removes the leftmost match, resumes after it,
  and leaves text with no match unchanged.
- **`<!doctype.*`** is stated directly by the contract of `CutDoctype`. The
  text is cut at the first `<!doctype` in any case.
- **`\s+`** is stated by the contract of `CollapseSpace` and the lemmas beside
  it. Each run collapses to one space, and the visible characters are kept.
- **The date prefix `^(\d{4})-(\d{2})-(\d{2})__`** is the predicate
  `HasDatePrefix`, which the contract of `InferDate` uses.

Whitespace, for `\s` and `str.strip()` alike, is these characters: space, the
five controls from tab (U+0009) to carriage return (U+000D), and the four
separators U+001C to U+001F.

The loop is written as methods. They are proved equal to `Run`, a fold of
`Step` over the page list. On top of `Run`, the following are proved:

- the manifest lists the kept files in input order;
- the per-date counters count the manifest's entries;
- every id is `date-NN`, where `NN` is the entry's rank within its date, so ids are distinct;
- every entry is well-formed.

## Model

| member | source | states |
|---|---|---|
| Text.FindCI | rebuild_site_v2.py:21 | the first position at or after `lo` where the literal occurs ignoring ASCII case, or none when it occurs nowhere from `lo` on |
| Text.FindLastCI | rebuild_site_v2.py:35 | the last position at or after `lo` where the literal occurs ignoring case, or none; no occurrence lies after it |
| Text.FindChar | rebuild_site_v2.py:21 | the first position from `from` holding a target character (the end of a `[^>]*` run), and no target before it |
| Text.LeadingSpace | rebuild_site_v2.py:23 | the length of the whitespace prefix that `strip` removes; the next character is not whitespace |
| Text.TextEnd | rebuild_site_v2.py:23 | the end of the text once trailing whitespace is removed; everything after it is whitespace |
| Text.LStrip | rebuild_site_v2.py:23 | `str.lstrip()`: a suffix of the input that does not start with whitespace, and everything dropped before it is whitespace |
| Text.RStrip | rebuild_site_v2.py:23 | `str.rstrip()`: a prefix of the input that does not end with whitespace, and everything dropped after it is whitespace |
| Text.Strip | rebuild_site_v2.py:23 | `str.strip()`: no longer than the input, and neither end is whitespace |
| Text.StripInfix | rebuild_site_v2.py:23 | the stripped text is the input's middle, with only whitespace removed on either side |
| Text.StripEmptyIff | rebuild_site_v2.py:340 | stripping yields "" exactly when the text is all whitespace |
| Text.StripIdempotent | rebuild_site_v2.py:60-63 | stripping twice is stripping once (sanitize strips after every step) |
| Text.StripTrimmedText | rebuild_site_v2.py:23 | text that neither starts nor ends with whitespace is left as it is |
| Text.StripPadded | rebuild_site_v2.py:23 | whitespace on either side of a text that starts and ends visibly is exactly what `strip` removes |
| Text.SkipSpace | rebuild_site_v2.py:23 | drops a whitespace run: a suffix of the input that does not start with whitespace and keeps its visible characters |
| Text.CollapseSpace | rebuild_site_v2.py:339 | `re.sub(r"\s+", " ", s)`: empty exactly when the input is; the first character kept or made a space; same visible characters; every whitespace character left is a space, and no two are adjacent |
| Text.CollapseAppend | rebuild_site_v2.py:339 | collapsing distributes over a concatenation that does not join two whitespace runs |
| Text.CollapseSpaceHead | rebuild_site_v2.py:339 | a leading whitespace run becomes one space in front of the collapsed rest |
| Text.CollapseRun | rebuild_site_v2.py:339 | a whitespace run between two visible characters becomes exactly one space, and each side is collapsed on its own |
| Text.CollapseNoSpace | rebuild_site_v2.py:339 | text without whitespace is left as it is |
| Text.CollapsePadded | rebuild_site_v2.py:339 | whitespace padding on either side of a visibly bounded text becomes one space, or nothing when there is none |
| Text.CollapseTrailing | rebuild_site_v2.py:339 | trailing whitespace after a visible character becomes one space, or nothing when there is none |
| Text.CollapseWords | rebuild_site_v2.py:339 | three words separated by any whitespace runs collapse to the words separated by single spaces |
| Text.SingleSpaced | rebuild_site_v2.py:23 | (predicate) no whitespace at either end, every whitespace character a space, never two in a row |
| Text.StripCollapseSingleSpaced | rebuild_site_v2.py:23 | collapsing then stripping always yields single-spaced text |
| Text.VisibleEmptyIff | rebuild_site_v2.py:339-340 | a text has no visible character exactly when it is all whitespace |
| Text.CollapseStripEmptyIff | rebuild_site_v2.py:339-340 | collapsing then stripping yields "" exactly when the description was all whitespace |
| Text.ReplaceAllAbsent | rebuild_site_v2.py:158-170 | `str.replace` of a pattern that does not occur leaves the text unchanged |
| Text.ReplaceAllLeading | rebuild_site_v2.py:319 | an occurrence at the front is replaced and the scan resumes right after it |
| Text.ReplaceAllSkip | rebuild_site_v2.py:158-170 | text that does not start with the pattern keeps its first character and the scan moves on by one |
| Text.ReplaceAllWhole | rebuild_site_v2.py:158-170 | a text that is exactly the pattern becomes the replacement |
| Text.Without | rebuild_site_v2.py:331 | the result contains no occurrence of the removed character |
| Text.WithoutConcat | rebuild_site_v2.py:331 | removing a character distributes over concatenation |
| Text.WithoutAbsent | rebuild_site_v2.py:331 | removing a character that does not occur changes nothing |
| Text.ReplaceCharDeletes | rebuild_site_v2.py:331 | `s.replace("-", "")` deletes exactly the dashes, agreeing with `Without` |
| Decimal.DigitChar | rebuild_site_v2.py:334 | a digit below ten is written as a decimal digit character |
| Decimal.DigitValue | rebuild_site_v2.py:334 | a digit character's value is below ten |
| Decimal.Decimal | rebuild_site_v2.py:334 | a non-empty string of digits, without a leading zero from 10 on |
| Decimal.DecimalRoundTrip | rebuild_site_v2.py:334 | reading the decimal notation back gives the number |
| Decimal.Pad2 | rebuild_site_v2.py:334 | `:02d`: only digits, at least two and exactly two below 100, no leading zero from 10 on, and they read back as the number |
| Identifiers.InferDate | rebuild_site_v2.py:41-45 | a name starting `DDDD-DD-DD__` is dated by those ten characters; any other name is dated today |
| Identifiers.CompactDate | rebuild_site_v2.py:331 | the compact date has no dash; a `YYYY-MM-DD` date compacts to eight digits |
| Identifiers.CompactShape | rebuild_site_v2.py:331 | removing dashes from `YYYY-MM-DD` gives year, month and day side by side |
| Identifiers.CompactDateRoundTrip | rebuild_site_v2.py:330-331 | re-inserting the dashes restores the date, so compaction loses nothing on dates |
| Identifiers.FormatId | rebuild_site_v2.py:334 | `f"{date_compact}-{n:02d}"`: the compact date, a dash, then digits that read back as `n`, exactly two of them below 100 |
| Identifiers.FormatIdInjective | rebuild_site_v2.py:334 | two ids `compact-NN` are equal only if their dates and counts are |
| Classify.Category | rebuild_site_v2.py:48-56 | "개발" exactly when some tag is one of the development tags, "분석" otherwise; nothing else |
| Extract.First | rebuild_site_v2.py:21 | `re.search` start: the leftmost position in range where the expression can start, none before it, or none in range |
| Extract.TitleAtMatches | rebuild_site_v2.py:21 | where the title scanner accepts a start, its pieces form a regex match |
| Extract.TitleMatchIsAt | rebuild_site_v2.py:21 | every regex match of the title expression is accepted by the scanner at its start, with the same `>` |
| Extract.ParseTitleSomeIff | rebuild_site_v2.py:21-23 | a title is found exactly when the title expression matches somewhere |
| Extract.ParseTitleIsLeftmostShortest | rebuild_site_v2.py:21-23 | the title is the leftmost, shortest `<title…>…</title>` match's group, collapsed and stripped |
| Extract.FindTitleIs | rebuild_site_v2.py:21 | the raw title group is that of the leftmost, shortest match |
| Extract.TitleFirstIs | rebuild_site_v2.py:21 | the leftmost match start is the one the search finds |
| Extract.TitleCloseIs | rebuild_site_v2.py:21 | the lazy group ends at the first `</title>` after the tag's `>` |
| Extract.ParseTitle | rebuild_site_v2.py:21-23 | a title is returned exactly when the search finds a group, and it is single-spaced |
| Extract.ContentDown | rebuild_site_v2.py:25 | the last `content=` + quote position in range, and none after it, as backtracking over `[^>]+` finds it |
| Extract.NameDown | rebuild_site_v2.py:25 | the last `name="description"` position in range that is followed by a `content=` value, and none after it |
| Extract.MetaMatchWithinTag | rebuild_site_v2.py:25 | both attributes of a meta match lie inside the tag, before its first `>` |
| Extract.CandidateMatches | rebuild_site_v2.py:25 | a `<meta`, a later name attribute and a later content attribute inside the tag form a match |
| Extract.MetaAtMatches | rebuild_site_v2.py:24-28 | where the meta scanner accepts a start, its choices form a regex match |
| Extract.MetaMatchIsAt | rebuild_site_v2.py:24-28 | every meta match is accepted by the scanner at its start, and its value ends at the first quote |
| Extract.ParseDescriptionSomeIff | rebuild_site_v2.py:24-30 | a meta description is found exactly when the meta expression matches somewhere |
| Extract.MetaStartIsLeftmost | rebuild_site_v2.py:24-28 | the search starts at the leftmost `<meta` that begins a match |
| Extract.MetaNameIsLast | rebuild_site_v2.py:25 | of the name attributes in the tag, the one backtracking settles on is the last that has a content after it |
| Extract.MetaContentIsLast | rebuild_site_v2.py:25 | of the content attributes after that name, the last one is chosen |
| Extract.ParseDescriptionIsBacktrackingChoice | rebuild_site_v2.py:24-30 | the description is the stripped value of the match the engine picks: leftmost tag, last name, last content |
| Extract.FindDescriptionIs | rebuild_site_v2.py:24-29 | the raw group is that match's quoted value |
| Extract.ParseDescription | rebuild_site_v2.py:24-30 | a description is returned exactly when the search finds a group, and it neither starts nor ends with whitespace |
| Extract.ParseTitleAndDesc | rebuild_site_v2.py:18-31 | the title is present exactly when the title expression matches, the description exactly when the meta expression matches, and a title is single-spaced |
| Extract.ExtractBodyInner | rebuild_site_v2.py:34-38 | the result is never longer than the document |
| Extract.FindBody | rebuild_site_v2.py:35 | a found body group is strictly shorter than the document |
| Extract.BodyAtMatches | rebuild_site_v2.py:35 | where the body scanner accepts a start, its pieces form a regex match |
| Extract.BodyMatchIsAt | rebuild_site_v2.py:35 | every body match is accepted by the scanner at its start, with the same `>` |
| Extract.ExtractBodyInnerUnchangedIff | rebuild_site_v2.py:34-38 | the document comes back unchanged exactly when there is no `<body…>…</body>` match anywhere |
| Extract.FindBodySomeIff | rebuild_site_v2.py:35-36 | a body group is found exactly when the body expression matches somewhere |
| Extract.ExtractBodyInnerIsLeftmostLongest | rebuild_site_v2.py:34-37 | the body is the leftmost, longest match's group, stripped, so it runs to the last `</body>` |
| Extract.FindBodyIs | rebuild_site_v2.py:35 | the raw group is that of the leftmost, longest match |
| Extract.BodyFirstIs | rebuild_site_v2.py:35 | the leftmost match start is the one the search finds |
| Extract.BodyCloseIs | rebuild_site_v2.py:35 | the greedy group ends at the last `</body>` after the tag's `>` |
| Extract.CutDoctype | rebuild_site_v2.py:60 | `<!doctype.*` with `re.S` removed: the result is the prefix before the first `<!doctype` in any case, or the whole text if there is none |
| Extract.MatchEnd | rebuild_site_v2.py:61-63 | a match of the head or wrapper-tag expression at a position ends after it and within the text |
| Extract.DeleteAll | rebuild_site_v2.py:61-63 | `re.sub(pat, "", …)` from a position: never longer than what it scans, and the text itself when no match starts anywhere from there |
| Extract.DeleteEach | rebuild_site_v2.py:61-63 | the head block, html tags and body tag removals in order, each stripped: never longer, and trimmed input stays trimmed |
| Extract.SanitizeInner | rebuild_site_v2.py:59-64 | the result is never longer than the input and has no surrounding whitespace |
| Sanitize.MatchEndIsMatch | rebuild_site_v2.py:61-63 | what the matcher finds at a position is a match of the expression there |
| Sanitize.MatchIsFound | rebuild_site_v2.py:61-63 | every match at a position is found there, ending no later; a tag match ends at its first `>` |
| Sanitize.MatchEndIsShortest | rebuild_site_v2.py:61-63 | the matcher ends at `e` exactly when `e` ends a match and no shorter match exists (lazy `.*?`, and `[^>]*` up to the first `>`) |
| Sanitize.DeleteAllEnd | rebuild_site_v2.py:61-63 | the scan ends with nothing at the end of the text |
| Sanitize.DeleteAllUpTo | rebuild_site_v2.py:61-63 | positions where no match starts are copied unchanged |
| Sanitize.DeleteAllAt | rebuild_site_v2.py:61-63 | a match at the scan position is deleted and the scan resumes at its end |
| Sanitize.DeleteAllStep | rebuild_site_v2.py:61-63 | the text before the leftmost match is kept, the shortest match there is deleted, and the scan resumes at its end |
| Sanitize.DeleteAllNone | rebuild_site_v2.py:61-63 | with no match from a position on, the rest of the text is kept |
| Sanitize.DeleteAllUnchangedIff | rebuild_site_v2.py:61-63 | a removal leaves the text unchanged exactly when the expression matches nowhere |
| Sanitize.DeleteAllShrinks | rebuild_site_v2.py:61-63 | any match makes the result strictly shorter |
| Sanitize.NoLtStrip | rebuild_site_v2.py:60-63 | stripping keeps text free of `<` |
| Sanitize.NoLtNoMatch | rebuild_site_v2.py:61-63 | no expression matches in text without `<` |
| Sanitize.DeleteAllPlain | rebuild_site_v2.py:61-63 | a stretch without `<` is copied unchanged |
| Sanitize.AvoidsWithin | rebuild_site_v2.py:60-63 | an opening literal (`<` first, no other `<`) absent from a stretch followed by `<` starts nowhere in that stretch of the whole text |
| Sanitize.StartsWithin | rebuild_site_v2.py:60-63 | an occurrence lying within a copied stretch is an occurrence in the stretch itself |
| Sanitize.JoinCI | rebuild_site_v2.py:62-63 | two case-insensitive literals in a row form their concatenation |
| Sanitize.TagNone | rebuild_site_v2.py:62-63 | `</?name[^>]*>` cannot match where neither `<name` nor `</name` starts |
| Sanitize.WrappedHasNoDoctype | rebuild_site_v2.py:60 | a wrapped document whose head and body texts hold no `<!doctype` has no doctype to cut |
| Sanitize.HeadBlockAt | rebuild_site_v2.py:61 | in a wrapped document the head block expression matches from `<head>` to the first `</head>` |
| Sanitize.HeadCloseFirst | rebuild_site_v2.py:61 | the first `</head>` after `<head` is the one that closes the head |
| Sanitize.HeadBlockOnly | rebuild_site_v2.py:61 | no other head block starts before it or after it |
| Sanitize.HeadBlockNoneAfter | rebuild_site_v2.py:61 | no `<head` starts after the head block when the body holds none |
| Sanitize.HeadBlockRemoved | rebuild_site_v2.py:61 | the head removal leaves `<html><body>…</body></html>` |
| Sanitize.HeadSlices | rebuild_site_v2.py:61 | the text around the head block is `<html><body>…</body></html>` |
| Sanitize.HtmlTagsAt | rebuild_site_v2.py:62 | `</?html[^>]*>` matches the opening and the closing `html` tag, each ending at its `>` |
| Sanitize.HtmlTagsOnly | rebuild_site_v2.py:62 | no other `html` tag starts between the two |
| Sanitize.HtmlTagsRemoved | rebuild_site_v2.py:62 | the html tag removal leaves `<body>…</body>` |
| Sanitize.HtmlSlice | rebuild_site_v2.py:62 | the text between the two html tags is `<body>…</body>` |
| Sanitize.BodyTagsAt | rebuild_site_v2.py:63 | `</?body[^>]*>` matches the opening and closing `body` tags |
| Sanitize.BodyTagsOnly | rebuild_site_v2.py:63 | no other `body` tag starts between the two |
| Sanitize.BodyTagsRemoved | rebuild_site_v2.py:63 | the body tag removal leaves the text between them |
| Sanitize.SanitizeWrappedDocument | rebuild_site_v2.py:59-64 | `<html><head>y</head><body>x</body></html>` sanitizes to `x` stripped, with any other markup in `x` kept verbatim: the head block and the html and body tags are gone. `x` may hold any markup except (in any case) `<head`, `<html`, `</html`, `<body`, `</body` and `<!doctype`; `y` any except `</head>` and `<!doctype` |
| Sanitize.SanitizeParagraphPage | rebuild_site_v2.py:59-64 | `<html><head><title>T</title></head><body><p>X</p></body></html>` sanitizes to `<p>X</p>` |
| Sanitize.ParagraphIsPlainBody | rebuild_site_v2.py:59-64 | `<p>X</p>` holds none of the markup the sanitiser removes |
| Sanitize.TitleIsPlainHead | rebuild_site_v2.py:61 | `<title>T</title>` neither closes the head nor declares a doctype |
| Sanitize.CutDoctypeNoLt | rebuild_site_v2.py:60 | text without `<` has no doctype to cut |
| Sanitize.DeleteAllNoLt | rebuild_site_v2.py:61-63 | text without `<` loses nothing to a tag removal |
| Sanitize.DeleteEachNoLt | rebuild_site_v2.py:61-64 | stripped text without `<` passes all three removals unchanged |
| Sanitize.SanitizePlainText | rebuild_site_v2.py:59-64 | text without markup only loses its surrounding whitespace |
| Sanitize.SanitizeDropsAllAfterDoctype | rebuild_site_v2.py:60 | whatever follows the first `<!doctype` has no effect on the result |
| Render.TagsHtml | rebuild_site_v2.py:68 | the tag markup is empty exactly when there are no tags |
| Render.TagsHtmlAppend | rebuild_site_v2.py:68 | the markup of two tag lists joined is the two markups joined |
| Render.TagsRoundTrip | rebuild_site_v2.py:68 | the tags can be read back from their markup when no tag contains `<` |
| Render.NonBlank | rebuild_site_v2.py:69 | `if ln.strip()`: every kept line has visible text, no more lines are kept than given, a single line is kept exactly when it is not blank, and filtering distributes over concatenation (with `NonBlankOne`, `NonBlankAppend`) |
| Render.NonBlankEmptyIff | rebuild_site_v2.py:69-71 | no line is kept exactly when every line is blank |
| Render.Paragraphs | rebuild_site_v2.py:69 | at least seven characters of markup per line; one line is exactly `<p>line</p>`, and joining distributes over concatenation (with `ParagraphsOne`, `ParagraphsAppend`) |
| Render.SummaryHtml | rebuild_site_v2.py:69-71 | the placeholder paragraph when every line is blank, else the paragraphs of the non-blank lines |
| Render.SummaryOfOneLine | rebuild_site_v2.py:69-71 | a visible description becomes a single paragraph |
| Render.SubstituteBraceFree | rebuild_site_v2.py:158-170 | a template without `{` passes the replace chain unchanged |
| Render.SubstituteLonePlaceholder | rebuild_site_v2.py:158-170 | a template that is only the i-th placeholder becomes its value, when no earlier placeholder occurs in it |
| Render.SubstituteAppend | rebuild_site_v2.py:158-170 | the replace chain over two lists of bindings is the chain over the first, then over the second |
| Render.PageBindings | rebuild_site_v2.py:158-170 | every placeholder of the page chain starts with `{` |
| Render.BuildNewHtmlBraceFree | rebuild_site_v2.py:158-170 | the page chain leaves a placeholder-free template unchanged |
| Render.DescriptionSlotGetsTitle | rebuild_site_v2.py:159 | the `{{DESCRIPTION}}` slot of a page is filled with the page title |
| Render.TitleNotInDescription | rebuild_site_v2.py:158-159 | `{{TITLE}}` does not occur inside `{{DESCRIPTION}}`, so the first replacement cannot disturb the second |
| Render.IndexBindings | rebuild_site_v2.py:295-304 | every placeholder of the index chain starts with `{` |
| Render.IndexTitleDefault | rebuild_site_v2.py:295 | the site title slot gets `site.title` when present, else "OpenClaw Reports" |
| Render.IndexRepoDefault | rebuild_site_v2.py:297 | the index's repository slot gets `site.repo` when present, else the script's repository URL |
| Render.BuildIndexHtmlBraceFree | rebuild_site_v2.py:295-304 | the index chain leaves a placeholder-free template unchanged |
| Manifest.Hrefs | rebuild_site_v2.py:358-367 | one href per manifest entry, in order |
| Manifest.CountDateBeforeAppend | rebuild_site_v2.py:358-367 | appending an entry does not change the counts over earlier positions |
| Manifest.CountDateAppend | rebuild_site_v2.py:332-333 | appending an entry raises the count of its own date by one and no other |
| Manifest.AppendIds | rebuild_site_v2.py:330-334 | appending an entry whose id is its date and one more than that date's count keeps every id numbered by rank within its date |
| Manifest.ExpectedIdPrefix | rebuild_site_v2.py:358-367 | appending does not change the expected ids of earlier entries |
| Manifest.LastExpectedId | rebuild_site_v2.py:330-334 | the appended entry's expected id is its date and one more than that date's earlier count |
| Manifest.CountDatePrefix | rebuild_site_v2.py:332-333 | a date's count over a prefix never exceeds its count over a longer prefix |
| Manifest.IdsDistinct | rebuild_site_v2.py:330-334 | numbered ids are pairwise distinct |
| Manifest.IdsApart | rebuild_site_v2.py:330-334 | the expected ids of two different entries differ |
| Page.FinalTitle | rebuild_site_v2.py:328 | the parsed title if non-empty, else the stored title if non-empty, else the file name; never empty for a non-empty name |
| Page.FileNameDropsDotSlash | rebuild_site_v2.py:319 | the href `./f` names the file `f` when `f` holds no further `./` |
| Page.FileNameDeletesEveryDotSlash | rebuild_site_v2.py:319 | every `./` is deleted, not only a leading one: the href `..//` names the file `./` |
| Page.Eligible | rebuild_site_v2.py:320-321 | a page is considered exactly when its file name is not `index.html` and ends in `.html` |
| Page.FinalDescription | rebuild_site_v2.py:337-341 | the first non-empty of `desc`, `description` and the meta description, collapsed and stripped; when that is blank or exactly "Published via OpenClaw", the meta description or else the title; non-empty when the title is; the placeholder text survives only if it came from the meta tag or the title |
| Page.BlankDescriptionFallsBack | rebuild_site_v2.py:337-341 | a stored description made only of whitespace falls back to the meta description or the title |
| Page.PlaceholderFallsBack | rebuild_site_v2.py:337-341 | "Published via OpenClaw" with any whitespace around or inside it falls back to the meta description or the title |
| Page.PlaceholderCollapses | rebuild_site_v2.py:339 | that spelling collapses and strips to exactly "Published via OpenClaw" |
| Page.PlaceholderWords | rebuild_site_v2.py:339 | the three words with any whitespace runs between them collapse to single spacing |
| Page.Texts | rebuild_site_v2.py:327-341 | a kept page's title is `FinalTitle` of the parsed title, stored title and file name, its description is `FinalDescription`, and both are non-empty |
| Page.NewEntry | rebuild_site_v2.py:330-367 | a kept page's entry carries the final title and description, the category of its tags, the date inferred from its file name and the file name as href; it is well-formed, and its id is the date key with the next count |
| Page.Step | rebuild_site_v2.py:317-367 | a skipped page changes nothing; a kept page rewrites its own file with `NewHtml`, leaves every other file alone, appends its entry and raises only its date's counter; no file is created or removed |
| Page.NewHtmlStandard | rebuild_site_v2.py:327-355 | with the script's own functions, a kept page is rewritten as the page template filled with its final title, inferred date, tags, final description and sanitized body, with the footer repository |
| Page.AllOkAppend | rebuild_site_v2.py:358-367 | appending a well-formed entry keeps the manifest well-formed |
| Rebuild.Selected | rebuild_site_v2.py:318-324 | the kept file names, at most one per listed page |
| Rebuild.Run | rebuild_site_v2.py:317-367 | the loop creates and removes no file, leaves every file that no page names as it was, and only appends to the manifest, at most one entry per page |
| Rebuild.StepHrefs | rebuild_site_v2.py:318-367 | one iteration extends the manifest's hrefs by the page's file name exactly when the page is kept |
| Rebuild.RunSelects | rebuild_site_v2.py:317-367 | the loop's manifest hrefs are the kept file names in input order |
| Rebuild.AppendCounts | rebuild_site_v2.py:332-333 | the counter update keeps every counter equal to its date's manifest count |
| Rebuild.StepCounts | rebuild_site_v2.py:330-334 | one iteration keeps every counter equal to its date's manifest count |
| Rebuild.StepIds | rebuild_site_v2.py:330-334 | one iteration keeps every id numbered by rank within its date |
| Rebuild.StepPagesOk | rebuild_site_v2.py:317-367 | one iteration keeps every manifest entry well-formed |
| Rebuild.StepGood | rebuild_site_v2.py:317-367 | one iteration preserves counters, numbering and well-formedness together |
| Rebuild.RunGood | rebuild_site_v2.py:317-367 | the whole loop preserves counters, numbering and well-formedness |
| Rebuild.RebuildPage | rebuild_site_v2.py:318-367 | one loop iteration: the new files, counters and manifest are `Step` of the old ones |
| Rebuild.RebuildKept | rebuild_site_v2.py:326-367 | rebuilding a kept page gives exactly `Step`'s files, counters and manifest |
| Rebuild.RebuildPages | rebuild_site_v2.py:317-367 | the loop computes `Run`. No file is created or removed. The manifest lists the kept files in order, with ids numbered by rank within the date and pairwise distinct. Every entry is well-formed |
| Rebuild.RebuildSite | rebuild_site_v2.py:307-369 | `main`: the loop with the standard pipeline and footer repository, then `index.html` rendered from the site settings. The manifest lists the kept files in order, with distinct ids and well-formed entries |

## Left out

- Reading and writing `pages.json` (JSON decoding and encoding), and the final `print`. The methods take the decoded `site` object and page list, and return the new page list.
- The file system is a map from file name to content. Resolving paths against the script's directory is not modelled; an existing file is a key of the map.
- `read_text(errors="ignore")` and UTF-8 decoding are not modelled: file contents are already strings.
- The clock: `datetime.now()` becomes the `today` parameter, read once for the whole run. The script reads the clock again for each undated page, so a run that crosses midnight can give two undated pages different dates; the model gives them the same date.
- The literal page and index templates, including the index page's browser script, are parameters. Only their placeholder substitution is modelled.
- Regular expressions and `str.strip` use ASCII whitespace, ASCII case folding and ASCII digits. Python's Unicode `\s`, `\d`, `re.I` and `strip()` also accept other characters.
- Manifest values of unexpected JSON types, such as a non-string title or a tags value that is a string, are not modelled. Every field is an optional string, and tags are an optional list of strings.
- Rebuild.RebuildSite: does not state the set of file names after the run. `RebuildPages` states that the loop creates and removes no file, and `RebuildSite` then writes `index.html`.
- Rebuild.RebuildPages: the loop is proved for any `Pipeline`, a value with three function fields. `RebuildSite` passes the script's own functions. Properties of those functions are proved separately, in `Extract` and `Render`.
- The model follows the code as written, including three behaviours a reader may not expect:
  - sanitizing deletes everything from the first `<!doctype` to the end of the text, not only a leading declaration;
  - the body group runs from the first `<body…>` to the last `</body>`;
  - a page's `{{DESCRIPTION}}` slot receives the title, not the description.
