/** `category_from_old`: the category label of a page, from its stored tags. */
module Classify {

  const Development := "개발"
  const Analysis := "분석"

  const DevTags: seq<string> := ["dev", "openclaw", "config", "telegram", "session"]
  const LogTags: seq<string> := ["logs", "travel", "itinerary", "singapore"]
  const SummaryTags: seq<string> := ["summary", "eopla", "startup", "marketing"]

  /** `any(t in tags for t in group)`. */
  predicate AnyIn(group: seq<string>, tags: seq<string>)
  {
    exists t :: t in group && t in tags
  }

  /** First match wins over the three tag groups; only the first group leads
      to a label different from the default. `tags` is `old.get("tags") or []`. */
  function Category(tags: seq<string>): (r: string)
    ensures r == Development <==> AnyIn(DevTags, tags)
    ensures r == Analysis <==> !AnyIn(DevTags, tags)
    ensures r == Development || r == Analysis
  {
    if AnyIn(DevTags, tags) then Development
    else if AnyIn(LogTags, tags) then Analysis
    else if AnyIn(SummaryTags, tags) then Analysis
    else Analysis
  }
}
