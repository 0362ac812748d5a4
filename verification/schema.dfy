/** The earlier query builder, the one the HTTP handler uses: the request
    validators have already split every parameter, dates are optional
    bounds, the keyword string goes to the query parser whole. */
module SchemaQuery {
  import opened Wrappers
  import opened Text
  import opened Bytes
  import opened QueryTree

  /** `make_keyword_query`: the parser's query for the keyword, and whether
      the keyword is to be used at all (it is not empty). Whether the
      parser accepts the text is not part of this model. */
  function MakeKeywordQuery(keyword: string): (r: (Query, bool))
    ensures r.1 <==> |keyword| > 0
    ensures r.0 == Parsed(keyword)
  {
    (Parsed(keyword), keyword != "")
  }

  /** The keyword reaches the parser untouched: different keywords are
      never handed over as the same text, and only a keyword that is used
      can change the search. */
  lemma KeywordUntouched(a: string, b: string)
    ensures MakeKeywordQuery(a).0 == MakeKeywordQuery(b).0 <==> a == b
    ensures !MakeKeywordQuery(a).1 ==> MakeKeywordQuery(a).0 == Parsed("")
  {
  }

  /** `now as i64` for a `u64` clock reading: the bit pattern reinterpreted,
      so readings from `2^63` seconds on turn negative. */
  function NowAsI64(now: nat): (r: int)
    requires now < U64_LIMIT
    ensures I64_MIN <= r < I64_LIMIT
    ensures (r - now) % U64_LIMIT == 0
  {
    if now < I64_LIMIT then now else now - U64_LIMIT
  }

  /** `make_date_query`: `[start, stop)` on `date`, an open start meaning 0
      and an open stop meaning `now`; no range at all when both ends are
      open or the list is not a pair. */
  function MakeDateQuery(dates: seq<Option<int>>, now: nat, qVecs: seq<Query>): (r: seq<Query>)
    requires now < U64_LIMIT
    ensures qVecs <= r && |r| <= |qVecs| + 1
    ensures |r| == |qVecs| + 1 <==> |dates| == 2 && (dates[0].Some? || dates[1].Some?)
    ensures |r| == |qVecs| + 1 ==> r[|qVecs|].RangeQuery? && r[|qVecs|].field == Date
  {
    if |dates| != 2 then qVecs
    else
      match (dates[0], dates[1])
      case (Some(start), Some(stop)) => qVecs + [RangeQuery(Date, start, stop)]
      case (Some(start), None) => qVecs + [RangeQuery(Date, start, NowAsI64(now))]
      case (None, Some(stop)) => qVecs + [RangeQuery(Date, 0, stop)]
      case (None, None) => qVecs
  }

  /** The lower bound of an optional start. */
  function StartOf(start: Option<int>): int
  {
    if start.Some? then start.value else 0
  }

  /** The upper bound of an optional stop. */
  function StopOf(stop: Option<int>, now: nat): int
    requires now < U64_LIMIT
  {
    if stop.Some? then stop.value else NowAsI64(now)
  }

  /** A date range, when there is one, runs from the start (or the epoch) up
      to, but excluding, the stop (or the current time). */
  lemma DateQueryBounds(dates: seq<Option<int>>, now: nat, qVecs: seq<Query>)
    requires now < U64_LIMIT
    requires |dates| == 2 && (dates[0].Some? || dates[1].Some?)
    ensures MakeDateQuery(dates, now, qVecs) == qVecs + [RangeQuery(Date, StartOf(dates[0]), StopOf(dates[1], now))]
  {
  }

  /** `make_snippet_value`: the generator's HTML whatever it is; without a
      generator, the first 140 characters of the stored text, which must then
      be text. */
  function MakeSnippetValue<D>(gen: Option<D -> string>, doc: D, value: Value): (r: Result<string, Fault>)
    ensures r.Err? <==> gen.None? && value.Other?
    ensures r.Ok? && gen.Some? ==> r.value == gen.value(doc)
    ensures r.Ok? && gen.None? ==> r.value <= value.s && |r.value| == if |value.s| < 140 then |value.s| else 140
  {
    match gen
    case Some(spg) => Ok(spg(doc))
    case None =>
      if value.Other? then Err(NotText) else Ok(TakeChars(value.s, 140))
  }

  /** `make_paginate`: one best hit when no pages were asked for, else
      `pages[1]` hits of page `pages[0]`. */
  function MakePaginate(pages: seq<nat>): (r: Result<TopDocs, Fault>)
    ensures |pages| == 0 ==> r == Ok(TopDocs(1, 0))
    ensures |pages| == 1 ==> r == Err(MissingPiece)
    ensures |pages| >= 2 ==> r == PageWindow(pages[0], pages[1])
  {
    if |pages| == 0 then Ok(TopDocs(1, 0))
    else
      var page := pages[0];
      if |pages| < 2 then Err(MissingPiece) else PageWindow(page, pages[1])
  }
}
