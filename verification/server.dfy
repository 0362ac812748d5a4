/** The HTTP handler of the earlier revision: the request validators that
    turn query parameters into a `Thing`, and the order in which `greet`
    assembles the search from it. Deserialising the query string, running
    the search and writing the JSON response are not modelled. */
module Server {
  import opened Wrappers
  import opened Text
  import opened Bytes
  import opened Decimal
  import opened QueryTree
  import opened SchemaQuery

  /** A rejected parameter: the offending value and what was expected. */
  datatype Rejection = Rejection(value: string, expected: string)

  const DateExpected: string := "ISO 8601 date format"
  const PagesExpected: string := "invalid format"

  /** The query parameters of a search. */
  datatype Thing = Thing(q: string, range: seq<Option<int>>, pages: seq<nat>, terms: seq<string>)

  /** `validate_terms`: the parameter split on single spaces, empty pieces
      kept. */
  function ValidateTerms(value: string): (r: seq<string>)
    ensures |r| == Count(value, ' ') + 1
    ensures Join(r, ' ') == value
  {
    SplitCount(value, ' ');
    SplitJoin(value, ' ');
    Split(value, ' ')
  }

  /** Space-free terms joined by spaces come back one for one. */
  lemma TermsOfWords(words: seq<string>)
    requires |words| >= 1
    requires forall i :: 0 <= i < |words| ==> ' ' !in words[i]
    ensures ValidateTerms(Join(words, ' ')) == words
  {
    JoinSplit(words, ' ');
  }

  /** `chrono`'s `%Y-%m-%d` parse followed by the midnight timestamp, left to
      the caller. */
  type DateParser = string -> Option<int>

  /** A range piece the validator accepts: empty, or a date. */
  predicate Dateable(piece: string, parseDate: DateParser)
  {
    piece == "" || parseDate(piece).Some?
  }

  /** One end of a range: `None` when empty, else the parsed date. */
  function RangeBound(piece: string, value: string, parseDate: DateParser): (r: Result<Option<int>, Rejection>)
    ensures r.Ok? <==> Dateable(piece, parseDate)
    ensures r.Err? ==> r.error == Rejection(value, DateExpected)
    ensures r.Ok? ==> (r.value.None? <==> piece == "")
    ensures r.Ok? && piece != "" ==> r.value == parseDate(piece)
  {
    if piece == "" then Ok(None)
    else
      match parseDate(piece)
      case Some(v) => Ok(Some(v))
      case None => Err(Rejection(value, DateExpected))
  }

  /** `validate_range`: exactly one `~`, and each side empty or a date. */
  function ValidateRange(value: string, parseDate: DateParser): (r: Result<seq<Option<int>>, Rejection>)
    ensures r.Ok? <==>
      && |Split(value, '~')| == 2
      && Dateable(Split(value, '~')[0], parseDate) && Dateable(Split(value, '~')[1], parseDate)
    ensures r.Ok? ==> Count(value, '~') == 1 && |r.value| == 2
    ensures r.Ok? ==> forall i :: 0 <= i < 2 ==>
      r.value[i] == if Split(value, '~')[i] == "" then None else parseDate(Split(value, '~')[i])
    ensures r.Err? ==> r.error == Rejection(value, DateExpected)
  {
    SplitCount(value, '~');
    var strValues := Split(value, '~');
    if |strValues| != 2 then Err(Rejection(value, DateExpected))
    else
      var start :- RangeBound(strValues[0], value, parseDate);
      var stop :- RangeBound(strValues[1], value, parseDate);
      Ok([start, stop])
  }

  /** How a caller writes one end of a range. */
  function ShowBound(b: Option<int>, show: int -> string): string
  {
    if b.None? then "" else show(b.value)
  }

  /** The printer writes bound `b` as a non-empty, `~`-free date that the
      parser reads back as `b`; an open bound needs nothing. For a parser
      of midnight timestamps this holds of midnight bounds. */
  predicate PrintsBound(b: Option<int>, show: int -> string, parseDate: DateParser)
  {
    b.Some? ==> '~' !in show(b.value) && show(b.value) != "" && parseDate(show(b.value)) == b
  }

  /** A range whose bounds are written with a date printer the parser
      inverts on them reads back as the same pair of optional bounds. */
  lemma RangeOfBounds(start: Option<int>, stop: Option<int>, show: int -> string, parseDate: DateParser)
    requires PrintsBound(start, show, parseDate) && PrintsBound(stop, show, parseDate)
    ensures ValidateRange(ShowBound(start, show) + "~" + ShowBound(stop, show), parseDate) == Ok([start, stop])
  {
    var a, b := ShowBound(start, show), ShowBound(stop, show);
    assert '~' !in a && (start.Some? ==> a != "" && parseDate(a) == start);
    assert '~' !in b && (stop.Some? ==> b != "" && parseDate(b) == stop);
    assert a + "~" + b == a + ['~'] + b;
    SplitTwo(a, b, '~');
    SplitCount(a + "~" + b, '~');
  }

  /** `validate_pages`: exactly one `-`, with a `usize` on each side. */
  function ValidatePages(value: string): (r: Result<seq<nat>, Rejection>)
    ensures r.Ok? <==>
      && |Split(value, '-')| == 2
      && ParseUsize(Split(value, '-')[0]).Some? && ParseUsize(Split(value, '-')[1]).Some?
    ensures r.Ok? ==>
      (&& Count(value, '-') == 1 && |r.value| == 2
       && Some(r.value[0]) == ParseUsize(Split(value, '-')[0]) && Some(r.value[1]) == ParseUsize(Split(value, '-')[1]))
    ensures r.Err? ==> r.error == Rejection(value, PagesExpected)
  {
    SplitCount(value, '-');
    var strValues := Split(value, '-');
    if |strValues| != 2 then Err(Rejection(value, PagesExpected))
    else
      match (ParseUsize(strValues[0]), ParseUsize(strValues[1]))
      case (Some(page), Some(size)) => Ok([page, size])
      case _ => Err(Rejection(value, PagesExpected))
  }

  /** `page-size` in decimal reads back as the pair. */
  lemma PagesOf(page: nat, size: nat)
    requires page < U64_LIMIT && size < U64_LIMIT
    ensures ValidatePages(Show(page) + "-" + Show(size)) == Ok([page, size])
  {
    NoDashInNumber(page);
    NoDashInNumber(size);
    assert Show(page) + "-" + Show(size) == Show(page) + ['-'] + Show(size);
    SplitTwo(Show(page), Show(size), '-');
    SplitCount(Show(page) + "-" + Show(size), '-');
    ParseUsizeShow(page);
    ParseUsizeShow(size);
  }

  /** The `Thing` of a request: each absent parameter takes its empty
      default, each present one goes through its validator. The first
      rejection, in field order, is the answer. */
  function DecodeThing(q: Option<string>, range: Option<string>, pages: Option<string>, terms: Option<string>,
                       parseDate: DateParser): (r: Result<Thing, Rejection>)
    ensures r.Err? <==>
      (range.Some? && ValidateRange(range.value, parseDate).Err?) || (pages.Some? && ValidatePages(pages.value).Err?)
    ensures r.Err? ==>
      r.error == if range.Some? && ValidateRange(range.value, parseDate).Err?
                 then ValidateRange(range.value, parseDate).error else ValidatePages(pages.value).error
    ensures r.Ok? ==> (|r.value.range| == 0 || |r.value.range| == 2) && (|r.value.pages| == 0 || |r.value.pages| == 2)
    ensures r.Ok? ==> (|r.value.terms| == 0 <==> terms.None?)
    ensures r.Ok? ==> (q.None? ==> r.value.q == "") && (q.Some? ==> r.value.q == q.value)
    ensures r.Ok? ==> (range.None? <==> r.value.range == []) && (pages.None? <==> r.value.pages == [])
    ensures r.Ok? && range.Some? ==> Ok(r.value.range) == ValidateRange(range.value, parseDate)
    ensures r.Ok? && pages.Some? ==> Ok(r.value.pages) == ValidatePages(pages.value)
    ensures r.Ok? && terms.Some? ==> r.value.terms == ValidateTerms(terms.value)
  {
    var rangeValue :- if range.None? then Ok([]) else ValidateRange(range.value, parseDate);
    var pagesValue :- if pages.None? then Ok([]) else ValidatePages(pages.value);
    Ok(Thing(if q.None? then "" else q.value,
             rangeValue,
             pagesValue,
             if terms.None? then [] else ValidateTerms(terms.value)))
  }

  /** How a client writes the `range` parameter, if at all. */
  function WriteRange(bounds: Option<(Option<int>, Option<int>)>, show: int -> string): Option<string>
  {
    match bounds
    case None => None
    case Some((start, stop)) => Some(ShowBound(start, show) + "~" + ShowBound(stop, show))
  }

  /** How a client writes the `pages` parameter, if at all. */
  function WritePages(window: Option<(nat, nat)>): Option<string>
  {
    match window
    case None => None
    case Some((page, size)) => Some(Show(page) + "-" + Show(size))
  }

  /** How a client writes the `terms` parameter, if at all. */
  function WriteTerms(words: Option<seq<string>>): Option<string>
  {
    match words
    case None => None
    case Some(ws) => Some(Join(ws, ' '))
  }

  /** Parameters a client writes from values, each present or absent, decode
      back to those values; an absent parameter takes its empty default. */
  lemma ThingOfParameters(q: Option<string>, bounds: Option<(Option<int>, Option<int>)>,
                          window: Option<(nat, nat)>, words: Option<seq<string>>,
                          show: int -> string, parseDate: DateParser)
    requires bounds.Some? ==> PrintsBound(bounds.value.0, show, parseDate) && PrintsBound(bounds.value.1, show, parseDate)
    requires window.Some? ==> window.value.0 < U64_LIMIT && window.value.1 < U64_LIMIT
    requires words.Some? ==> |words.value| >= 1 && forall i :: 0 <= i < |words.value| ==> ' ' !in words.value[i]
    ensures DecodeThing(q, WriteRange(bounds, show), WritePages(window), WriteTerms(words), parseDate)
         == Ok(Thing(if q.None? then "" else q.value,
                     if bounds.None? then [] else [bounds.value.0, bounds.value.1],
                     if window.None? then [] else [window.value.0, window.value.1],
                     if words.None? then [] else words.value))
  {
    if bounds.Some? {
      RangeOfBounds(bounds.value.0, bounds.value.1, show, parseDate);
    }
    if window.Some? {
      PagesOf(window.value.0, window.value.1);
    }
    if words.Some? {
      TermsOfWords(words.value);
    }
  }

  /** The search `greet` runs: the combined query, the page window, and
      whether title and content snippets are generated. */
  datatype SearchPlan = SearchPlan(query: Query, window: TopDocs, titleSnippets: bool, contentSnippets: bool)

  /** `greet` up to running the search: the keyword query when the keyword
      is not empty, then the filters, then the date range, all required;
      snippet generators only for a keyword search. */
  function Greet(info: Thing, now: nat, fold: CaseFold): (r: Result<SearchPlan, Fault>)
    requires now < U64_LIMIT
    ensures r.Err? <==> AnyBareFilter(info.terms) || MakePaginate(info.pages).Err?
    ensures r.Ok? ==> r.value.titleSnippets == r.value.contentSnippets == (info.q != "")
  {
    var (keywordQuery, trueQuery) := MakeKeywordQuery(info.q);
    var boxQs := if trueQuery then [keywordQuery] else [];
    var boxQs :- FilterTerms(info.terms, boxQs, fold);
    var boxQs := MakeDateQuery(info.range, now, boxQs);
    var boolQs := MakeBoolQuery(boxQs);
    var window :- MakePaginate(info.pages);
    Ok(SearchPlan(boolQs, window, trueQuery, trueQuery))
  }

  /** The keyword part of the combined query. */
  function KeywordPart(q: string): seq<Query>
  {
    if q != "" then [Parsed(q)] else []
  }

  /** The combined query requires, in this order: the keyword query (for a
      non-empty keyword), each filter's term query, and the date range. */
  lemma GreetClauses(info: Thing, now: nat, fold: CaseFold)
    requires now < U64_LIMIT && Greet(info, now, fold).Ok?
    ensures var cs := Greet(info, now, fold).value.query.clauses;
      && Subqueries(cs) == KeywordPart(info.q) + FilterTerms(info.terms, [], fold).value + MakeDateQuery(info.range, now, [])
      && forall i :: 0 <= i < |cs| ==> cs[i].occur == Must
  {
    var kw := KeywordPart(info.q);
    var added := TermQueries(info.terms, fold).value;
    var filtered := FilterTerms(info.terms, kw, fold).value;
    assert filtered == kw + added && FilterTerms(info.terms, [], fold).value == [] + added;
    var dated := MakeDateQuery(info.range, now, filtered);
    assert dated == filtered + MakeDateQuery(info.range, now, []) by {
      DateQueryAfter(info.range, now, filtered);
    }
    assert Greet(info, now, fold).value.query == MakeBoolQuery(dated);
    BoolQueryKeepsQueries(dated);
  }

  lemma DateQueryAfter(dates: seq<Option<int>>, now: nat, qVecs: seq<Query>)
    requires now < U64_LIMIT
    ensures MakeDateQuery(dates, now, qVecs) == qVecs + MakeDateQuery(dates, now, [])
  {
  }

  /** A validated request never indexes past its page or range pair: within
      the model, the only ways `greet` can still panic are a bare filter,
      page 0, and an offset beyond `usize`. */
  lemma ValidatedGreet(q: Option<string>, range: Option<string>, pages: Option<string>, terms: Option<string>,
                       parseDate: DateParser, now: nat, fold: CaseFold)
    requires now < U64_LIMIT
    requires DecodeThing(q, range, pages, terms, parseDate).Ok?
    ensures var info := DecodeThing(q, range, pages, terms, parseDate).value;
      Greet(info, now, fold).Err? ==>
        AnyBareFilter(info.terms) || MakePaginate(info.pages) == Err(PageUnderflow)
          || MakePaginate(info.pages) == Err(OffsetOverflow)
  {
  }
}
