/** The query tree the search service hands to the index store, shared by
    both revisions of the query builder: term, phrase, half-open range and
    boolean queries, the `prefix:value` filters, and the page window of a
    search. What the index store does with a query is not modelled. */
module QueryTree {
  import opened Wrappers
  import opened Text
  import opened Bytes

  datatype Field = Url | Date | Tags | Title | Content | Category

  datatype Occur = Must | Should | MustNot

  /** What a term query asks of the posting lists. */
  datatype IndexOption = Basic | WithFreqsAndPositions

  /** One word of a phrase and its byte offset inside the phrase. */
  datatype PhraseTerm = PhraseTerm(offset: nat, field: Field, text: string)

  datatype Query =
    | TermQuery(field: Field, text: string, option: IndexOption)
    | PhraseQuery(terms: seq<PhraseTerm>)
      /** Matches the documents whose `field` value `v` has `lo <= v < hi`. */
    | RangeQuery(field: Field, lo: int, hi: int)
    | BooleanQuery(clauses: seq<Clause>)
      /** The query parser's reading of a keyword string, left abstract. */
    | Parsed(source: string)

  datatype Clause = Clause(occur: Occur, query: Query)

  /** Why a query builder panics. */
  datatype Fault =
    | MissingValue    // `p[1]` on a `tags` or `category` filter without `:`
    | BadNumber       // `parse().unwrap()` on a piece that is no number
    | MissingPiece    // indexing the second number of a one-piece list
    | PageUnderflow   // `page - 1` with page 0
    | OffsetOverflow  // `(page - 1) * size` beyond `usize`
    | NotText         // `text().unwrap()` on a stored value that is no text
    | EmptyPhrase     // the phrase constructor on a word with no tokens

  /** A stored field value as the index store returns it. */
  datatype Value = Str(s: string) | Other

  /** The collector of one search: at most `limit` hits, after skipping
      the best `offset` ones. */
  datatype TopDocs = TopDocs(limit: nat, offset: nat)

  /** Does the range query `q` match a document whose value is `v`? */
  predicate InRange(q: Query, v: int)
    requires q.RangeQuery?
  {
    q.lo <= v < q.hi
  }

  // ---------------------------------------------------------------- boolean

  function MustClauses(qs: seq<Query>): seq<Clause>
    decreases |qs|
  {
    if |qs| == 0 then [] else [Clause(Must, qs[0])] + MustClauses(qs[1..])
  }

  /** The sub-queries of a list of clauses, without their occurrence. */
  function Subqueries(cs: seq<Clause>): seq<Query>
    decreases |cs|
  {
    if |cs| == 0 then [] else [cs[0].query] + Subqueries(cs[1..])
  }

  /** `make_bool_query`: every sub-query becomes a required clause. */
  function MakeBoolQuery(qs: seq<Query>): (r: Query)
    ensures r.BooleanQuery? && |r.clauses| == |qs|
  {
    MustClausesLength(qs);
    BooleanQuery(MustClauses(qs))
  }

  lemma {:induction false} MustClausesLength(qs: seq<Query>)
    ensures |MustClauses(qs)| == |qs|
    decreases |qs|
  {
    if |qs| > 0 {
      MustClausesLength(qs[1..]);
    }
  }

  /** Every clause of the combined query is required, and the sub-queries
      come back unchanged, in order and count. */
  lemma {:induction false} BoolQueryKeepsQueries(qs: seq<Query>)
    ensures forall i :: 0 <= i < |MakeBoolQuery(qs).clauses| ==> MakeBoolQuery(qs).clauses[i].occur == Must
    ensures Subqueries(MakeBoolQuery(qs).clauses) == qs
    decreases |qs|
  {
    if |qs| > 0 {
      BoolQueryKeepsQueries(qs[1..]);
      var cs := MustClauses(qs);
      assert cs == [Clause(Must, qs[0])] + MustClauses(qs[1..]);
      forall i | 0 <= i < |cs| ensures cs[i].occur == Must {
        if i > 0 {
          assert cs[i] == MustClauses(qs[1..])[i - 1];
        }
      }
      assert cs[1..] == MustClauses(qs[1..]);
      assert [qs[0]] + qs[1..] == qs;
    }
  }

  // ---------------------------------------------------------------- filters

  /** A filter piece the builder cannot complete: the prefix with no `:`. */
  predicate IsBareFilter(piece: string)
  {
    piece == "tags" || piece == "category"
  }

  /** Does some piece of a filter list panic? */
  predicate AnyBareFilter(pieces: seq<string>)
  {
    exists i :: 0 <= i < |pieces| && IsBareFilter(pieces[i])
  }

  /** One `prefix:value` filter of `make_terms_query`: a term query on `tags`
      (value lower-cased) or `category` (value verbatim), nothing for any
      other prefix. */
  function TermFilter(piece: string, fold: CaseFold): (r: Result<Option<Query>, Fault>)
    ensures r.Err? ==> r.error == MissingValue
    ensures r.Ok? && r.value.Some? ==>
      r.value.value.TermQuery? && r.value.value.option == Basic && r.value.value.field in {Tags, Category}
  {
    var (head, rest) := SplitOnce(piece, ':');
    if head == "tags" then
      if rest.None? then Err(MissingValue) else Ok(Some(TermQuery(Tags, Lowercase(rest.value, fold), Basic)))
    else if head == "category" then
      if rest.None? then Err(MissingValue) else Ok(Some(TermQuery(Category, rest.value, Basic)))
    else Ok(None)
  }

  /** The only filters that panic are the bare prefixes. */
  lemma TermFilterFails(piece: string, fold: CaseFold)
    ensures TermFilter(piece, fold).Err? <==> IsBareFilter(piece)
  {
    SplitOnceSpec(piece, ':');
  }

  /** The filter forms a caller writes. */
  datatype Filter = TagIs(tag: string) | CategoryIs(name: string)

  function ShowFilter(f: Filter): string
  {
    match f
    case TagIs(t) => "tags:" + t
    case CategoryIs(n) => "category:" + n
  }

  /** The query a filter stands for. */
  function FilterQuery(f: Filter, fold: CaseFold): Query
  {
    match f
    case TagIs(t) => TermQuery(Tags, Lowercase(t, fold), Basic)
    case CategoryIs(n) => TermQuery(Category, n, Basic)
  }

  /** A written filter reads back as the query it stands for; the value may
      itself hold `:`. */
  lemma TermFilterOfShow(f: Filter, fold: CaseFold)
    ensures TermFilter(ShowFilter(f), fold) == Ok(Some(FilterQuery(f, fold)))
  {
    match f
    case TagIs(t) =>
      SplitOnceAt("tags", t, ':');
      assert ShowFilter(f) == "tags" + [':'] + t;
    case CategoryIs(n) =>
      SplitOnceAt("category", n, ':');
      assert ShowFilter(f) == "category" + [':'] + n;
  }

  /** A piece whose text before the first `:` is neither prefix adds
      nothing. */
  lemma TermFilterIgnores(piece: string, fold: CaseFold)
    requires SplitOnce(piece, ':').0 != "tags" && SplitOnce(piece, ':').0 != "category"
    ensures TermFilter(piece, fold) == Ok(None)
  {
  }

  lemma {:induction false} SplitOnceAt(a: string, b: string, d: char)
    requires d !in a
    ensures SplitOnce(a + [d] + b, d) == (a, Some(b))
    decreases |a|
  {
    if |a| == 0 {
      assert a + [d] + b == [d] + b;
    } else {
      SplitOnceAt(a[1..], b, d);
      assert (a + [d] + b)[1..] == a[1..] + [d] + b;
      assert [a[0]] + a[1..] == a;
    }
  }

  /** The term queries of a list of filter pieces, in order. */
  function TermQueries(pieces: seq<string>, fold: CaseFold): (r: Result<seq<Query>, Fault>)
    ensures r.Err? <==> AnyBareFilter(pieces)
    ensures r.Ok? ==> |r.value| <= |pieces|
    decreases |pieces|
  {
    if |pieces| == 0 then Ok([])
    else
      TermFilterFails(pieces[0], fold);
      var q :- TermFilter(pieces[0], fold);
      var rest := TermQueries(pieces[1..], fold);
      assert rest.Err? <==> AnyBareFilter(pieces) by {
        if rest.Err? {
          var i :| 0 <= i < |pieces[1..]| && IsBareFilter(pieces[1..][i]);
          assert IsBareFilter(pieces[i + 1]);
        } else {
          forall i | 0 <= i < |pieces| ensures !IsBareFilter(pieces[i]) {
            if i > 0 {
              assert pieces[i] == pieces[1..][i - 1];
            }
          }
        }
      }
      var added :- rest;
      Ok((if q.Some? then [q.value] else []) + added)
  }

  /** The loop of `make_terms_query` over its pieces, each query pushed
      onto `acc`. It is also the whole of the earlier revision's
      `make_terms_query`, which receives the pieces already split. */
  function FilterTerms(pieces: seq<string>, acc: seq<Query>, fold: CaseFold): (r: Result<seq<Query>, Fault>)
    ensures r.Err? <==> AnyBareFilter(pieces)
    ensures r.Ok? ==> acc <= r.value && |r.value| <= |acc| + |pieces|
  {
    var added :- TermQueries(pieces, fold);
    Ok(acc + added)
  }

  function ShowFilters(fs: seq<Filter>): (r: seq<string>)
    ensures |r| == |fs|
    decreases |fs|
  {
    if |fs| == 0 then [] else [ShowFilter(fs[0])] + ShowFilters(fs[1..])
  }

  function FilterQueries(fs: seq<Filter>, fold: CaseFold): (r: seq<Query>)
    ensures |r| == |fs|
    decreases |fs|
  {
    if |fs| == 0 then [] else [FilterQuery(fs[0], fold)] + FilterQueries(fs[1..], fold)
  }

  /** Written filters turn into their queries, in order. */
  lemma {:induction false} TermQueriesOfShow(fs: seq<Filter>, fold: CaseFold)
    ensures TermQueries(ShowFilters(fs), fold) == Ok(FilterQueries(fs, fold))
    decreases |fs|
  {
    if |fs| > 0 {
      var pieces := ShowFilters(fs);
      var q := FilterQuery(fs[0], fold);
      TermQueriesOfShow(fs[1..], fold);
      assert TermFilter(pieces[0], fold) == Ok(Some(q)) by {
        TermFilterOfShow(fs[0], fold);
      }
      assert pieces[1..] == ShowFilters(fs[1..]);
    }
  }

  /** ... and land after the queries already collected. */
  lemma FilterTermsOfShow(fs: seq<Filter>, acc: seq<Query>, fold: CaseFold)
    ensures FilterTerms(ShowFilters(fs), acc, fold) == Ok(acc + FilterQueries(fs, fold))
  {
    TermQueriesOfShow(fs, fold);
  }

  // ---------------------------------------------------------------- paging

  /** `TopDocs::with_limit(size).and_offset((page - 1) * size)` with
      debug-build arithmetic: page 0 underflows, an offset beyond `usize`
      overflows. */
  function PageWindow(page: nat, size: nat): (r: Result<TopDocs, Fault>)
    ensures r.Ok? <==> 1 <= page && (page - 1) * size < U64_LIMIT
    ensures r.Err? && page == 0 ==> r.error == PageUnderflow
  {
    if page == 0 then Err(PageUnderflow)
    else if (page - 1) * size >= U64_LIMIT then Err(OffsetOverflow)
    else Ok(TopDocs(size, (page - 1) * size))
  }

  /** Page windows tile the ranking: page `p + 1` starts right where page
      `p` ends, and page 1 starts at the best hit. */
  lemma PagesTile(page: nat, size: nat)
    requires PageWindow(page + 1, size).Ok?
    ensures PageWindow(1, size) == Ok(TopDocs(size, 0))
    ensures page >= 1 ==>
      (&& PageWindow(page, size).Ok?
       && PageWindow(page + 1, size).value.offset == PageWindow(page, size).value.offset + PageWindow(page, size).value.limit)
  {
    if page >= 1 {
      assert (page - 1) * size <= page * size;
    }
  }

  /** The page a window shows can be read back from it. */
  lemma PageOfWindow(page: nat, size: nat)
    requires PageWindow(page, size).Ok? && size > 0
    ensures PageWindow(page, size).value.offset / PageWindow(page, size).value.limit + 1 == page
    ensures PageWindow(page, size).value.offset % PageWindow(page, size).value.limit == 0
  {
    MulDiv(page - 1, size);
  }

  /** A multiple of `s` divides by `s` exactly. */
  lemma {:induction false} MulDiv(k: nat, s: nat)
    requires s > 0
    ensures (k * s) / s == k && (k * s) % s == 0
    decreases k
  {
    if k > 0 {
      MulDiv(k - 1, s);
      assert k * s == (k - 1) * s + s;
      AddDivisor((k - 1) * s, s);
    }
  }

  /** Adding the divisor once moves the quotient up by one and keeps the remainder. */
  lemma AddDivisor(a: nat, s: nat)
    requires s > 0
    ensures (a + s) / s == a / s + 1 && (a + s) % s == a % s
  {
    var q, r := a / s, a % s;
    assert a + s == (q + 1) * s + r;
    DivUnique(a + s, s, q + 1, r);
  }

  /** Euclidean division has one quotient and one remainder. */
  lemma DivUnique(x: nat, s: nat, q: nat, r: nat)
    requires s > 0 && r < s && x == q * s + r
    ensures x / s == q && x % s == r
  {
    var q' := x / s;
    if q' < q {
      MulMono(q' + 1, q, s);
    } else if q' > q {
      MulMono(q + 1, q', s);
    }
  }

  lemma {:induction false} MulMono(a: nat, b: nat, s: nat)
    requires a <= b
    ensures a * s <= b * s
    decreases b - a
  {
    if a < b {
      MulMono(a + 1, b, s);
      assert (a + 1) * s == a * s + s;
    }
  }

  // ---------------------------------------------------------------- numbers

  /** `pieces.map(|x| x.parse().unwrap()).collect()`: every piece must parse. */
  function ParseEach<T>(pieces: seq<string>, parse: string -> Option<T>): (r: Result<seq<T>, Fault>)
    ensures r.Err? <==> exists i :: 0 <= i < |pieces| && parse(pieces[i]).None?
    ensures r.Err? ==> r.error == BadNumber
    ensures r.Ok? ==> |r.value| == |pieces| && forall i :: 0 <= i < |pieces| ==> parse(pieces[i]) == Some(r.value[i])
    decreases |pieces|
  {
    if |pieces| == 0 then Ok([])
    else
      match parse(pieces[0])
      case None => Err(BadNumber)
      case Some(v) =>
        var rest := ParseEach(pieces[1..], parse);
        if rest.Err? then
          assert exists i :: 0 <= i < |pieces| && parse(pieces[i]).None? by {
            var i :| 0 <= i < |pieces[1..]| && parse(pieces[1..][i]).None?;
            assert pieces[1..][i] == pieces[i + 1];
          }
          Err(BadNumber)
        else
          var r := [v] + rest.value;
          assert forall i :: 0 <= i < |pieces| ==> parse(pieces[i]) == Some(r[i]) by {
            forall i | 0 <= i < |pieces| ensures parse(pieces[i]) == Some(r[i]) {
              if i > 0 {
                assert pieces[i] == pieces[1..][i - 1];
              }
            }
          }
          Ok(r)
  }
}
