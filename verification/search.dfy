/** The current query builder (`QuerySchema` of the search module): every
    request parameter arrives as one string and is parsed here. Keywords are
    comma-separated, a leading `-` excludes a word, each word is matched on
    title and content, as a term when the segmenter sees one token and as a
    phrase of its tokens otherwise. */
module SearchQuery {
  import opened Wrappers
  import opened Text
  import opened Bytes
  import opened Utf8
  import opened Decimal
  import opened Segmentation
  import opened QueryTree

  /** The separator of keyword and filter lists. */
  const Delimiter: char := ','

  /** `make_terms_query`: comma-separated `prefix:value` filters appended to
      `qVecs`. */
  function MakeTermsQuery(terms: string, qVecs: seq<Query>, fold: CaseFold): (r: Result<seq<Query>, Fault>)
    ensures r.Err? <==> AnyBareFilter(Split(terms, Delimiter))
    ensures r.Ok? ==> qVecs <= r.value
  {
    FilterTerms(Split(terms, Delimiter), qVecs, fold)
  }

  /** Filters written out and comma-joined become their term queries, in
      order, after the queries already collected. */
  lemma TermsQueryOfFilters(fs: seq<Filter>, qVecs: seq<Query>, fold: CaseFold)
    requires forall i :: 0 <= i < |fs| ==> Delimiter !in ShowFilter(fs[i])
    ensures MakeTermsQuery(Join(ShowFilters(fs), Delimiter), qVecs, fold) == Ok(qVecs + FilterQueries(fs, fold))
  {
    if |fs| == 0 {
      assert Join(ShowFilters(fs), Delimiter) == "";
      assert qVecs + FilterQueries(fs, fold) == qVecs;
      NoFilters(qVecs, fold);
    } else {
      var pieces := ShowFilters(fs);
      assert Split(Join(pieces, Delimiter), Delimiter) == pieces by {
        ShowFiltersFree(fs);
        JoinSplit(pieces, Delimiter);
      }
      FilterTermsOfShow(fs, qVecs, fold);
    }
  }

  lemma NoFilters(qVecs: seq<Query>, fold: CaseFold)
    ensures MakeTermsQuery("", qVecs, fold) == Ok(qVecs)
  {
    assert Split("", Delimiter) == [""];
    assert TermFilter("", fold) == Ok(None);
    assert [""][1..] == [];
    assert TermQueries([""], fold) == Ok([]);
    assert qVecs + [] == qVecs;
  }

  lemma ShowFiltersFree(fs: seq<Filter>)
    requires forall i :: 0 <= i < |fs| ==> Delimiter !in ShowFilter(fs[i])
    ensures forall i :: 0 <= i < |ShowFilters(fs)| ==> Delimiter !in ShowFilters(fs)[i]
  {
    forall i | 0 <= i < |fs| ensures Delimiter !in ShowFilters(fs)[i] {
      ShowFiltersAt(fs, i);
    }
  }

  lemma {:induction false} ShowFiltersAt(fs: seq<Filter>, i: nat)
    requires i < |fs|
    ensures ShowFilters(fs)[i] == ShowFilter(fs[i])
    decreases i
  {
    if i > 0 {
      ShowFiltersAt(fs[1..], i - 1);
    }
  }

  // ---------------------------------------------------------------- words

  /** The words of a phrase from byte offset `offset` on (`ch.len()` is the
      byte length). */
  function PhraseTerms(words: seq<string>, field: Field, offset: nat): (r: seq<PhraseTerm>)
    ensures |r| == |words|
    decreases |words|
  {
    if |words| == 0 then []
    else [PhraseTerm(offset, field, words[0])] + PhraseTerms(words[1..], field, offset + ByteLen(words[0]))
  }

  /** Each phrase word sits at the byte length of the words before it. */
  lemma {:induction false} PhraseTermsAt(words: seq<string>, field: Field, offset: nat)
    ensures forall i :: 0 <= i < |words| ==>
      PhraseTerms(words, field, offset)[i] == PhraseTerm(offset + ByteLen(Concat(words[..i])), field, words[i])
    decreases |words|
  {
    if |words| > 0 {
      var w := words[0];
      var ts := PhraseTerms(words, field, offset);
      var tail := PhraseTerms(words[1..], field, offset + ByteLen(w));
      PhraseTermsAt(words[1..], field, offset + ByteLen(w));
      assert ts == [PhraseTerm(offset, field, w)] + tail;
      forall i | 0 <= i < |words|
        ensures ts[i] == PhraseTerm(offset + ByteLen(Concat(words[..i])), field, words[i])
      {
        if i == 0 {
          assert words[..0] == [];
        } else {
          assert tail[i - 1] == PhraseTerm(offset + ByteLen(w) + ByteLen(Concat(words[1..][..i - 1])), field, words[1..][i - 1]);
          PrefixBytes(words, i);
        }
      }
    }
  }

  /** The bytes before word `i` are the first word's and those before word
      `i - 1` of the rest. */
  lemma PrefixBytes(words: seq<string>, i: nat)
    requires 0 < i <= |words|
    ensures ByteLen(Concat(words[..i])) == ByteLen(words[0]) + ByteLen(Concat(words[1..][..i - 1]))
  {
    assert words[1..][..i - 1] == words[1..i];
    assert words[..i] == [words[0]] + words[1..i];
    assert Concat(words[..i]) == words[0] + Concat(words[1..i]);
    ByteLenAppend(words[0], Concat(words[1..i]));
  }

  /** `make_field_search`: a content clause and a title clause, both with
      occurrence `op`. A word of one token is a term on each field, any other
      word a phrase of its tokens; the index store's phrase constructor panics
      on a phrase without terms, which is what the empty word gives. */
  function MakeFieldSearch(word: string, op: Occur): (r: Result<Query, Fault>)
    ensures r.Err? <==> word == ""
    ensures r.Err? ==> r.error == EmptyPhrase
    ensures r.Ok? ==> r.value.BooleanQuery? && |r.value.clauses| == 2
    ensures r.Ok? ==> r.value.clauses[0].occur == op && r.value.clauses[1].occur == op
  {
    var chs := CutString(word);
    CutStringConcat(word);
    if |chs| == 1 then
      Ok(BooleanQuery([Clause(op, TermQuery(Content, word, WithFreqsAndPositions)),
                       Clause(op, TermQuery(Title, word, WithFreqsAndPositions))]))
    else if |chs| == 0 then Err(EmptyPhrase)
    else
      Ok(BooleanQuery([Clause(op, PhraseQuery(PhraseTerms(chs, Content, 0))),
                       Clause(op, PhraseQuery(PhraseTerms(chs, Title, 0)))]))
  }

  /** A word the segmenter leaves whole (a run of ASCII letters, or a single
      other character) is looked up as a term on content and title. */
  lemma FieldSearchTerm(word: string, op: Occur)
    requires |word| == 1 || (|word| > 0 && forall i :: 0 <= i < |word| ==> IsAsciiAlpha(word[i]))
    ensures MakeFieldSearch(word, op) == Ok(BooleanQuery([Clause(op, TermQuery(Content, word, WithFreqsAndPositions)),
                                                          Clause(op, TermQuery(Title, word, WithFreqsAndPositions))]))
  {
    if |word| == 1 && !IsAsciiAlpha(word[0]) {
      assert word[..1] == word;
      assert CutString(word[1..]) == [];
    } else {
      CutStringAllLetters(word);
    }
  }

  /** A word of several tokens is a phrase on each field: the same words at
      the same offsets, and they glue back to the word. */
  lemma FieldSearchPhrase(word: string, op: Occur)
    requires |CutString(word)| >= 2
    ensures var r := MakeFieldSearch(word, op);
      && r.Ok?
      && r.value.clauses[0].query == PhraseQuery(PhraseTerms(CutString(word), Content, 0))
      && r.value.clauses[1].query == PhraseQuery(PhraseTerms(CutString(word), Title, 0))
    ensures var c, t := PhraseTerms(CutString(word), Content, 0), PhraseTerms(CutString(word), Title, 0);
      forall i :: 0 <= i < |c| ==>
        && c[i].field == Content && t[i].field == Title
        && c[i].offset == t[i].offset && c[i].text == t[i].text == CutString(word)[i]
    ensures Concat(CutString(word)) == word
  {
    PhraseTermsAt(CutString(word), Content, 0);
    PhraseTermsAt(CutString(word), Title, 0);
    CutStringConcat(word);
  }

  /** The offsets of a word's phrase start at 0, grow strictly, and the last
      word ends at the byte length of the whole word. */
  lemma PhraseOffsets(word: string, field: Field)
    ensures var ts := PhraseTerms(CutString(word), field, 0);
      && (|ts| > 0 ==> ts[0].offset == 0 && ts[|ts| - 1].offset + ByteLen(ts[|ts| - 1].text) == ByteLen(word))
      && (forall i :: 0 < i < |ts| ==> ts[i - 1].offset < ts[i].offset)
  {
    var chs := CutString(word);
    CutStringSegments(word);
    CutStringConcat(word);
    PhraseLayout(chs, field);
  }

  lemma PhraseLayout(words: seq<string>, field: Field)
    requires forall i :: 0 <= i < |words| ==> |words[i]| >= 1
    ensures var ts := PhraseTerms(words, field, 0);
      && (|ts| > 0 ==> ts[0].offset == 0 && ts[|ts| - 1].offset + ByteLen(ts[|ts| - 1].text) == ByteLen(Concat(words)))
      && (forall i :: 0 < i < |ts| ==> ts[i - 1].offset < ts[i].offset)
  {
    PhraseEnds(words, field);
    PhraseIncreasing(words, field);
  }

  lemma PhraseEnds(words: seq<string>, field: Field)
    requires forall i :: 0 <= i < |words| ==> |words[i]| >= 1
    ensures var ts := PhraseTerms(words, field, 0);
      |ts| > 0 ==> ts[0].offset == 0 && ts[|ts| - 1].offset + ByteLen(ts[|ts| - 1].text) == ByteLen(Concat(words))
  {
    var ts := PhraseTerms(words, field, 0);
    PhraseTermsAt(words, field, 0);
    if |ts| > 0 {
      var n := |ts|;
      assert words[..0] == [];
      PrefixGrows(words, n - 1);
      assert words[..n] == words;
    }
  }

  lemma PhraseIncreasing(words: seq<string>, field: Field)
    requires forall i :: 0 <= i < |words| ==> |words[i]| >= 1
    ensures var ts := PhraseTerms(words, field, 0);
      forall i :: 0 < i < |ts| ==> ts[i - 1].offset < ts[i].offset
  {
    var ts := PhraseTerms(words, field, 0);
    PhraseTermsAt(words, field, 0);
    forall i | 0 < i < |ts| ensures ts[i - 1].offset < ts[i].offset {
      PrefixGrows(words, i - 1);
    }
  }

  /** Each word adds its own byte length, at least one byte, to the
      prefix before it. */
  lemma PrefixGrows(words: seq<string>, i: nat)
    requires i < |words| && |words[i]| >= 1
    ensures ByteLen(Concat(words[..i + 1])) == ByteLen(Concat(words[..i])) + ByteLen(words[i])
    ensures ByteLen(words[i]) >= 1
  {
    ConcatPrefixStep(words, i);
    ByteLenAppend(Concat(words[..i]), words[i]);
  }

  /** `make_subqueries`: each word, lower-cased, searched on both fields,
      and required. A word that lower-cases to nothing panics. */
  function MakeSubqueries(words: seq<string>, fold: CaseFold): (r: Result<seq<Clause>, Fault>)
    ensures r.Err? <==> exists i :: 0 <= i < |words| && Lowercase(words[i], fold) == ""
    ensures r.Err? ==> r.error == EmptyPhrase
    ensures r.Ok? ==> |r.value| == |words| && forall i :: 0 <= i < |words| ==>
      r.value[i] == Clause(Must, MakeFieldSearch(Lowercase(words[i], fold), Should).value)
    decreases |words|
  {
    if |words| == 0 then Ok([])
    else
      match MakeFieldSearch(Lowercase(words[0], fold), Should)
      case Err(e) => Err(e)
      case Ok(q) =>
        match MakeSubqueries(words[1..], fold)
        case Err(e) =>
          assert exists i :: 0 <= i < |words| && Lowercase(words[i], fold) == "" by {
            var j :| 0 <= j < |words[1..]| && Lowercase(words[1..][j], fold) == "";
            assert words[j + 1] == words[1..][j];
          }
          Err(e)
        case Ok(rest) =>
          assert forall i :: 0 < i < |words| ==> words[i] == words[1..][i - 1];
          Ok([Clause(Must, q)] + rest)
  }

  /** With a fold that erases nothing, the subqueries panic exactly when a
      word is empty. */
  lemma SubqueriesFail(words: seq<string>, fold: CaseFold)
    requires NonErasing(fold)
    ensures MakeSubqueries(words, fold).Err? <==> "" in words
  {
    forall i | 0 <= i < |words| ensures Lowercase(words[i], fold) == "" <==> words[i] == "" {
      LowercaseEmpty(words[i], fold);
    }
  }

  // ---------------------------------------------------------------- keywords

  /** The keyword pieces split into required words and excluded words, each
      excluded word with its one leading `-` removed. */
  function SplitExclusions(keys: seq<string>): (r: (seq<string>, seq<string>))
    ensures |r.0| + |r.1| == |keys|
    decreases |keys|
  {
    if |keys| == 0 then ([], [])
    else
      var (must, mustNot) := SplitExclusions(keys[1..]);
      if StartsWith(keys[0], "-") then (must, [keys[0][1..]] + mustNot) else ([keys[0]] + must, mustNot)
  }

  /** `make_keyword_query`: the required words, then one clause excluding
      every excluded word. The exclusion clause is there even when nothing is
      excluded, and a query of exclusions only is accepted. */
  function MakeKeywordQuery(keyword: string, fold: CaseFold): (r: Result<Query, Fault>)
    ensures r.Err? ==> r.error == EmptyPhrase
    ensures r.Ok? ==> r.value.BooleanQuery? && |r.value.clauses| >= 1
    ensures r.Ok? ==>
      var last := r.value.clauses[|r.value.clauses| - 1];
      last.occur == MustNot && last.query.BooleanQuery?
    ensures r.Ok? ==> forall i :: 0 <= i < |r.value.clauses| - 1 ==> r.value.clauses[i].occur == Must
  {
    var (must, mustNot) := SplitExclusions(Split(keyword, Delimiter));
    var querys :- MakeSubqueries(must, fold);
    var excluded :- MakeSubqueries(mustNot, fold);
    Ok(BooleanQuery(querys + [Clause(MustNot, BooleanQuery(excluded))]))
  }

  /** A keyword piece that leaves a word with no tokens: an empty piece, or a
      bare `-`. */
  predicate VanishingPiece(piece: string)
  {
    piece == "" || piece == "-"
  }

  /** The split leaves an empty word exactly when some piece vanishes. */
  lemma {:induction false} SplitExclusionsEmpty(keys: seq<string>)
    ensures ("" in SplitExclusions(keys).0 || "" in SplitExclusions(keys).1)
        <==> exists i :: 0 <= i < |keys| && VanishingPiece(keys[i])
    decreases |keys|
  {
    if |keys| > 0 {
      SplitExclusionsEmpty(keys[1..]);
      assert forall i :: 0 < i < |keys| ==> keys[i] == keys[1..][i - 1];
      if exists i :: 0 <= i < |keys| && VanishingPiece(keys[i]) {
        var i :| 0 <= i < |keys| && VanishingPiece(keys[i]);
        if i > 0 {
          assert VanishingPiece(keys[1..][i - 1]);
        }
      }
      if StartsWith(keys[0], "-") {
        assert keys[0][1..] == "" <==> keys[0] == "-";
      }
    }
  }

  /** Does one of the comma-separated pieces of a keyword vanish? */
  predicate HasVanishingPiece(keyword: string)
  {
    exists i :: 0 <= i < |Split(keyword, Delimiter)| && VanishingPiece(Split(keyword, Delimiter)[i])
  }

  /** With a fold that erases nothing, the keyword query panics exactly when
      one of its comma-separated pieces is empty or a bare `-`: the empty
      keyword, `a,,b`, `a,` and `-` all do. */
  lemma KeywordQueryFails(keyword: string, fold: CaseFold)
    requires NonErasing(fold)
    ensures MakeKeywordQuery(keyword, fold).Err? <==> HasVanishingPiece(keyword)
  {
    var keys := Split(keyword, Delimiter);
    var (must, mustNot) := SplitExclusions(keys);
    assert MakeKeywordQuery(keyword, fold).Err? <==>
      MakeSubqueries(must, fold).Err? || MakeSubqueries(mustNot, fold).Err?;
    SubqueriesFail(must, fold);
    SubqueriesFail(mustNot, fold);
    SplitExclusionsEmpty(keys);
  }

  /** Words written as exclusions. */
  function Excluded(words: seq<string>): (r: seq<string>)
    ensures |r| == |words|
    decreases |words|
  {
    if |words| == 0 then [] else ["-" + words[0]] + Excluded(words[1..])
  }

  /** A piece that may stand as a required word. */
  predicate RequiredWord(w: string)
  {
    w != "" && Delimiter !in w && !StartsWith(w, "-")
  }

  lemma {:induction false} SplitExclusionsOf(required: seq<string>, excluded: seq<string>)
    requires forall i :: 0 <= i < |required| ==> !StartsWith(required[i], "-")
    ensures SplitExclusions(required + Excluded(excluded)) == (required, excluded)
    decreases |required| + |excluded|
  {
    if |required| > 0 {
      SplitExclusionsOf(required[1..], excluded);
      assert (required + Excluded(excluded))[1..] == required[1..] + Excluded(excluded);
      assert [required[0]] + required[1..] == required;
    } else if |excluded| > 0 {
      SplitExclusionsOf([], excluded[1..]);
      var e := "-" + excluded[0];
      assert required + Excluded(excluded) == [e] + Excluded(excluded[1..]);
      assert ([e] + Excluded(excluded[1..]))[1..] == Excluded(excluded[1..]);
      assert [] + Excluded(excluded[1..]) == Excluded(excluded[1..]);
      assert StartsWith(e, "-") && e[1..] == excluded[0];
      assert [excluded[0]] + excluded[1..] == excluded;
    } else {
      assert required + Excluded(excluded) == [];
    }
  }

  /** Required words followed by `-`-prefixed excluded words, comma-joined,
      give back exactly those two lists as the query's parts. */
  lemma KeywordQueryOf(required: seq<string>, excluded: seq<string>, fold: CaseFold)
    requires NonErasing(fold)
    requires |required| + |excluded| >= 1
    requires forall i :: 0 <= i < |required| ==> RequiredWord(required[i])
    requires forall i :: 0 <= i < |excluded| ==> excluded[i] != "" && Delimiter !in excluded[i]
    ensures && MakeSubqueries(required, fold).Ok? && MakeSubqueries(excluded, fold).Ok?
            && MakeKeywordQuery(Join(required + Excluded(excluded), Delimiter), fold)
               == Ok(BooleanQuery(MakeSubqueries(required, fold).value
                                  + [Clause(MustNot, BooleanQuery(MakeSubqueries(excluded, fold).value))]))
  {
    SubqueriesFail(required, fold);
    SubqueriesFail(excluded, fold);
    var pieces := required + Excluded(excluded);
    forall i | 0 <= i < |pieces| ensures Delimiter !in pieces[i] {
      if i >= |required| {
        ExcludedAt(excluded, i - |required|);
      }
    }
    JoinSplit(pieces, Delimiter);
    SplitExclusionsOf(required, excluded);
  }

  lemma {:induction false} ExcludedAt(words: seq<string>, i: nat)
    requires i < |words|
    ensures Excluded(words)[i] == "-" + words[i]
    decreases i
  {
    if i > 0 {
      ExcludedAt(words[1..], i - 1);
    }
  }

  // ---------------------------------------------------------------- dates

  /** `make_date_query`: the `~`-separated numbers, of which the first two
      bound the half-open range `[first, second)` on `date`. Every piece
      must be an `i64`, and there must be a second one. */
  function MakeDateQuery(dates: string, qVecs: seq<Query>): (r: Result<seq<Query>, Fault>)
    ensures r.Ok? <==> Count(dates, '~') >= 1 && forall i :: 0 <= i < |Split(dates, '~')| ==> ParseI64(Split(dates, '~')[i]).Some?
    ensures r.Ok? ==>
      (&& |r.value| == |qVecs| + 1 && qVecs <= r.value && |Split(dates, '~')| >= 2
       && var range := r.value[|qVecs|];
       && range.RangeQuery? && range.field == Date
       && Some(range.lo) == ParseI64(Split(dates, '~')[0]) && Some(range.hi) == ParseI64(Split(dates, '~')[1]))
  {
    SplitCount(dates, '~');
    var dts :- ParseEach(Split(dates, '~'), ParseI64);
    if |dts| < 2 then Err(MissingPiece) else Ok(qVecs + [RangeQuery(Date, dts[0], dts[1])])
  }

  lemma NoTildeInNumber(x: int)
    ensures '~' !in ShowSigned(x) && ShowSigned(x) != ""
  {
    if x < 0 {
      var s := Show(-x);
      assert forall i :: 0 <= i < |s| ==> s[i] != '~';
      assert ShowSigned(x) == "-" + s;
    } else {
      var s := Show(x);
      assert forall i :: 0 <= i < |s| ==> s[i] != '~';
    }
  }

  /** Two `i64` bounds written as `lo~hi` give the range `[lo, hi)`: a
      document dated `lo` matches, one dated `hi` does not. */
  lemma DateQueryOf(lo: int, hi: int, qVecs: seq<Query>)
    requires I64_MIN <= lo < I64_LIMIT && I64_MIN <= hi < I64_LIMIT
    ensures MakeDateQuery(ShowSigned(lo) + "~" + ShowSigned(hi), qVecs) == Ok(qVecs + [RangeQuery(Date, lo, hi)])
    ensures !InRange(RangeQuery(Date, lo, hi), hi) && (lo < hi ==> InRange(RangeQuery(Date, lo, hi), lo))
  {
    NoTildeInNumber(lo);
    NoTildeInNumber(hi);
    SplitTwo(ShowSigned(lo), ShowSigned(hi), '~');
    ParseI64Show(lo);
    ParseI64Show(hi);
    var pieces := Split(ShowSigned(lo) + "~" + ShowSigned(hi), '~');
    assert ShowSigned(lo) + "~" + ShowSigned(hi) == ShowSigned(lo) + ['~'] + ShowSigned(hi);
    var dts := ParseEach(pieces, ParseI64);
    assert dts.Ok? && dts.value == [lo, hi];
  }

  // ---------------------------------------------------------------- snippets

  /** How many characters of the stored text stand in for a snippet. */
  const FallbackChars: nat := 140

  /** `make_snippet_value`: the generator's HTML for the document when it has
      one and it is non-empty, else the first 140 characters of the stored
      text. The stored value must be text even when the generator answers. */
  function MakeSnippetValue<D>(gen: Option<D -> string>, doc: D, value: Value): (r: Result<string, Fault>)
    ensures r.Ok? <==> value.Str?
    ensures r.Ok? ==>
      if gen.Some? && gen.value(doc) != "" then r.value == gen.value(doc)
      else r.value <= value.s && |r.value| == if |value.s| < FallbackChars then |value.s| else FallbackChars
  {
    if value.Other? then Err(NotText)
    else
      var valueStr := TakeChars(value.s, FallbackChars);
      match gen
      case Some(spg) => var sp := spg(doc); Ok(if sp == "" then valueStr else sp)
      case None => Ok(valueStr)
  }

  /** A hit is never shown blank while its stored text has something to
      show. */
  lemma SnippetNeverBlank<D>(gen: Option<D -> string>, doc: D, value: Value)
    requires value.Str? && value.s != ""
    ensures MakeSnippetValue(gen, doc, value).value != ""
  {
  }

  // ---------------------------------------------------------------- paging

  /** `make_paginate("page-size")`: both numbers must be `usize`; the window
      is `size` hits after the first `(page - 1) * size`. */
  function MakePaginate(pages: string): (r: Result<TopDocs, Fault>)
    ensures var ps := Split(pages, '-');
      r.Ok? <==>
        && AllUsize(ps) && |ps| >= 2
        && PageWindow(ParseUsize(ps[0]).value, ParseUsize(ps[1]).value).Ok?
    ensures var ps := Split(pages, '-');
      AllUsize(ps) && |ps| >= 2 ==> r == PageWindow(ParseUsize(ps[0]).value, ParseUsize(ps[1]).value)
    ensures !AllUsize(Split(pages, '-')) ==> r == Err(BadNumber)
    ensures AllUsize(Split(pages, '-')) && '-' !in pages ==> r == Err(MissingPiece)
  {
    SplitWithout(pages, '-');
    var pgs :- ParseEach(Split(pages, '-'), ParseUsize);
    if |pgs| < 2 then Err(MissingPiece)
    else
      PageWindow(pgs[0], pgs[1])
  }

  /** Every piece parses as a `usize`. */
  predicate AllUsize(pieces: seq<string>)
  {
    forall i :: 0 <= i < |pieces| ==> ParseUsize(pieces[i]).Some?
  }

  lemma SplitWithout(s: string, d: char)
    ensures d !in s ==> Split(s, d) == [s]
  {
    if d !in s {
      SplitNoDelimiter(s, d);
    }
  }

  /** `page-size` written in decimal gives that page's window. */
  lemma PaginateOf(page: nat, size: nat)
    requires page < U64_LIMIT && size < U64_LIMIT
    ensures MakePaginate(Show(page) + "-" + Show(size)) == PageWindow(page, size)
  {
    NoDashInNumber(page);
    NoDashInNumber(size);
    SplitTwo(Show(page), Show(size), '-');
    assert Show(page) + "-" + Show(size) == Show(page) + ['-'] + Show(size);
    ParseUsizeShow(page);
    ParseUsizeShow(size);
    var pieces := Split(Show(page) + "-" + Show(size), '-');
    var pgs := ParseEach(pieces, ParseUsize);
    assert pgs.Ok? && pgs.value == [page, size];
  }
}
