/** How the two revisions of the query builder relate: where the current
    one, which parses its parameters itself, agrees with the earlier one fed
    by the request validators, and where the two differ. */
module Revisions {
  import opened Wrappers
  import opened Text
  import opened Bytes
  import opened Decimal
  import opened QueryTree
  import SearchQuery
  import SchemaQuery
  import Server

  /** The snippet fallback is what changed: both revisions show the
      generator's non-empty HTML or, without a generator, the first 140
      characters; on empty HTML only the current one falls back to the text,
      and it alone insists on a text value when a generator answers. */
  lemma SnippetRevisions<D>(gen: Option<D -> string>, doc: D, value: Value)
    ensures value.Str? && (gen.None? || gen.value(doc) != "") ==>
      SearchQuery.MakeSnippetValue(gen, doc, value) == SchemaQuery.MakeSnippetValue(gen, doc, value)
    ensures value.Str? && gen.Some? && gen.value(doc) == "" ==>
      && SchemaQuery.MakeSnippetValue(gen, doc, value) == Ok("")
      && SearchQuery.MakeSnippetValue(gen, doc, value) == Ok(TakeChars(value.s, SearchQuery.FallbackChars))
    ensures value.Other? && gen.Some? ==>
      && SchemaQuery.MakeSnippetValue(gen, doc, value) == Ok(gen.value(doc))
      && SearchQuery.MakeSnippetValue(gen, doc, value) == Err(NotText)
  {
  }

  /** For every `pages` string the earlier validator accepts, the current
      builder's window is the earlier builder's window of the validated
      pair. */
  lemma PaginateRevisions(pages: string)
    requires Server.ValidatePages(pages).Ok?
    ensures SearchQuery.MakePaginate(pages) == SchemaQuery.MakePaginate(Server.ValidatePages(pages).value)
  {
    var pair := Server.ValidatePages(pages).value;
    var pieces := Split(pages, '-');
    var pgs := ParseEach(pieces, ParseUsize);
    assert pgs.Ok? && pgs.value == pair by {
      assert forall i :: 0 <= i < |pieces| ==> ParseUsize(pieces[i]).Some? by {
        forall i | 0 <= i < |pieces| ensures ParseUsize(pieces[i]).Some? {
          assert i == 0 || i == 1;
        }
      }
    }
  }

  /** Two `i64` dates written `lo~hi` give the current builder the same
      range the earlier one builds from the closed pair. */
  lemma DateRevisions(lo: int, hi: int, now: nat, qVecs: seq<Query>)
    requires I64_MIN <= lo < I64_LIMIT && I64_MIN <= hi < I64_LIMIT && now < U64_LIMIT
    ensures SearchQuery.MakeDateQuery(ShowSigned(lo) + "~" + ShowSigned(hi), qVecs)
         == Ok(SchemaQuery.MakeDateQuery([Some(lo), Some(hi)], now, qVecs))
  {
    SearchQuery.DateQueryOf(lo, hi, qVecs);
  }
}
