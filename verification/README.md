# search-api, modelled in Dafny

search-api is a small full-text search service for a blog. It has the
following parts, and this project models the logic of each in Dafny:

- **Feed import**: the HTML character-reference decoder `decode_html_chars` of
  the feed-import module, with its 13-entry name table and binary search.
- **Tokenizer**: the mixed-script segmenter `cut_string`, the token stream the
  index store reads, and that stream's cursor.
- **Query builders**: two revisions of them, turning request parameters into a
  tree of term, phrase, range and boolean queries, a page window, and snippet
  text.
- **HTTP handler**: its request validators and the order in which `greet`
  assembles a search.
- **Local-socket protocol**: the request decoder `extract_params` and the
  response encoder `encode_result`.

Modelling conventions:

- **Panics are values.** A panic (`unwrap`, slice or index out of range,
  integer overflow in a debug build) is an `Err` or `Malformed` value.
- **Rust integer semantics are explicit.** `usize` is 64-bit. An `as u32`
  cast is written out as a truncation. `now as i64` is a two's-complement
  reinterpretation.
- **Standards.**
  - Strings are `seq<char>`, and their bytes are the UTF-8 form of section 3
    of RFC 3629.
  - Character references are those of section 13.5 of the HTML Living
    Standard, restricted to the service's own 13 names.
- **Parameters.** The following become parameters of the model:
  - the clock reading `now`;
  - the date parser (`chrono`'s `%Y-%m-%d`);
  - non-ASCII lower-casing (`CaseFold`);
  - the snippet generator.

Modules, one per file:

| module | file |
|---|---|
| `Wrappers` | `wrappers.dfy` |
| `Bytes` | `bytes.dfy` |
| `Utf8` | `utf8.dfy` |
| `Decimal` | `decimal.dfy` |
| `Text` | `text.dfy` |
| `Unescape` | `unescape.dfy` |
| `TokenStream` | `tokenstream.dfy` |
| `Segmentation` | `segmentation.dfy` |
| `ResponseFrame` | `encode.dfy` |
| `RequestFrame` | `decode.dfy` |
| `QueryTree` | `querytree.dfy` |
| `SearchQuery` | `search.dfy` |
| `SchemaQuery` | `schema.dfy` |
| `Server` | `server.dfy` |
| `Revisions` | `revisions.dfy` |

## Model

| member | source | states |
|---|---|---|
| Unescape.TableSorted | src/migrate/unescape.rs:9-23 | `HTML_CHARS` is strictly increasing by name in Rust's byte-wise `str` order, which is what `binary_search_by` requires |
| Unescape.BinarySearchFinds | src/migrate/unescape.rs:49-58 | on a strictly sorted table the binary search finds nothing exactly when no entry in the searched range has the name, and otherwise returns that entry's character |
| Unescape.FindFinds | src/migrate/unescape.rs:49-58 | the linear reference lookup returns the character of the entry named by the key, and `None` exactly when no entry has that name |
| Unescape.DoMatchIsFind | src/migrate/unescape.rs:49-58 | `do_match`'s binary search over `HTML_CHARS` always agrees with the linear reference lookup |
| Unescape.RunAppend | src/migrate/unescape.rs:60-91 | the decoder is a left fold over characters: running it on `a + b` is running it on `a`, then on `b` from the state reached |
| Unescape.RunKeepsInv | src/migrate/unescape.rs:60-91 | from any state with at most 7 buffered characters, all ASCII while escaping, the decoder never leaves such states: the buffer never outgrows its capacity of 8 |
| Unescape.RunWithoutAmpersand | src/migrate/unescape.rs:63-88 | in normal mode, text without `&` is appended to the output character for character |
| Unescape.DecodeWithoutAmpersand | src/migrate/unescape.rs:93-99 | `decode_html_chars` is the identity on text without `&` |
| Unescape.RunBuffers | src/migrate/unescape.rs:83 | inside an escape, ASCII characters other than `;` go into the buffer while it has room, and nothing is written |
| Unescape.RunOpensEscape | src/migrate/unescape.rs:65-68 | `&` opens an escape with an empty buffer, and the name that follows is buffered |
| Unescape.NamedReference | src/migrate/unescape.rs:69-76 | `&name;` writes the table's character for `name`, writes nothing for an unknown name, and returns to normal mode with an empty buffer |
| Unescape.TableReference | src/migrate/unescape.rs:69-76 | each of the 13 table entries written as `&name;` decodes to exactly its character |
| Unescape.BufferOverflow | src/migrate/unescape.rs:77-82 | a buffer full at 7 characters, followed by any character but `;`, is flushed verbatim without its `&`, followed by that character |
| Unescape.MultiByteAborts | src/migrate/unescape.rs:84-87 | a multi-byte character inside an escape ends it: that character is written, and the `&` and the buffered name are lost |
| Unescape.UnterminatedDropped | src/migrate/unescape.rs:60-91 | an escape still open at the end of the input writes nothing, because there is no flush after the loop |
| Unescape.RunNeverGrows | src/migrate/unescape.rs:60-91 | characters written plus characters still pending never exceed the characters consumed |
| Unescape.DecodeNeverGrows | src/migrate/unescape.rs:93-99 | the decoded text never has more characters than the HTML it came from |
| Segmentation.CutStringLoop | src/tokenizer/segmentation.rs:8-36 | the two nested loops of `cut_string`, with character and byte cursors, produce exactly the recursive segmentation `CutString` |
| Segmentation.NextToken | src/tokenizer/segmentation.rs:14-30 | one outer iteration moves the character cursor past one token (a maximal letter run or a single other character), and the byte cursor stays the UTF-8 length of the text before it |
| Segmentation.AlphaRun | src/tokenizer/segmentation.rs:21-30 | the inner loop's run is the longest prefix of ASCII letters: all of its characters are letters, and the next one is not |
| Segmentation.CutStringConcat | src/tokenizer/segmentation.rs:8-36 | the tokens concatenate back to the text: nothing is lost, duplicated or reordered |
| Segmentation.CutStringSegments | src/tokenizer/segmentation.rs:13-34 | every token is non-empty and is either a run of ASCII letters or a single other character, and no two letter runs are adjacent |
| Segmentation.SegmentationUnique | src/tokenizer/segmentation.rs:8-36 | any well-formed segmentation of a text is `cut_string`'s, so the two properties above characterise it |
| Segmentation.CutStringHead | src/tokenizer/segmentation.rs:13-31 | a non-empty text has a first token, and it starts with the text's first character |
| Segmentation.CutStringCount | src/tokenizer/segmentation.rs:13-34 | there are never more tokens than characters |
| Segmentation.CutStringAllLetters | src/tokenizer/segmentation.rs:13-34 | an empty text has no tokens, and a text of ASCII letters only is a single token |
| Segmentation.TokensFromSpec | src/tokenizer/segmentation.rs:41-54 | token `i` starts at the byte length of the words before it, spans its word's byte length (as both `offset_to - offset_from` and `position_length`), has `position == offset_from`, and holds the word lower-cased |
| Segmentation.TokenStreamTokens | src/tokenizer/segmentation.rs:39-56 | `token_stream` yields one token per `cut_string` word, in order, with the cursor at 0 |
| Segmentation.TokenStreamOffsets | src/tokenizer/segmentation.rs:41-54 | the first token starts at byte 0, each token starts where the previous one ends, and the last one ends at the text's byte length |
| TokenStream.Advance | src/tokenizer/tokenstream.rs:9-16 | `advance` returns true exactly when a token remains, and moves the cursor by one then and only then; it keeps the cursor within the tokens and never changes them |
| TokenStream.AdvanceTimesSpec | src/tokenizer/tokenstream.rs:9-16 | from a valid cursor, successive calls return true exactly while tokens remain, then false forever, and the cursor stops at the end |
| TokenStream.FreshStreamYields | src/tokenizer/tokenstream.rs:9-20 | on a fresh stream, after `k` successful calls `token()` is the `k`-th token, so the stream yields its tokens in order |
| TokenStream.Current | src/tokenizer/tokenstream.rs:18-20 | `token()` is defined exactly when `1 <= offset <= len`, and returns a token of the stream; outside that range the source panics |
| TokenStream.SetCurrent | src/tokenizer/tokenstream.rs:22-24 | a write through `token_mut()` replaces exactly the current token and leaves the cursor and every other token unchanged |
| ResponseFrame.EncodeResult | src/ipc/encode.rs:1-8 | encoding fails exactly when the truncated length plus 5 overflows `u32`; otherwise the frame is 9 header bytes plus the UTF-8 payload, bytes 0-3 hold the truncated length plus 5, byte 4 is 0, and bytes 5-8 hold the truncated length |
| ResponseFrame.ResponseRoundTrip | src/ipc/encode.rs:1-8 | every response shorter than `2^32 - 5` bytes is recovered exactly by the frame reader |
| ResponseFrame.ResponseFrameUnique | src/ipc/encode.rs:1-8 | every frame the reader accepts is exactly the encoding of the string it reads, so encoder and reader are mutually inverse |
| ResponseFrame.TruncatedLength | src/ipc/encode.rs:3 | a payload of `2^32 + 3` bytes is framed with an inner length of 3, because `as u32` wraps |
| RequestFrame.Slice | src/ipc/decode.rs:13-15 | `&raw[from..to]` succeeds exactly when `from <= to <= len` and yields those bytes; otherwise it panics |
| RequestFrame.ListBody | src/ipc/decode.rs:48-53 | a list opening succeeds exactly when its 8-byte length field and that many body bytes exist, and yields the body |
| RequestFrame.ExtractStringSpec | src/ipc/decode.rs:11-22 | `extract_string` succeeds exactly when the length field and the bytes it counts exist and are well-formed UTF-8; the string then has that many UTF-8 bytes, encodes to them, and the next offset skips one trailing byte |
| RequestFrame.DecodedString | src/ipc/decode.rs:17-19 | a string accepted by `from_utf8` has exactly its input bytes as its encoding |
| RequestFrame.ExtractInteger | src/ipc/decode.rs:24-31 | `extract_integer` succeeds exactly when 19 bytes remain, reads the big-endian `i64` of bytes 11-18 of the element (its own length field is skipped), and returns the offset just past them |
| RequestFrame.IntegerLoop | src/ipc/decode.rs:54-59 | the loop succeeds exactly when the remaining body is a whole number of 19-byte elements; integer `i` is read from its slot, and the loop ends at the body's end |
| RequestFrame.ExtractIntegerList | src/ipc/decode.rs:48-63 | the list succeeds exactly when its length field and body exist and the body length is a multiple of 19; it yields one integer per element, in order, and returns the offset past the body |
| RequestFrame.StringLoop | src/ipc/decode.rs:39-44 | the loop, when it finishes, stops at or past the end of the body, and on an exhausted body reads nothing |
| RequestFrame.ExtractStringList | src/ipc/decode.rs:33-46 | a successful string list had its length field and body present, and its returned offset is at or past the body's end |
| RequestFrame.DecodeParams | src/ipc/decode.rs:65-81 | end of stream is signalled exactly for a zero length, and a decoded request needs at least 44 bytes (four list openings) |
| RequestFrame.ExtractParams | src/ipc/decode.rs:65-81 | `extract_params` as written returns `Err(())` exactly for an empty payload |
| RequestFrame.ExtractParamsFixed | src/ipc/decode.rs:65-81 | the decoder with the corrected string-list step also returns `Err(())` exactly for an empty payload |
| RequestFrame.ListLayout | src/ipc/decode.rs:48-53 | an encoded list's length field holds its body's length, and the opening yields that body |
| RequestFrame.ExtractStringAt | src/ipc/decode.rs:11-22 | an encoded string element reads back as its string, wherever it sits, and the next offset is just past it |
| RequestFrame.ExtractIntegerAt | src/ipc/decode.rs:24-31 | an encoded `i64` element reads back as its integer, and the next offset is 19 bytes on |
| RequestFrame.IntegerLoopOfEncoding | src/ipc/decode.rs:54-59 | the integer loop reads back every integer of an encoded body and stops at its end |
| RequestFrame.StringLoopOfEncoding | src/ipc/decode.rs:39-44 | with the corrected step, the string loop reads back every string of an encoded body and stops at its end |
| RequestFrame.LoopOfEncoding | src/ipc/decode.rs:39-44 | both steps read back an encoded body (the step as written for at most two strings), ending past the body by the overshoot the step as written adds |
| RequestFrame.IntegerListAt | src/ipc/decode.rs:48-63 | an encoded integer list reads back, and the next list starts right after it |
| RequestFrame.StringListAt | src/ipc/decode.rs:33-46 | an encoded string list reads back: always with the corrected step, and for at most two strings as written, returning the end offset shifted by the overshoot |
| RequestFrame.RequestRoundTrip | src/ipc/decode.rs:65-81 | the corrected decoder reads back every request the encoder writes: pages, range, terms and keywords |
| RequestFrame.AsWrittenShortLists | src/ipc/decode.rs:65-81 | the decoder as written still reads back every request with at most one term and at most two keywords |
| RequestFrame.TwoTermsOverrun | src/ipc/decode.rs:43 | with two terms and no keywords, the decoder as written panics with an out-of-range slice, while the corrected decoder returns the request |
| RequestFrame.FieldPastEnd | src/ipc/decode.rs:36 | a string list started fewer than 11 bytes before the end of the payload panics on its length field |
| RequestFrame.RequestParts | src/ipc/decode.rs:75-80 | either decoder reads each encoded list in turn from where the previous one ended (the decoder as written for short lists) |
| RequestFrame.DecodeParamsFails | src/ipc/decode.rs:75-80 | a failing keyword list makes the whole frame malformed, with that list's fault |
| RequestFrame.DecodeParamsOf | src/ipc/decode.rs:75-80 | four lists read in turn, each from the offset the previous one returned, make up the request |
| QueryTree.BoolQueryKeepsQueries | src/search/query.rs:190-197 | `make_bool_query` keeps every sub-query in order and makes each clause required |
| QueryTree.MakeBoolQuery | src/query/query_schema.rs:126-133 | the combined query has one clause per sub-query |
| QueryTree.TermFilter | src/search/query.rs:43-54 | a `prefix:value` piece fails only for want of a value (`p[1]`), and any query it adds is a basic term query on `tags` or `category` |
| QueryTree.TermFilterFails | src/search/query.rs:43-46 | a filter panics exactly when it is a bare `tags` or `category` prefix without `:` (`p[1]` out of range) |
| QueryTree.TermFilterOfShow | src/search/query.rs:43-52 | a written `tags:v` or `category:v` filter reads back as the term query it stands for, even when `v` contains `:` |
| QueryTree.TermFilterIgnores | src/search/query.rs:53 | a piece whose text before the first `:` is neither prefix adds nothing |
| QueryTree.TermQueries | src/query/query_schema.rs:47-60 | the filter loop fails exactly when some piece is a bare prefix, and adds at most one query per piece |
| QueryTree.FilterTerms | src/query/query_schema.rs:42-62 | `make_terms_query` keeps the queries already collected as a prefix, and fails exactly on a bare prefix |
| QueryTree.TermQueriesOfShow | src/query/query_schema.rs:47-60 | written filters turn into their term queries, one for one and in order |
| QueryTree.FilterTermsOfShow | src/query/query_schema.rs:42-62 | written filters' queries land after the queries already collected |
| QueryTree.PageWindow | src/search/query.rs:187 | `with_limit(size).and_offset((page - 1) * size)` succeeds exactly when `page >= 1` and the offset fits a `usize`; page 0 underflows |
| QueryTree.PagesTile | src/search/query.rs:187 | page 1 starts at hit 0, and page `p + 1` starts exactly where page `p` ends, so pages tile the ranking |
| QueryTree.PageOfWindow | src/search/query.rs:187 | for a non-zero size the page is recovered from the window: offset divided by limit, plus one, with no remainder |
| QueryTree.ParseEach | src/search/query.rs:181-184 | `map(parse().unwrap()).collect()` panics exactly when some piece does not parse, and otherwise yields every piece's value in order |
| SearchQuery.MakeTermsQuery | src/search/query.rs:37-57 | the comma-separated filter list panics exactly when a piece is a bare prefix, and otherwise extends the collected queries |
| SearchQuery.TermsQueryOfFilters | src/search/query.rs:37-57 | filters written out and comma-joined become their term queries, in order, after the queries already collected |
| SearchQuery.NoFilters | src/search/query.rs:42-56 | an empty filter string adds no query |
| SearchQuery.MakeFieldSearch | src/search/query.rs:59-85 | a word is a boolean of a content clause and a title clause, both with the caller's occurrence; the empty word, and only it, reaches the phrase constructor with no terms and panics |
| SearchQuery.FieldSearchTerm | src/search/query.rs:63-71 | a word the segmenter leaves whole (one letter run, or one other character) is a positional term query on content and on title |
| SearchQuery.FieldSearchPhrase | src/search/query.rs:72-83 | a word of two or more tokens is a phrase on each field: the same tokens at the same offsets on both, gluing back to the word |
| SearchQuery.PhraseTermsAt | src/search/query.rs:73-80 | phrase word `i` sits at the byte length of the words before it |
| SearchQuery.PhraseOffsets | src/search/query.rs:73-80 | phrase offsets start at 0 and grow strictly, and the last word ends at the byte length of the whole word |
| SearchQuery.MakeSubqueries | src/search/query.rs:87-96 | `make_subqueries` panics exactly when some word lower-cases to nothing; otherwise it makes one required clause per word, in order, searching the lower-cased word on both fields with `Should` |
| SearchQuery.SubqueriesFail | src/search/query.rs:87-96 | when lower-casing erases no character, the subqueries panic exactly when one of the words is empty |
| SearchQuery.SplitExclusions | src/search/query.rs:111-118 | every keyword piece goes to exactly one of the two lists |
| SearchQuery.SplitExclusionsEmpty | src/search/query.rs:111-118 | the split yields an empty word exactly when some piece is empty or a bare `-` |
| SearchQuery.SplitExclusionsOf | src/search/query.rs:111-118 | required words followed by `-`-prefixed words split back into exactly those words, with the `-` removed |
| SearchQuery.MakeKeywordQuery | src/search/query.rs:110-124 | a successful keyword query ends with one `MustNot` clause (present even when nothing is excluded), preceded by required clauses only; the only failure is the empty-phrase panic |
| SearchQuery.KeywordQueryFails | src/search/query.rs:110-124 | when lower-casing erases no character, the keyword query panics exactly when one of its comma-separated pieces is empty or a bare `-`, as for the empty keyword, `a,,b`, `a,` and `-` |
| SearchQuery.KeywordQueryOf | src/search/query.rs:110-124 | non-empty, comma-free required and excluded words, comma-joined, do not panic and yield exactly the required words' subqueries, followed by one `MustNot` clause over the excluded words' subqueries |
| SearchQuery.MakeDateQuery | src/search/query.rs:130-142 | the date list succeeds exactly when it has a `~` and every piece parses as an `i64`; it appends one half-open range on `date`, from the first number to the second |
| SearchQuery.DateQueryOf | src/search/query.rs:130-142 | `lo~hi` gives the range `[lo, hi)`: a document dated `lo` matches and one dated `hi` does not |
| SearchQuery.MakeSnippetValue | src/search/query.rs:154-178 | the stored value must be text even when a generator answers; the result is the generator's non-empty HTML, or else the first 140 characters of the text |
| SearchQuery.SnippetNeverBlank | src/search/query.rs:167-177 | a hit whose stored text is non-empty is never shown with a blank snippet |
| SearchQuery.MakePaginate | src/search/query.rs:180-188 | the window is built exactly when every `-` piece parses as a `usize` (so `1-10-x` panics), there are at least two, and the first two give a valid window, which is then the result; a bad piece panics on its `unwrap` and a string without `-` on `pgs[1]` |
| SearchQuery.PaginateOf | src/search/query.rs:180-188 | `page-size` written in decimal gives exactly that page's window |
| SchemaQuery.MakeKeywordQuery | src/query/query_schema.rs:64-69 | the keyword is to be used exactly when it is non-empty, and is handed to the query parser whole |
| SchemaQuery.KeywordUntouched | src/query/query_schema.rs:64-69 | different keywords are never handed to the parser as the same text, and an unused keyword is the empty one |
| SchemaQuery.NowAsI64 | src/query/query_schema.rs:82 | `now as i64` is a valid `i64`, congruent to `now` modulo `2^64` |
| SchemaQuery.MakeDateQuery | src/query/query_schema.rs:71-89 | a range on `date` is appended exactly when the list is a pair with at least one bound; otherwise the queries are unchanged |
| SchemaQuery.DateQueryBounds | src/query/query_schema.rs:80-87 | the range runs from the start (or 0) up to, but excluding, the stop (or the current time) |
| SchemaQuery.MakeSnippetValue | src/query/query_schema.rs:101-114 | with a generator the snippet is its HTML, whatever it is; without one it is the text's prefix of exactly min(140, length) characters, and a non-text value panics |
| SchemaQuery.MakePaginate | src/query/query_schema.rs:116-124 | no pages gives the single best hit; one page number panics on `pages[1]`; otherwise the window of the pair |
| Server.ValidateTerms | src/main.rs:47-54 | the terms are the parameter split on single spaces, one more piece than there are spaces, and they join back to the parameter |
| Server.TermsOfWords | src/main.rs:47-54 | space-free terms joined by spaces come back one for one |
| Server.RangeBound | src/main.rs:70-78 | an empty side is an open bound; any other side must parse as a date, which becomes the bound, or the whole value is rejected |
| Server.ValidateRange | src/main.rs:56-81 | a range is accepted exactly when it has one `~` and each side is empty or a date; each side of an accepted range is `None` when empty and its parsed timestamp otherwise; the rejection names the value and "ISO 8601 date format" |
| Server.RangeOfBounds | src/main.rs:56-81 | two optional bounds, each written by a date printer the parser inverts on that bound (as midnight bounds are for a midnight-timestamp parser), read back as the same pair |
| Server.ValidatePages | src/main.rs:83-104 | pages are accepted exactly when there is one `-` and both sides parse as `usize`, giving those two numbers; the rejection says "invalid format" |
| Server.PagesOf | src/main.rs:83-104 | `page-size` in decimal reads back as the pair |
| Server.DecodeThing | src/main.rs:21-31 | a request is rejected exactly when a present `range` or `pages` fails its validator, with the first rejection in field order; otherwise each present parameter is its validator's result and each absent one its empty default |
| Server.ThingOfParameters | src/main.rs:21-104 | parameters written from values, each present or absent, decode back to those values, with empty defaults for the absent ones |
| Server.Greet | src/main.rs:106-136 | `greet` fails only on a bare filter or a bad page window, and it builds both snippet generators exactly for a non-empty keyword |
| Server.GreetClauses | src/main.rs:112-119 | the combined query requires, in this order, the keyword query (for a non-empty keyword), each filter's term query, and the date range |
| Server.ValidatedGreet | src/main.rs:112-124 | for validated parameters, within the model, the only failures left are a bare filter, page 0 and an offset beyond `usize` (the store's own panic on limit 0 is outside the model) |
| Revisions.SnippetRevisions | src/search/query.rs:154-178 | both revisions agree on text values except when the generator returns empty HTML, where only the current one falls back to the text; on a non-text value only the current one panics |
| Revisions.PaginateRevisions | src/search/query.rs:180-188 | for every `pages` string the earlier validator accepts, the current builder's window is the earlier builder's window of the validated pair |
| Revisions.DateRevisions | src/search/query.rs:130-142 | two `i64` bounds `lo~hi` give the current builder the same range the earlier one builds from the closed pair |
| Text.SplitJoin | src/main.rs:52 | joining the pieces of `split` with the delimiter gives the original string |
| Text.JoinSplit | src/main.rs:52 | splitting delimiter-free pieces joined by the delimiter gives the pieces back |
| Text.SplitCount | src/main.rs:61 | `split` gives one more piece than there are delimiters |
| Text.SplitOnceSpec | src/search/query.rs:43 | `splitn(2, ":")` gives the text before the first `:` and, when there is one, everything after it, and together they rebuild the piece |
| Text.LowercaseEmpty | src/search/query.rs:93 | when lower-casing erases no character, `to_lowercase` gives the empty string exactly for the empty string |
| Text.LowercaseAscii | src/search/query.rs:93 | on ASCII text, `to_lowercase` keeps the length, shifts exactly `A`-`Z` down to `a`-`z`, and leaves every other character |
| Decimal.ParseUsizeShow | src/search/query.rs:183 | every `usize` printed in decimal parses back to itself |
| Decimal.ParseI64Show | src/search/query.rs:137 | every `i64` printed in decimal parses back to itself |
| Utf8.DecodeEncode | src/ipc/decode.rs:17-19 | `from_utf8` accepts the UTF-8 encoding of every string and returns that string |
| Utf8.EncodeDecode | src/ipc/decode.rs:17-19 | every byte sequence `from_utf8` accepts is the encoding of the string it returns |
| Bytes.BeNatOfBeBytes | src/ipc/decode.rs:14 | a length written in 8 big-endian bytes reads back unchanged with `from_be_bytes` |
| Bytes.I64RoundTrip | src/ipc/decode.rs:28 | `i64::from_be_bytes` inverts `to_be_bytes` on every `i64` |

## Left out

- Socket I/O is not modelled. This covers `extract_length` (src/ipc/decode.rs:5-9) and the payload read at src/ipc/decode.rs:72-73. The model decodes a payload already in memory whose length is the one that was read, and it ignores partial reads.
- src/ipc/callee.rs, an earlier request decoder with 4-byte length fields, is superseded by src/ipc/decode.rs and is not modelled.
- The index store's internals are outside the model. These are query parsing (`parse_query(...).unwrap()` at src/query/query_schema.rs:66 is taken to succeed), search execution, and snippet-generator creation with its 300/380 character limits. A `TopDocs` with limit 0 is also not modelled: the store rejects it, and that check is its own.
- Feed fetching, index initialisation, scheduling, configuration, document insertion and the command-line tool are not part of this model. These are src/migrate/fetch.rs, init.rs and scheduled.rs, src/config, src/insert and src/tool.rs.
- HTTP routing and query-string deserialisation belong to the web framework, so they are not modelled. Server.DecodeThing reports the first rejection in field order, whereas the deserialiser follows the order of the query string. Duplicate parameters are not modelled either.
- Serving the results (src/main.rs:120-183) is left out. That covers running the search, fetching stored documents and building the JSON response.
- Text.LowerChar: lower-casing outside ASCII is the uninterpreted `CaseFold` parameter. Unicode case tables and the context-dependent final-sigma rule are not modelled. Where a property needs it, the fold is required to map every character to at least one character (`NonErasing`), as Rust's `to_lowercase` does.
- Server.RangeBound: `chrono`'s `%Y-%m-%d` parse and the midnight timestamp are the `DateParser` parameter.
- RequestFrame.ExtractParams: an offset overflowing `usize` is not modelled. Offsets are unbounded naturals, and in the source such a sum could only come from a length field near `2^64`, which then panics, either on the overflowing add (debug) or on the slice bound (release).
- RequestFrame.ExtractStringList: the capacity byte read at src/ipc/decode.rs:35 is only an allocation hint, so it is not modelled. The header bytes are never inspected. Whenever that read would panic, the length-field slice right after it panics too, with the same out-of-range fault.
- `println!` calls (src/ipc/decode.rs:60-61, 74) are not modelled.
- RequestFrame.StringLoop and RequestFrame.ExtractStringList state only bounds. The exact results are stated by StringLoopOfEncoding, LoopOfEncoding and StringListAt for encoded inputs.
- The model keeps these behaviours of the code:
  - keyword queries of exclusions only are accepted;
  - list lengths are 8 bytes;
  - date ranges are half-open;
  - empty keyword pieces are not filtered out, so an empty piece or a bare `-` makes the phrase constructor panic (SearchQuery.KeywordQueryFails).

## Findings

| source | as written | input that shows it | evidently intended | confidence | as-written member | corrected member |
|---|---|---|---|---|---|---|
| src/ipc/decode.rs:43 | `sub_offset += r.1` adds the absolute offset `extract_string` returns to the cursor | a request whose terms list holds two strings and whose keyword list is empty: the second string is read, then the cursor is the sum of both ends, so the keyword reader starts past the end of the payload and its slice panics | `sub_offset = r.1`, as in extract_integer_list at src/ipc/decode.rs:58 | not executed | RequestFrame.TwoTermsOverrun | RequestFrame.RequestRoundTrip |
