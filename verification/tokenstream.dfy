/** `UTF8TokenStream`: a vector of tokens and a cursor. `advance` moves the
    cursor one token forward while tokens remain; `token` / `token_mut` give
    the token the last successful `advance` moved past. */
module TokenStream {
  import opened Wrappers

  /** The token record of the index store's tokenizer interface. Offsets and
      lengths are in bytes of the UTF-8 text. */
  datatype Token = Token(offsetFrom: nat, offsetTo: nat, position: nat, text: string, positionLength: nat)

  datatype Stream = Stream(tokens: seq<Token>, offset: nat)

  /** The cursor never runs past the end of the tokens. */
  predicate Valid(s: Stream)
  {
    s.offset <= |s.tokens|
  }

  /** `advance`: the stream after the call and the value it returns. */
  function Advance(s: Stream): (r: (Stream, bool))
    ensures Valid(s) ==> Valid(r.0)
    ensures r.0.tokens == s.tokens
    ensures r.1 <==> s.offset < |s.tokens|
    ensures r.0.offset == if r.1 then s.offset + 1 else s.offset
  {
    if s.offset < |s.tokens| then (s.(offset := s.offset + 1), true) else (s, false)
  }

  /** `n` calls of `advance` in a row: the final stream and the values the
      calls returned, in order. */
  function AdvanceTimes(s: Stream, n: nat): (Stream, seq<bool>)
    decreases n
  {
    if n == 0 then (s, [])
    else
      var (s1, b) := Advance(s);
      var (s2, bs) := AdvanceTimes(s1, n - 1);
      (s2, [b] + bs)
  }

  /** `token`: `tokens[offset - 1]`; `None` where the source panics (a cursor
      still at 0, or one past the end). */
  function Current(s: Stream): (r: Option<Token>)
    ensures r.Some? <==> 1 <= s.offset <= |s.tokens|
    ensures r.Some? ==> r.value in s.tokens
  {
    if 1 <= s.offset <= |s.tokens| then Some(s.tokens[s.offset - 1]) else None
  }

  /** `token_mut` followed by a write through the returned reference. */
  function SetCurrent(s: Stream, t: Token): (r: Option<Stream>)
    ensures r.Some? <==> 1 <= s.offset <= |s.tokens|
    ensures r.Some? ==> r.value.offset == s.offset && |r.value.tokens| == |s.tokens|
    ensures r.Some? ==> Current(r.value) == Some(t)
    ensures r.Some? ==> forall i :: 0 <= i < |s.tokens| && i != s.offset - 1 ==> r.value.tokens[i] == s.tokens[i]
  {
    if 1 <= s.offset <= |s.tokens| then Some(s.(tokens := s.tokens[s.offset - 1 := t])) else None
  }

  /** From a valid cursor, calls return `true` exactly while tokens remain,
      then `false` forever; the cursor stops at the end and the tokens are
      never changed. */
  lemma {:induction false} AdvanceTimesSpec(s: Stream, n: nat)
    requires Valid(s)
    ensures |AdvanceTimes(s, n).1| == n
    ensures forall i :: 0 <= i < n ==> (AdvanceTimes(s, n).1[i] <==> s.offset + i < |s.tokens|)
    ensures AdvanceTimes(s, n).0.tokens == s.tokens
    ensures AdvanceTimes(s, n).0.offset == if s.offset + n <= |s.tokens| then s.offset + n else |s.tokens|
    decreases n
  {
    if n > 0 {
      var (s1, b) := Advance(s);
      AdvanceTimesSpec(s1, n - 1);
      var bs := AdvanceTimes(s1, n - 1).1;
      assert AdvanceTimes(s, n).1 == [b] + bs;
      forall i | 1 <= i < n
        ensures (AdvanceTimes(s, n).1[i] <==> s.offset + i < |s.tokens|)
      {
        assert AdvanceTimes(s, n).1[i] == bs[i - 1];
      }
    }
  }

  /** A fresh stream yields its tokens in order: after `k` successful calls
      of `advance`, `token` is the `k`-th token. */
  lemma FreshStreamYields(tokens: seq<Token>, k: nat)
    requires 1 <= k <= |tokens|
    ensures Current(AdvanceTimes(Stream(tokens, 0), k).0) == Some(tokens[k - 1])
  {
    AdvanceTimesSpec(Stream(tokens, 0), k);
  }
}
