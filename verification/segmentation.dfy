/** The mixed-script segmenter: maximal runs of ASCII letters become one
    token each, every other character (space, punctuation, each CJK
    character) is a token of its own. `TokenStreamOf` attaches the byte
    offsets the index store needs for phrase matching. */
module Segmentation {
  import opened Text
  import opened Utf8
  import opened TokenStream

  /** Length of the run of ASCII letters at the front of `t`. */
  function AlphaRun(t: string): (k: nat)
    ensures k <= |t|
    ensures forall i :: 0 <= i < k ==> IsAsciiAlpha(t[i])
    ensures k < |t| ==> !IsAsciiAlpha(t[k])
    decreases |t|
  {
    if |t| == 0 || !IsAsciiAlpha(t[0]) then 0 else 1 + AlphaRun(t[1..])
  }

  /** `cut_string`. */
  function CutString(text: string): seq<string>
    decreases |text|
  {
    if |text| == 0 then []
    else if !IsAsciiAlpha(text[0]) then [text[..1]] + CutString(text[1..])
    else
      var k := AlphaRun(text);
      [text[..k]] + CutString(text[k..])
  }

  function Concat(words: seq<string>): string
    decreases |words|
  {
    if |words| == 0 then "" else words[0] + Concat(words[1..])
  }

  /** A non-empty run of ASCII letters. */
  predicate IsWord(w: string)
  {
    |w| >= 1 && forall i :: 0 <= i < |w| ==> IsAsciiAlpha(w[i])
  }

  /** What a token of `cut_string` looks like: a letter run, or a single
      character that is not an ASCII letter. */
  predicate IsSegment(w: string)
  {
    IsWord(w) || (|w| == 1 && !IsAsciiAlpha(w[0]))
  }

  /** A segmentation of some text: well-formed tokens, no two letter runs
      side by side. */
  predicate IsSegmentation(words: seq<string>)
  {
    && (forall i :: 0 <= i < |words| ==> IsSegment(words[i]))
    && (forall i :: 0 <= i < |words| - 1 ==> !(IsWord(words[i]) && IsWord(words[i + 1])))
  }

  lemma {:induction false} ConcatAppend(a: seq<string>, b: seq<string>)
    ensures Concat(a + b) == Concat(a) + Concat(b)
    decreases |a|
  {
    if |a| == 0 {
      assert a + b == b;
    } else {
      ConcatAppend(a[1..], b);
      assert (a + b)[1..] == a[1..] + b;
    }
  }

  /** The tokens glue back to the text: nothing is lost, reordered or
      duplicated, and a letter run at the very end is still emitted. */
  lemma {:induction false} CutStringConcat(text: string)
    ensures Concat(CutString(text)) == text
    decreases |text|
  {
    if |text| > 0 {
      var k := if IsAsciiAlpha(text[0]) then AlphaRun(text) else 1;
      CutStringConcat(text[k..]);
      assert text[..k] + text[k..] == text;
    }
  }

  /** Every token is a letter run or a single other character, and letter
      runs are maximal. */
  lemma {:induction false} CutStringSegments(text: string)
    ensures IsSegmentation(CutString(text))
    ensures forall i :: 0 <= i < |CutString(text)| ==> |CutString(text)[i]| >= 1
    decreases |text|
  {
    if |text| > 0 {
      var k := if IsAsciiAlpha(text[0]) then AlphaRun(text) else 1;
      var rest := CutString(text[k..]);
      CutStringSegments(text[k..]);
      if k < |text| {
        CutStringHead(text[k..]);
      }
      assert CutString(text) == [text[..k]] + rest;
    }
  }

  /** The first token starts with the first character. */
  lemma CutStringHead(text: string)
    requires |text| > 0
    ensures |CutString(text)| > 0 && |CutString(text)[0]| > 0 && CutString(text)[0][0] == text[0]
  {
  }

  lemma {:induction false} CutStringCount(text: string)
    ensures |CutString(text)| <= |text|
    decreases |text|
  {
    if |text| > 0 {
      var k := if IsAsciiAlpha(text[0]) then AlphaRun(text) else 1;
      CutStringCount(text[k..]);
    }
  }

  /** Text made only of ASCII letters is one token; empty text is none. */
  lemma CutStringAllLetters(text: string)
    requires forall i :: 0 <= i < |text| ==> IsAsciiAlpha(text[i])
    ensures |text| == 0 ==> CutString(text) == []
    ensures |text| > 0 ==> CutString(text) == [text]
  {
    if |text| > 0 {
      assert AlphaRun(text) == |text|;
      assert text[..|text|] == text;
    }
  }

  /** A segmentation is determined by its text: `cut_string` is the only
      sequence of well-formed, maximal tokens that glues to `text`. */
  lemma {:induction false} SegmentationUnique(text: string, words: seq<string>)
    requires IsSegmentation(words) && Concat(words) == text
    ensures words == CutString(text)
    decreases |words|
  {
    if |words| > 0 {
      var w := words[0];
      var rest := words[1..];
      assert IsSegmentation(rest) by {
        forall i | 0 <= i < |rest| ensures IsSegment(rest[i]) {
          assert rest[i] == words[i + 1];
        }
        forall i | 0 <= i < |rest| - 1 ensures !(IsWord(rest[i]) && IsWord(rest[i + 1])) {
          assert rest[i] == words[i + 1] && rest[i + 1] == words[i + 2];
        }
      }
      assert text == w + Concat(rest);
      var k := |w|;
      assert text[..k] == w && text[k..] == Concat(rest);
      if IsWord(w) {
        // the next token, if any, starts with a character that is no letter
        if |rest| > 0 {
          assert !IsWord(rest[0]);
          assert |rest[0]| == 1 && !IsAsciiAlpha(rest[0][0]);
          assert Concat(rest) == rest[0] + Concat(rest[1..]);
          assert text[k] == rest[0][0];
        } else {
          assert |text| == k;
        }
        AlphaRunOf(text, k);
      } else {
        assert !IsAsciiAlpha(text[0]);
      }
      SegmentationUnique(text[k..], rest);
      assert words == [w] + rest;
    }
  }

  lemma AlphaRunOf(t: string, k: nat)
    requires k <= |t|
    requires forall i :: 0 <= i < k ==> IsAsciiAlpha(t[i])
    requires k < |t| ==> !IsAsciiAlpha(t[k])
    ensures AlphaRun(t) == k
  {
  }

  /** The length of the token `cut_string` takes at the front of `t`. */
  function TokenLength(t: string): nat
    requires |t| > 0
  {
    if IsAsciiAlpha(t[0]) then AlphaRun(t) else 1
  }

  lemma CutStringStep(text: string, from: nat, to: nat)
    requires from < |text| && to == from + TokenLength(text[from..])
    ensures to <= |text|
    ensures CutString(text[from..]) == [text[from..to]] + CutString(text[to..])
  {
    var t := text[from..];
    assert t[..to - from] == text[from..to];
    assert t[to - from..] == text[to..];
  }

  /** `cut_string` as the source writes it: an outer loop over character
      positions that keeps a byte cursor beside the character cursor. */
  method CutStringLoop(text: string) returns (result: seq<string>)
    ensures result == CutString(text)
  {
    var charOffset := 0;
    var byteOffset := 0;
    result := [];
    while charOffset < |text|
      invariant charOffset <= |text|
      invariant byteOffset == ByteLen(text[..charOffset])
      invariant result + CutString(text[charOffset..]) == CutString(text)
      decreases |text| - charOffset
    {
      var charStart, byteStart := NextToken(text, charOffset, byteOffset);
      CutStringStep(text, charOffset, charStart);
      result := result + [text[charOffset..charStart]];
      byteOffset := byteStart;
      charOffset := charStart;
    }
  }

  /** The body of the outer loop of `cut_string`: one non-letter character,
      or an inner loop that extends a letter run and leaves with `break` at
      the last character of the text. */
  method NextToken(text: string, charOffset: nat, byteOffset: nat) returns (charStart: nat, byteStart: nat)
    requires charOffset < |text| && byteOffset == ByteLen(text[..charOffset])
    ensures charStart == charOffset + TokenLength(text[charOffset..])
    ensures charStart <= |text| && byteStart == ByteLen(text[..charStart])
  {
    byteStart := byteOffset;
    charStart := charOffset;
    var word := text[charStart];
    if !IsAsciiAlpha(word) {
      ByteLenStep(text, charStart);
      byteStart := byteStart + Width(word);
      charStart := charStart + 1;
    }
    while IsAsciiAlpha(word)
      invariant !IsAsciiAlpha(text[charOffset]) ==> charStart == charOffset + 1 && !IsAsciiAlpha(word)
      invariant IsAsciiAlpha(text[charOffset]) ==>
        && charOffset <= charStart < |text|
        && word == text[charStart]
        && forall i :: charOffset <= i < charStart ==> IsAsciiAlpha(text[i])
      invariant charStart <= |text| && byteStart == ByteLen(text[..charStart])
      decreases |text| - charStart
    {
      if charStart == |text| - 1 {
        ByteLenStep(text, charStart);
        byteStart := byteStart + Width(word);
        charStart := charStart + 1;
        break;
      }
      ByteLenStep(text, charStart);
      charStart := charStart + 1;
      byteStart := byteStart + Width(word);
      word := text[charStart];
    }
    if IsAsciiAlpha(text[charOffset]) {
      assert forall i :: charOffset <= i < charStart ==> IsAsciiAlpha(text[i]);
      assert charStart == |text| || !IsAsciiAlpha(text[charStart]);
      AlphaRunOf(text[charOffset..], charStart - charOffset);
    }
  }

  lemma ByteLenStep(text: string, k: nat)
    requires k < |text|
    ensures ByteLen(text[..k + 1]) == ByteLen(text[..k]) + Width(text[k])
  {
    assert text[..k + 1] == text[..k] + [text[k]];
    ByteLenAppend(text[..k], [text[k]]);
  }

  /** The loop of `token_stream` from byte offset `offset`. */
  function TokensFrom(words: seq<string>, offset: nat, fold: CaseFold): seq<Token>
    decreases |words|
  {
    if |words| == 0 then []
    else
      var w := words[0];
      var next := offset + ByteLen(w);
      [Token(offset, next, offset, Lowercase(w, fold), ByteLen(w))] + TokensFrom(words[1..], next, fold)
  }

  /** `UTF8Tokenizer::token_stream`. */
  function TokenStreamOf(text: string, fold: CaseFold): Stream
  {
    Stream(TokensFrom(CutString(text), 0, fold), 0)
  }

  lemma {:induction false} TokensFromSpec(words: seq<string>, offset: nat, fold: CaseFold)
    ensures |TokensFrom(words, offset, fold)| == |words|
    ensures forall i :: 0 <= i < |words| ==>
      var t := TokensFrom(words, offset, fold)[i];
      && t.offsetFrom == offset + ByteLen(Concat(words[..i]))
      && t.offsetTo == t.offsetFrom + ByteLen(words[i])
      && t.position == t.offsetFrom
      && t.positionLength == ByteLen(words[i])
      && t.text == Lowercase(words[i], fold)
    decreases |words|
  {
    if |words| > 0 {
      var w := words[0];
      var ts := TokensFrom(words, offset, fold);
      TokensFromSpec(words[1..], offset + ByteLen(w), fold);
      forall i | 0 <= i < |words|
        ensures ts[i].offsetFrom == offset + ByteLen(Concat(words[..i]))
        ensures ts[i].offsetTo == ts[i].offsetFrom + ByteLen(words[i])
        ensures ts[i].position == ts[i].offsetFrom
        ensures ts[i].positionLength == ByteLen(words[i])
        ensures ts[i].text == Lowercase(words[i], fold)
      {
        if i == 0 {
          assert words[..0] == [];
        } else {
          assert ts[i] == TokensFrom(words[1..], offset + ByteLen(w), fold)[i - 1];
          assert words[1..][..i - 1] == words[1..i];
          assert words[..i] == [w] + words[1..i];
          assert Concat(words[..i]) == w + Concat(words[1..i]);
          ByteLenAppend(w, Concat(words[1..i]));
        }
      }
    }
  }

  lemma ConcatPrefixStep(words: seq<string>, i: nat)
    requires i < |words|
    ensures Concat(words[..i + 1]) == Concat(words[..i]) + words[i]
  {
    assert words[..i + 1] == words[..i] + [words[i]];
    ConcatAppend(words[..i], [words[i]]);
  }

  /** Each token of the stream carries the lower-cased word, `position`
      is its start byte offset and `position_length` its byte length; the
      cursor starts at 0. */
  lemma TokenStreamTokens(text: string, fold: CaseFold)
    ensures TokenStreamOf(text, fold).offset == 0
    ensures |TokenStreamOf(text, fold).tokens| == |CutString(text)|
    ensures forall i :: 0 <= i < |CutString(text)| ==>
      var t := TokenStreamOf(text, fold).tokens[i];
      && t.text == Lowercase(CutString(text)[i], fold)
      && t.offsetTo == t.offsetFrom + ByteLen(CutString(text)[i])
      && t.position == t.offsetFrom
      && t.positionLength == ByteLen(CutString(text)[i])
  {
    TokensFromSpec(CutString(text), 0, fold);
  }

  /** Offsets are contiguous byte offsets: the first token starts at 0, each
      token starts where the previous one ends, and the last one ends at the
      byte length of the text. */
  lemma TokenStreamOffsets(text: string, fold: CaseFold)
    ensures var ts := TokenStreamOf(text, fold).tokens;
      && (|ts| > 0 ==> ts[0].offsetFrom == 0)
      && (forall i :: 0 < i < |ts| ==> ts[i].offsetFrom == ts[i - 1].offsetTo)
      && (|ts| > 0 ==> ts[|ts| - 1].offsetTo == ByteLen(text))
  {
    var words := CutString(text);
    TokensContiguous(words, fold);
    TokensEnd(words, fold);
    CutStringConcat(text);
  }

  lemma TokensContiguous(words: seq<string>, fold: CaseFold)
    ensures var ts := TokensFrom(words, 0, fold);
      && (|ts| > 0 ==> ts[0].offsetFrom == 0)
      && (forall i :: 0 < i < |ts| ==> ts[i].offsetFrom == ts[i - 1].offsetTo)
  {
    var ts := TokensFrom(words, 0, fold);
    TokensFromSpec(words, 0, fold);
    if |ts| > 0 {
      assert words[..0] == [];
    }
    forall i | 0 < i < |ts|
      ensures ts[i].offsetFrom == ts[i - 1].offsetTo
    {
      ConcatPrefixStep(words, i - 1);
      ByteLenAppend(Concat(words[..i - 1]), words[i - 1]);
    }
  }

  lemma TokensEnd(words: seq<string>, fold: CaseFold)
    ensures var ts := TokensFrom(words, 0, fold);
      |ts| > 0 ==> ts[|ts| - 1].offsetTo == ByteLen(Concat(words))
  {
    var ts := TokensFrom(words, 0, fold);
    TokensFromSpec(words, 0, fold);
    if |ts| > 0 {
      var n := |ts|;
      ConcatPrefixStep(words, n - 1);
      ByteLenAppend(Concat(words[..n - 1]), words[n - 1]);
      assert words[..n] == words;
    }
  }
}
