/** String helpers with the semantics of the Rust `str` methods the service
    uses: `split` on a one-character pattern, `splitn(2, _)`, `starts_with`,
    `chars().take(n)` and `to_lowercase`. */
module Text {
  import opened Wrappers

  /** Number of occurrences of `d` in `s`. */
  function Count(s: string, d: char): nat
  {
    if |s| == 0 then 0 else (if s[0] == d then 1 else 0) + Count(s[1..], d)
  }

  /** `s.split(d)`: the pieces between the occurrences of `d`, empty pieces
      included, so the empty string splits into one empty piece. */
  function Split(s: string, d: char): (r: seq<string>)
    ensures |r| >= 1
    decreases |s|
  {
    if |s| == 0 then [""]
    else
      var rest := Split(s[1..], d);
      if s[0] == d then [""] + rest else [[s[0]] + rest[0]] + rest[1..]
  }

  /** Inverse of `Split`: the pieces glued back together with `d`. */
  function Join(pieces: seq<string>, d: char): string
    decreases |pieces|
  {
    if |pieces| == 0 then ""
    else if |pieces| == 1 then pieces[0]
    else pieces[0] + [d] + Join(pieces[1..], d)
  }

  lemma {:induction false} SplitJoin(s: string, d: char)
    ensures Join(Split(s, d), d) == s
    decreases |s|
  {
    if |s| > 0 {
      SplitJoin(s[1..], d);
      var rest := Split(s[1..], d);
      if s[0] == d {
        assert Split(s, d) == [""] + rest;
        assert s == [d] + s[1..];
      } else {
        var r := [[s[0]] + rest[0]] + rest[1..];
        assert Split(s, d) == r;
        if |rest| == 1 {
          assert Join(rest, d) == rest[0];
        } else {
          assert Join(rest, d) == rest[0] + [d] + Join(rest[1..], d);
          assert r[1..] == rest[1..];
        }
        assert s == [s[0]] + s[1..];
      }
    }
  }

  lemma {:induction false} SplitPiecesAvoidDelimiter(s: string, d: char)
    ensures forall i :: 0 <= i < |Split(s, d)| ==> d !in Split(s, d)[i]
    decreases |s|
  {
    if |s| > 0 {
      SplitPiecesAvoidDelimiter(s[1..], d);
    }
  }

  lemma {:induction false} SplitCount(s: string, d: char)
    ensures |Split(s, d)| == Count(s, d) + 1
    decreases |s|
  {
    if |s| > 0 {
      SplitCount(s[1..], d);
    }
  }

  /** Splitting a joined list of delimiter-free pieces gives the pieces back. */
  lemma {:induction false} JoinSplit(pieces: seq<string>, d: char)
    requires |pieces| >= 1
    requires forall i :: 0 <= i < |pieces| ==> d !in pieces[i]
    ensures Split(Join(pieces, d), d) == pieces
    decreases |pieces|
  {
    if |pieces| == 1 {
      SplitNoDelimiter(pieces[0], d);
    } else {
      JoinSplit(pieces[1..], d);
      SplitPrefix(pieces[0], Join(pieces[1..], d), d);
      assert [pieces[0]] + pieces[1..] == pieces;
    }
  }

  lemma {:induction false} SplitNoDelimiter(s: string, d: char)
    requires d !in s
    ensures Split(s, d) == [s]
    decreases |s|
  {
    if |s| > 0 {
      SplitNoDelimiter(s[1..], d);
      assert [s[0]] + s[1..] == s;
    }
  }

  lemma {:induction false} SplitPrefix(a: string, b: string, d: char)
    requires d !in a
    ensures Split(a + [d] + b, d) == [a] + Split(b, d)
    decreases |a|
  {
    if |a| == 0 {
      assert a + [d] + b == [d] + b;
      assert ([d] + b)[1..] == b;
    } else {
      SplitPrefix(a[1..], b, d);
      assert (a + [d] + b)[1..] == a[1..] + [d] + b;
      assert [a[0]] + a[1..] == a;
    }
  }

  /** Two delimiter-free pieces joined by the delimiter split back apart. */
  lemma SplitTwo(a: string, b: string, d: char)
    requires d !in a && d !in b
    ensures Split(a + [d] + b, d) == [a, b]
  {
    SplitPrefix(a, b, d);
    SplitNoDelimiter(b, d);
  }

  /** `s.splitn(2, d)`: the text before the first `d`, and the text after it
      when there is one. */
  function SplitOnce(s: string, d: char): (r: (string, Option<string>))
    decreases |s|
  {
    if |s| == 0 then ("", None)
    else if s[0] == d then ("", Some(s[1..]))
    else
      var rest := SplitOnce(s[1..], d);
      ([s[0]] + rest.0, rest.1)
  }

  lemma {:induction false} SplitOnceSpec(s: string, d: char)
    ensures d !in SplitOnce(s, d).0
    ensures SplitOnce(s, d).1.None? <==> d !in s
    ensures SplitOnce(s, d).1.None? ==> SplitOnce(s, d).0 == s
    ensures SplitOnce(s, d).1.Some? ==> s == SplitOnce(s, d).0 + [d] + SplitOnce(s, d).1.value
    decreases |s|
  {
    if |s| > 0 && s[0] != d {
      SplitOnceSpec(s[1..], d);
      assert s == [s[0]] + s[1..];
    } else if |s| > 0 {
      assert s == [d] + s[1..];
    }
  }

  predicate StartsWith(s: string, prefix: string)
  {
    |prefix| <= |s| && s[..|prefix|] == prefix
  }

  /** `s.chars().take(n)`: the first `n` characters, or all of them. */
  function TakeChars(s: string, n: nat): (r: string)
    ensures |r| == if |s| < n then |s| else n
    ensures r <= s
  {
    if |s| < n then s else s[..n]
  }

  predicate IsAscii(c: char)
  {
    (c as int) < 0x80
  }

  predicate IsAsciiUpper(c: char)
  {
    'A' <= c <= 'Z'
  }

  /** Rust's `char::is_ascii_alphabetic`: `[A-Za-z]`. */
  predicate IsAsciiAlpha(c: char)
  {
    ('A' <= c <= 'Z') || ('a' <= c <= 'z')
  }

  /** Lower-case image of the characters outside ASCII, which the model
      leaves to the caller. */
  type CaseFold = char -> string

  /** `char::to_lowercase` for one character: ASCII `A`-`Z` shift by 32, the
      rest of ASCII is unchanged, other characters are mapped by `fold`. */
  function LowerChar(c: char, fold: CaseFold): string
  {
    if IsAsciiUpper(c) then [(c as int + 32) as char]
    else if IsAscii(c) then [c]
    else fold(c)
  }

  /** `str::to_lowercase`, character by character. */
  function Lowercase(s: string, fold: CaseFold): string
    decreases |s|
  {
    if |s| == 0 then "" else LowerChar(s[0], fold) + Lowercase(s[1..], fold)
  }

  /** On ASCII text lower-casing keeps the length, lowers exactly the
      upper-case letters, and is independent of the fold for other scripts. */
  lemma {:induction false} LowercaseAscii(s: string, fold: CaseFold)
    requires forall i :: 0 <= i < |s| ==> IsAscii(s[i])
    ensures |Lowercase(s, fold)| == |s|
    ensures forall i :: 0 <= i < |s| ==>
      Lowercase(s, fold)[i] == if IsAsciiUpper(s[i]) then (s[i] as int + 32) as char else s[i]
    decreases |s|
  {
    if |s| > 0 {
      LowercaseAscii(s[1..], fold);
      var t := Lowercase(s, fold);
      assert t == LowerChar(s[0], fold) + Lowercase(s[1..], fold);
      forall i | 0 <= i < |s|
        ensures t[i] == if IsAsciiUpper(s[i]) then (s[i] as int + 32) as char else s[i]
      {
        if i > 0 {
          assert t[i] == Lowercase(s[1..], fold)[i - 1];
        }
      }
    }
  }

  lemma {:induction false} LowercaseAppend(a: string, b: string, fold: CaseFold)
    ensures Lowercase(a + b, fold) == Lowercase(a, fold) + Lowercase(b, fold)
    decreases |a|
  {
    if |a| == 0 {
      assert a + b == b;
    } else {
      var ab := a + b;
      assert ab[0] == a[0] && ab[1..] == a[1..] + b;
      assert Lowercase(ab, fold) == LowerChar(a[0], fold) + Lowercase(a[1..] + b, fold);
      LowercaseAppend(a[1..], b, fold);
      assert Lowercase(a, fold) == LowerChar(a[0], fold) + Lowercase(a[1..], fold);
    }
  }
  /** A fold that, like `char::to_lowercase`, gives every character at least
      one character of lower-case form. */
  predicate NonErasing(fold: CaseFold)
  {
    forall c :: |fold(c)| >= 1
  }

  /** Under such a fold, only the empty string lower-cases to nothing. */
  lemma LowercaseEmpty(s: string, fold: CaseFold)
    requires NonErasing(fold)
    ensures Lowercase(s, fold) == "" <==> s == ""
  {
    if s != "" {
      assert |LowerChar(s[0], fold)| >= 1;
    }
  }
}
