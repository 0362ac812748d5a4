/** The HTML character-reference decoder of the feed-import module:
    a two-state machine (`Normal` / `Escape`) run once over the characters,
    with a name buffer of at most seven characters and a sorted table of
    thirteen named references (a subset of the named character references
    of section 13.5 of the HTML Living Standard; the numeric forms `#34`,
    `#39` and `#43` are table keys, not parsed numbers). */
module Unescape {
  import opened Wrappers
  import opened Text

  datatype Entry = Entry(name: string, ch: char)

  /** `HTML_CHARS`, sorted by name. */
  const HtmlChars: seq<Entry> := [
    Entry("#34", '\U{0022}'),
    Entry("#39", '\U{0027}'),
    Entry("#43", '\U{002B}'),
    Entry("amp", '\U{0026}'),
    Entry("gt", '\U{003E}'),
    Entry("hellip", '\U{2026}'),
    Entry("ldquo", '\U{201C}'),
    Entry("lsquo", '\U{2018}'),
    Entry("lt", '\U{003C}'),
    Entry("ndash", '\U{2013}'),
    Entry("quot", '\U{0022}'),
    Entry("rdquo", '\U{201D}'),
    Entry("rsquo", '\U{2019}')
  ]

  /** Longest name the buffer holds before it is flushed. */
  const MaxName: nat := 7

  /** Rust's `Ord` on `str`: byte-wise lexicographic order, which for UTF-8
      coincides with lexicographic order on scalar values. */
  predicate Less(a: string, b: string)
    decreases |a|
  {
    |b| > 0 && (|a| == 0 || a[0] < b[0] || (a[0] == b[0] && Less(a[1..], b[1..])))
  }

  lemma {:induction false} LessIrreflexive(a: string)
    ensures !Less(a, a)
    decreases |a|
  {
    if |a| > 0 {
      LessIrreflexive(a[1..]);
    }
  }

  lemma {:induction false} LessTransitive(a: string, b: string, c: string)
    requires Less(a, b) && Less(b, c)
    ensures Less(a, c)
    decreases |a|
  {
    if |a| > 0 && a[0] == b[0] && b[0] == c[0] {
      LessTransitive(a[1..], b[1..], c[1..]);
    }
  }

  lemma {:induction false} LessAsymmetric(a: string, b: string)
    requires Less(a, b)
    ensures !Less(b, a)
  {
    if Less(b, a) {
      LessTransitive(a, b, a);
      LessIrreflexive(a);
    }
  }

  ghost predicate StrictlySorted(t: seq<Entry>)
  {
    forall i, j :: 0 <= i < j < |t| ==> Less(t[i].name, t[j].name)
  }

  lemma {:induction false} SortedFromAdjacent(t: seq<Entry>)
    requires forall i :: 0 <= i < |t| - 1 ==> Less(t[i].name, t[i + 1].name)
    ensures StrictlySorted(t)
    decreases |t|
  {
    if |t| > 1 {
      SortedFromAdjacent(t[1..]);
      forall j | 1 <= j < |t|
        ensures Less(t[0].name, t[j].name)
      {
        if j > 1 {
          assert Less(t[1].name, t[j].name) by {
            assert t[1..][0] == t[1] && t[1..][j - 1] == t[j];
          }
          LessTransitive(t[0].name, t[1].name, t[j].name);
        }
      }
      forall i, j | 0 <= i < j < |t|
        ensures Less(t[i].name, t[j].name)
      {
        if i > 0 {
          assert t[1..][i - 1] == t[i] && t[1..][j - 1] == t[j];
        }
      }
    }
  }

  /** `HTML_CHARS` is strictly sorted by name, as `binary_search_by` needs. */
  lemma TableSorted()
    ensures StrictlySorted(HtmlChars)
  {
    var t := HtmlChars;
    assert Less(t[0].name, t[1].name);
    assert Less(t[1].name, t[2].name);
    assert Less(t[2].name, t[3].name);
    assert Less(t[3].name, t[4].name);
    assert Less(t[4].name, t[5].name);
    assert Less(t[5].name, t[6].name);
    assert Less(t[6].name, t[7].name);
    assert Less(t[7].name, t[8].name);
    assert Less(t[8].name, t[9].name);
    assert Less(t[9].name, t[10].name);
    assert Less(t[10].name, t[11].name);
    assert Less(t[11].name, t[12].name);
    SortedFromAdjacent(t);
  }

  /** Reference lookup: the character of the first entry named `key`. */
  function Find(t: seq<Entry>, key: string): Option<char>
    decreases |t|
  {
    if |t| == 0 then None else if t[0].name == key then Some(t[0].ch) else Find(t[1..], key)
  }

  /** `binary_search_by(|(name, _)| name.cmp(key))` over `t[lo..hi]`. */
  function BinarySearch(t: seq<Entry>, key: string, lo: nat, hi: nat): Option<char>
    requires lo <= hi <= |t|
    decreases hi - lo
  {
    if lo == hi then None
    else
      var mid := (lo + hi) / 2;
      if t[mid].name == key then Some(t[mid].ch)
      else if Less(t[mid].name, key) then BinarySearch(t, key, mid + 1, hi)
      else BinarySearch(t, key, lo, mid)
  }

  /** `do_match`: the character named by the buffer, if the table has it. */
  function DoMatch(buf: string): Option<char>
  {
    BinarySearch(HtmlChars, buf, 0, |HtmlChars|)
  }

  lemma {:induction false} BinarySearchFinds(t: seq<Entry>, key: string, lo: nat, hi: nat)
    requires StrictlySorted(t)
    requires lo <= hi <= |t|
    ensures BinarySearch(t, key, lo, hi).None? <==> forall i :: lo <= i < hi ==> t[i].name != key
    ensures forall i :: lo <= i < hi && t[i].name == key ==> BinarySearch(t, key, lo, hi) == Some(t[i].ch)
    decreases hi - lo
  {
    if lo < hi {
      var mid := (lo + hi) / 2;
      if t[mid].name == key {
        forall i | lo <= i < hi && t[i].name == key
          ensures i == mid
        {
          if i < mid || i > mid {
            LessIrreflexive(key);
          }
        }
      } else if Less(t[mid].name, key) {
        BinarySearchFinds(t, key, mid + 1, hi);
        forall i | lo <= i <= mid
          ensures t[i].name != key
        {
          if i < mid && t[i].name == key {
            LessAsymmetric(t[i].name, t[mid].name);
          }
        }
      } else {
        BinarySearchFinds(t, key, lo, mid);
        forall i | mid <= i < hi
          ensures t[i].name != key
        {
          if i > mid {
            assert Less(t[mid].name, t[i].name);
          }
        }
      }
    }
  }

  lemma {:induction false} FindFinds(t: seq<Entry>, key: string)
    requires StrictlySorted(t)
    ensures Find(t, key).None? <==> forall i :: 0 <= i < |t| ==> t[i].name != key
    ensures forall i :: 0 <= i < |t| && t[i].name == key ==> Find(t, key) == Some(t[i].ch)
    decreases |t|
  {
    if |t| > 0 {
      assert StrictlySorted(t[1..]) by {
        forall i, j | 0 <= i < j < |t| - 1
          ensures Less(t[1..][i].name, t[1..][j].name)
        {
          assert t[1..][i] == t[i + 1] && t[1..][j] == t[j + 1];
        }
      }
      FindFinds(t[1..], key);
      forall i | 0 <= i < |t| && t[i].name == key
        ensures Find(t, key) == Some(t[i].ch)
      {
        if i > 0 {
          if t[0].name == key {
            LessIrreflexive(key);
          }
          assert t[1..][i - 1] == t[i];
        }
      }
      forall i | 1 <= i < |t|
        ensures t[1..][i - 1] == t[i]
      {
      }
    }
  }

  /** Because the table is sorted, the binary search of `do_match` agrees
      with a front-to-back scan for every buffer content. */
  lemma DoMatchIsFind(buf: string)
    ensures DoMatch(buf) == Find(HtmlChars, buf)
  {
    TableSorted();
    BinarySearchFinds(HtmlChars, buf, 0, |HtmlChars|);
    FindFinds(HtmlChars, buf);
  }

  datatype Mode = Normal | Escape

  /** The decoder's state: mode, name buffer and the text written so far. */
  datatype Machine = Machine(mode: Mode, buf: string, out: string)

  const Start: Machine := Machine(Normal, "", "")

  function Emit(c: Option<char>): string
  {
    if c.Some? then [c.value] else ""
  }

  /** One iteration of the loop of `do_unescape`, arms in source order. */
  function Step(m: Machine, c: char): Machine
  {
    if m.mode == Normal && c == '&' then Machine(Escape, "", m.out)
    else if m.mode == Escape && c == ';' then Machine(Normal, "", m.out + Emit(DoMatch(m.buf)))
    else if m.mode == Escape && |m.buf| == MaxName then Machine(Normal, "", m.out + m.buf + [c])
    else if m.mode == Escape && Text.IsAscii(c) then Machine(Escape, m.buf + [c], m.out)
    else if m.mode == Escape then Machine(Normal, m.buf, m.out + [c])
    else Machine(Normal, m.buf, m.out + [c])
  }

  /** The whole loop; there is no flush after it. */
  function Run(m: Machine, s: string): Machine
    decreases |s|
  {
    if |s| == 0 then m else Run(Step(m, s[0]), s[1..])
  }

  /** `decode_html_chars`. */
  function DecodeHtmlChars(html: string): string
  {
    Run(Start, html).out
  }

  lemma {:induction false} RunAppend(m: Machine, a: string, b: string)
    ensures Run(m, a + b) == Run(Run(m, a), b)
    decreases |a|
  {
    if |a| == 0 {
      assert a + b == b;
    } else {
      assert (a + b)[1..] == a[1..] + b;
      RunAppend(Step(m, a[0]), a[1..], b);
    }
  }

  /** What a reachable state satisfies: the buffer never holds more than
      seven characters, and while escaping it holds only ASCII. */
  ghost predicate Inv(m: Machine)
  {
    |m.buf| <= MaxName && (m.mode == Escape ==> forall i :: 0 <= i < |m.buf| ==> Text.IsAscii(m.buf[i]))
  }

  lemma {:induction false} RunKeepsInv(m: Machine, s: string)
    requires Inv(m)
    ensures Inv(Run(m, s))
    decreases |s|
  {
    if |s| > 0 {
      var m' := Step(m, s[0]);
      assert Inv(m');
      RunKeepsInv(m', s[1..]);
    }
  }

  /** Text without `&` is copied through character for character. */
  lemma {:induction false} RunWithoutAmpersand(m: Machine, s: string)
    requires m.mode == Normal && '&' !in s
    ensures Run(m, s) == Machine(Normal, m.buf, m.out + s)
    decreases |s|
  {
    if |s| > 0 {
      RunWithoutAmpersand(Step(m, s[0]), s[1..]);
      assert m.out + [s[0]] + s[1..] == m.out + s;
    }
  }

  lemma DecodeWithoutAmpersand(s: string)
    requires '&' !in s
    ensures DecodeHtmlChars(s) == s
  {
    RunWithoutAmpersand(Start, s);
  }

  /** A candidate name: ASCII characters other than `;`. */
  predicate NameChars(name: string)
  {
    forall i :: 0 <= i < |name| ==> Text.IsAscii(name[i]) && name[i] != ';'
  }

  /** Inside an escape, name characters are buffered while there is room. */
  lemma {:induction false} RunBuffers(m: Machine, name: string)
    requires m.mode == Escape && NameChars(name) && |m.buf| + |name| <= MaxName
    ensures Run(m, name) == Machine(Escape, m.buf + name, m.out)
    decreases |name|
  {
    if |name| > 0 {
      var m' := Step(m, name[0]);
      assert m' == Machine(Escape, m.buf + [name[0]], m.out);
      RunBuffers(m', name[1..]);
      assert m.buf + [name[0]] + name[1..] == m.buf + name;
    }
  }

  lemma RunOpensEscape(m: Machine, name: string)
    requires m.mode == Normal && NameChars(name) && |name| <= MaxName
    ensures Run(m, "&" + name) == Machine(Escape, name, m.out)
  {
    RunAppend(m, "&", name);
    RunBuffers(Machine(Escape, "", m.out), name);
    assert "" + name == name;
  }

  /** `&name;` emits the table's character for `name`, or nothing when the
      name is unknown: the `&` and the name are consumed either way. */
  lemma NamedReference(m: Machine, name: string)
    requires m.mode == Normal && NameChars(name) && |name| <= MaxName
    ensures Run(m, "&" + name + ";") == Machine(Normal, "", m.out + Emit(Find(HtmlChars, name)))
  {
    RunAppend(m, "&" + name, ";");
    RunOpensEscape(m, name);
    DoMatchIsFind(name);
  }

  /** Every table name fits the buffer and is made of name characters. */
  lemma TableNamesFit(i: nat)
    requires i < |HtmlChars|
    ensures NameChars(HtmlChars[i].name) && |HtmlChars[i].name| <= MaxName
  {
    var n := HtmlChars[i].name;
    assert n in {"#34", "#39", "#43", "amp", "gt", "hellip", "ldquo", "lsquo", "lt",
                 "ndash", "quot", "rdquo", "rsquo"};
  }

  /** Every table entry decodes to its character, e.g. `&lt;` to `<` and
      `&hellip;` to U+2026. */
  lemma TableReference(m: Machine, i: nat)
    requires m.mode == Normal && i < |HtmlChars|
    ensures Run(m, "&" + HtmlChars[i].name + ";") == Machine(Normal, "", m.out + [HtmlChars[i].ch])
  {
    var e := HtmlChars[i];
    TableSorted();
    FindFinds(HtmlChars, e.name);
    assert Find(HtmlChars, e.name) == Some(e.ch);
    TableNamesFit(i);
    NamedReference(m, e.name);
  }

  /** A full buffer followed by any character but `;` is flushed verbatim
      with that character; the `&` itself is not written. */
  lemma BufferOverflow(m: Machine, name: string, c: char)
    requires m.mode == Normal && NameChars(name) && |name| == MaxName && c != ';'
    ensures Run(m, "&" + name + [c]) == Machine(Normal, "", m.out + name + [c])
  {
    RunAppend(m, "&" + name, [c]);
    RunOpensEscape(m, name);
  }

  /** A multi-byte character inside an escape ends it: that character is
      written and the `&` and the buffered name are dropped. */
  lemma MultiByteAborts(m: Machine, name: string, c: char)
    requires m.mode == Normal && NameChars(name) && |name| < MaxName && !Text.IsAscii(c)
    ensures Run(m, "&" + name + [c]).mode == Normal
    ensures Run(m, "&" + name + [c]).out == m.out + [c]
  {
    RunAppend(m, "&" + name, [c]);
    RunOpensEscape(m, name);
  }

  /** An escape still open at the end of the input writes nothing. */
  lemma UnterminatedDropped(s: string, name: string)
    requires Run(Start, s).mode == Normal && NameChars(name) && |name| <= MaxName
    ensures DecodeHtmlChars(s + "&" + name) == DecodeHtmlChars(s)
  {
    RunAppend(Start, s, "&" + name);
    assert s + "&" + name == s + ("&" + name);
    RunOpensEscape(Run(Start, s), name);
  }

  /** Characters a state still owes: the `&` and the buffer while escaping. */
  function Pending(m: Machine): nat
  {
    if m.mode == Escape then |m.buf| + 1 else 0
  }

  lemma {:induction false} RunNeverGrows(m: Machine, s: string)
    ensures |Run(m, s).out| + Pending(Run(m, s)) <= |m.out| + Pending(m) + |s|
    decreases |s|
  {
    if |s| > 0 {
      RunNeverGrows(Step(m, s[0]), s[1..]);
    }
  }

  /** The output never has more characters than the input. */
  lemma DecodeNeverGrows(html: string)
    ensures |DecodeHtmlChars(html)| <= |html|
  {
    RunNeverGrows(Start, html);
  }
}
