/** `extract_params`: the request a client sends over the Unix socket.
    After an 8-byte length, the payload holds four lists in a fixed order:
    pages and range (integer lists), then terms and keywords (string lists).
    A list is `[3 header bytes][u64 payload length][elements]`. An integer
    element is `[3 header bytes][8 bytes never read][i64]`, 19 bytes in all.
    A string element is `[3 header bytes][u64 length][UTF-8][1 trailing byte]`.
    All integers are big-endian. Every panic of the decoder (a slice out of
    range, a failed `from_utf8`) is an `Err` here. */
module RequestFrame {
  import opened Wrappers
  import opened Bytes
  import Utf8

  /** `LENGTH_SIZE`. */
  const LengthSize: nat := 8
  /** The delimiter byte and the two type bytes in front of every field. */
  const FieldHeader: nat := 3

  datatype Fault = OutOfRange | BadUtf8

  /** `&raw[from..to]`, which panics unless `from <= to <= raw.len()`. */
  function Slice(raw: seq<byte>, from: nat, to: nat): (r: Result<seq<byte>, Fault>)
    ensures r.Ok? <==> from <= to <= |raw|
    ensures r.Ok? ==> r.value == raw[from..to]
  {
    if from <= to <= |raw| then Ok(raw[from..to]) else Err(OutOfRange)
  }

  /** The `u64` length field of the field that starts at `o`. */
  function LengthAt(raw: seq<byte>, o: nat): nat
    requires o + FieldHeader + LengthSize <= |raw|
  {
    BeNat(raw[o + FieldHeader..o + FieldHeader + LengthSize])
  }

  /** The opening of a string element and of both list readers: the
      field's length and the slice of that many bytes after it.
      (`extract_string_list` also reads the byte before the length field,
      which the length field's own slice already requires to exist.) */
  function ListBody(o: nat, raw: seq<byte>): (r: Result<seq<byte>, Fault>)
    ensures r.Ok? <==> o + 11 <= |raw| && o + 11 + LengthAt(raw, o) <= |raw|
    ensures r.Ok? ==> r.value == raw[o + 11..o + 11 + LengthAt(raw, o)]
  {
    var off := o + FieldHeader;
    var lenBuf :- Slice(raw, off, off + LengthSize);
    var n := BeNat(lenBuf);
    Slice(raw, LengthSize + off, n + LengthSize + off)
  }

  /** `extract_string`: the string of the element at `o` and the offset just
      past its trailing byte. The trailing byte itself is never read. */
  function ExtractString(o: nat, raw: seq<byte>): Result<(string, nat), Fault>
  {
    var buf :- ListBody(o, raw);
    match Utf8.Decode(buf)
    case None => Err(BadUtf8)
    case Some(s) => Ok((s, |buf| + LengthSize + o + FieldHeader + 1))
  }

  /** `extract_string` succeeds exactly when the length field, the bytes it
      counts and their UTF-8 are all there; the string is then those bytes
      decoded, and the next offset is one past them. */
  lemma ExtractStringSpec(o: nat, raw: seq<byte>)
    ensures var r := ExtractString(o, raw);
      && (r.Ok? <==>
          && o + 11 <= |raw|
          && o + 11 + LengthAt(raw, o) <= |raw|
          && Utf8.Decode(raw[o + 11..o + 11 + LengthAt(raw, o)]).Some?)
      && (r.Ok? ==>
          var (s, next) := r.value;
          && LengthAt(raw, o) == Utf8.ByteLen(s)
          && next == o + 12 + Utf8.ByteLen(s)
          && raw[o + 11..next - 1] == Utf8.Encode(s))
  {
    var r := ExtractString(o, raw);
    if r.Ok? {
      DecodedString(ListBody(o, raw).value, r.value.0);
    }
  }

  /** A decoded string is exactly as long, in UTF-8, as the bytes it came
      from, and encodes back to them. */
  lemma DecodedString(buf: seq<byte>, s: string)
    requires Utf8.Decode(buf) == Some(s)
    ensures Utf8.Encode(s) == buf && Utf8.ByteLen(s) == |buf|
  {
    Utf8.EncodeDecode(buf);
    Utf8.EncodeLength(s);
  }

  /** `extract_integer`: the `i64` of the element at `o` and the offset just
      past it. The element's length field is skipped, not read. */
  function ExtractInteger(o: nat, raw: seq<byte>): (r: Result<(int, nat), Fault>)
    ensures r.Ok? <==> o + 19 <= |raw|
    ensures r.Ok? ==>
      && r.value.1 == o + 19
      && I64_MIN <= r.value.0 < I64_LIMIT
      && I64Bytes(r.value.0) == raw[o + 11..o + 19]
  {
    var off := o + FieldHeader;
    var buf :- Slice(raw, LengthSize + off, 2 * LengthSize + off);
    I64BytesOfBeI64(buf);
    Ok((BeI64(buf), 2 * LengthSize + off))
  }

  /** The `while` loop of `extract_integer_list` from `sub`: the integers
      read and the final `sub_offset`. It succeeds exactly when the bytes
      left split into whole 19-byte elements, and reads element `i` from
      the 19 bytes at `sub + 19 * i`. */
  function IntegerLoop(buf: seq<byte>, sub: nat): (r: Result<(seq<int>, nat), Fault>)
    ensures r.Ok? <==> sub >= |buf| || (|buf| - sub) % 19 == 0
    ensures r.Ok? ==> r.value.1 == if sub >= |buf| then sub else |buf|
    ensures r.Ok? ==> sub + |r.value.0| * 19 == r.value.1
    ensures r.Ok? ==> forall i :: 0 <= i < |r.value.0| ==>
      && I64_MIN <= r.value.0[i] < I64_LIMIT
      && I64Bytes(r.value.0[i]) == buf[sub + i * 19 + 11..sub + (i + 1) * 19]
    decreases |buf| - sub
  {
    if sub >= |buf| then Ok(([], sub))
    else
      var x :- ExtractInteger(sub, buf);
      var rest :- IntegerLoop(buf, x.1);
      var xs := [x.0] + rest.0;
      assert forall i :: 1 <= i < |xs| ==> xs[i] == rest.0[i - 1];
      Ok((xs, rest.1))
  }

  /** `extract_integer_list`: the integers of the list at `o` and the offset
      just past the list. */
  function ExtractIntegerList(o: nat, raw: seq<byte>): (r: Result<(seq<int>, nat), Fault>)
    ensures r.Ok? <==>
      && o + 11 <= |raw|
      && o + 11 + LengthAt(raw, o) <= |raw|
      && LengthAt(raw, o) % 19 == 0
    ensures r.Ok? ==>
      var (xs, next) := r.value;
      && next == o + 11 + LengthAt(raw, o)
      && |xs| * 19 == LengthAt(raw, o)
      && forall i :: 0 <= i < |xs| ==>
        && I64_MIN <= xs[i] < I64_LIMIT
        && I64Bytes(xs[i]) == raw[o + 11 + i * 19 + 11..o + 11 + (i + 1) * 19]
  {
    var buf :- ListBody(o, raw);
    var res :- IntegerLoop(buf, 0);
    IntegersInPlace(raw, o, buf, res.0);
    Ok((res.0, o + FieldHeader + res.1 + LengthSize))
  }

  /** The integers read from a list body sit at the same places in the
      whole request, shifted by the list's opening. */
  lemma IntegersInPlace(raw: seq<byte>, o: nat, buf: seq<byte>, xs: seq<int>)
    requires o + 11 + |buf| <= |raw| && buf == raw[o + 11..o + 11 + |buf|]
    requires |xs| * 19 <= |buf|
    requires forall i :: 0 <= i < |xs| ==>
      && I64_MIN <= xs[i] < I64_LIMIT
      && I64Bytes(xs[i]) == buf[0 + i * 19 + 11..0 + (i + 1) * 19]
    ensures forall i :: 0 <= i < |xs| ==>
      && I64_MIN <= xs[i] < I64_LIMIT
      && I64Bytes(xs[i]) == raw[o + 11 + i * 19 + 11..o + 11 + (i + 1) * 19]
  {
    forall i | 0 <= i < |xs|
      ensures I64_MIN <= xs[i] < I64_LIMIT && I64Bytes(xs[i]) == raw[o + 11 + i * 19 + 11..o + 11 + (i + 1) * 19]
    {
      SliceOfSlice(raw, o + 11, o + 11 + |buf|, i * 19 + 11, (i + 1) * 19);
    }
  }

  /** The `while` loop of `extract_string_list` from `sub`: the strings read
      and the final `sub_offset`. `corrected` chooses the step: the source
      adds the offset `extract_string` returns to `sub_offset` (`false`),
      although that offset is already absolute (`true` sets it instead). */
  function StringLoop(buf: seq<byte>, sub: nat, corrected: bool): (r: Result<(seq<string>, nat), Fault>)
    ensures r.Ok? ==> r.value.1 >= |buf| && r.value.1 >= sub
    ensures r.Ok? && sub >= |buf| ==> r.value == ([], sub)
    decreases |buf| - sub
  {
    if sub >= |buf| then Ok(([], sub))
    else
      match ExtractString(sub, buf)
      case Err(e) => Err(e)
      case Ok((s, n)) =>
        match StringLoop(buf, if corrected then n else sub + n, corrected)
        case Err(e) => Err(e)
        case Ok((rest, end)) => Ok(([s] + rest, end))
  }

  /** `extract_string_list`: the strings of the list at `o` and the offset
      the source returns for the next field. */
  function ExtractStringList(o: nat, raw: seq<byte>, corrected: bool): (r: Result<(seq<string>, nat), Fault>)
    ensures r.Ok? ==>
      && o + 11 <= |raw|
      && o + 11 + LengthAt(raw, o) <= |raw|
      && r.value.1 >= o + 11 + LengthAt(raw, o)
  {
    var buf :- ListBody(o, raw);
    var res :- StringLoop(buf, 0, corrected);
    Ok((res.0, o + FieldHeader + res.1 + LengthSize))
  }

  datatype Request = Request(pages: seq<int>, range: seq<int>, terms: seq<string>, q: seq<string>)

  /** What one call of `extract_params` yields: the four lists, the
      end-of-stream signal (`Err(())` for a zero length), or a panic. */
  datatype Frame = Params(request: Request) | EndOfStream | Malformed(fault: Fault)

  /** The four lists read one after another, each from the offset the
      previous one returned. */
  function DecodeParams(raw: seq<byte>, corrected: bool): (r: Frame)
    ensures r.EndOfStream? <==> |raw| == 0
    ensures r.Params? ==> |raw| >= 44
  {
    if |raw| == 0 then EndOfStream
    else
      match ExtractIntegerList(0, raw)
      case Err(e) => Malformed(e)
      case Ok((pages, o1)) =>
        match ExtractIntegerList(o1, raw)
        case Err(e) => Malformed(e)
        case Ok((range, o2)) =>
          match ExtractStringList(o2, raw, corrected)
          case Err(e) => Malformed(e)
          case Ok((terms, o3)) =>
            match ExtractStringList(o3, raw, corrected)
            case Err(e) => Malformed(e)
            case Ok((q, _)) => Params(Request(pages, range, terms, q))
  }

  /** `extract_params` on the `length` bytes of one request, as written. */
  function ExtractParams(raw: seq<byte>): (r: Frame)
    ensures r.EndOfStream? <==> |raw| == 0
  {
    DecodeParams(raw, false)
  }

  /** `extract_params` with the string-list step corrected. */
  function ExtractParamsFixed(raw: seq<byte>): (r: Frame)
    ensures r.EndOfStream? <==> |raw| == 0
  {
    DecodeParams(raw, true)
  }

  // The writing side. The header bytes, the skipped length of an integer
  // element and the trailing byte of a string element are never read; the
  // encoder writes zeros there (and 8 for the skipped length).

  predicate IsI64(x: int)
  {
    I64_MIN <= x < I64_LIMIT
  }

  /** The header bytes and the skipped length field of an integer element,
      which holds 8. */
  const IntegerHeader: seq<byte> := [0, 0, 0, 0, 0, 0, 0, 0, 0, 0, 8]

  function EncodeInteger(x: int): (r: seq<byte>)
    requires IsI64(x)
    ensures |r| == 19
  {
    IntegerHeader + I64Bytes(x)
  }

  function EncodeIntegers(xs: seq<int>): (r: seq<byte>)
    requires forall i :: 0 <= i < |xs| ==> IsI64(xs[i])
    ensures |r| == |xs| * 19
  {
    if |xs| == 0 then [] else EncodeInteger(xs[0]) + EncodeIntegers(xs[1..])
  }

  function EncodeString(s: string): (r: seq<byte>)
    requires Utf8.ByteLen(s) < U64_LIMIT
    ensures |r| == 12 + Utf8.ByteLen(s)
  {
    Utf8.EncodeLength(s);
    [0, 0, 0] + BeBytes(Utf8.ByteLen(s), LengthSize) + Utf8.Encode(s) + [0]
  }

  predicate StringsFit(ss: seq<string>)
  {
    forall i :: 0 <= i < |ss| ==> Utf8.ByteLen(ss[i]) < U64_LIMIT
  }

  function EncodeStrings(ss: seq<string>): seq<byte>
    requires StringsFit(ss)
  {
    if |ss| == 0 then [] else EncodeString(ss[0]) + EncodeStrings(ss[1..])
  }

  function EncodeList(body: seq<byte>): (r: seq<byte>)
    requires |body| < U64_LIMIT
    ensures |r| == 11 + |body|
  {
    [0, 0, 0] + BeBytes(|body|, LengthSize) + body
  }

  /** A request whose every integer is an `i64` and whose every list fits
      a `u64` length. */
  predicate Encodable(req: Request)
  {
    && (forall i :: 0 <= i < |req.pages| ==> IsI64(req.pages[i]))
    && (forall i :: 0 <= i < |req.range| ==> IsI64(req.range[i]))
    && StringsFit(req.terms) && StringsFit(req.q)
    && |EncodeIntegers(req.pages)| < U64_LIMIT
    && |EncodeIntegers(req.range)| < U64_LIMIT
    && |EncodeStrings(req.terms)| < U64_LIMIT
    && |EncodeStrings(req.q)| < U64_LIMIT
  }

  function EncodeRequest(req: Request): (r: seq<byte>)
    requires Encodable(req)
    ensures |r| >= 44
  {
    EncodeList(EncodeIntegers(req.pages)) + EncodeList(EncodeIntegers(req.range))
      + EncodeList(EncodeStrings(req.terms)) + EncodeList(EncodeStrings(req.q))
  }

  /** The layout of a list: its length field holds the body's length and
      the body follows it. */
  lemma ListLayout(raw: seq<byte>, o: nat, body: seq<byte>)
    requires |body| < U64_LIMIT
    requires o + 11 + |body| <= |raw| && raw[o..o + 11 + |body|] == EncodeList(body)
    ensures LengthAt(raw, o) == |body|
    ensures ListBody(o, raw) == Ok(body)
  {
    var e := EncodeList(body);
    var len := BeBytes(|body|, LengthSize);
    assert e == [0, 0, 0] + len + body;
    assert e[3..11] == len && e[11..] == body;
    SliceOfSlice(raw, o, o + 11 + |body|, 3, 11);
    SliceOfSlice(raw, o, o + 11 + |body|, 11, 11 + |body|);
    Pow256Values();
    BeNatOfBeBytes(|body|, LengthSize);
  }

  /** An encoded string element reads back as its string, wherever it
      sits. */
  lemma ExtractStringAt(raw: seq<byte>, o: nat, s: string, next: nat)
    requires Utf8.ByteLen(s) < U64_LIMIT
    requires next == o + |EncodeString(s)| <= |raw| && raw[o..next] == EncodeString(s)
    ensures ExtractString(o, raw) == Ok((s, next))
  {
    var n := Utf8.ByteLen(s);
    assert next == o + 12 + n;
    StringLayout(raw, o, s);
    ExtractStringOf(raw, o, s);
  }

  lemma StringLayout(raw: seq<byte>, o: nat, s: string)
    requires Utf8.ByteLen(s) < U64_LIMIT
    requires o + 12 + Utf8.ByteLen(s) <= |raw| && raw[o..o + 12 + Utf8.ByteLen(s)] == EncodeString(s)
    ensures LengthAt(raw, o) == Utf8.ByteLen(s)
    ensures raw[o + 11..o + 11 + Utf8.ByteLen(s)] == Utf8.Encode(s)
  {
    var n := Utf8.ByteLen(s);
    var len := BeBytes(n, LengthSize);
    var payload := Utf8.Encode(s);
    assert |payload| == n by {
      Utf8.EncodeLength(s);
    }
    FieldLayout(raw, o, len, payload, [0]);
    assert BeNat(len) == n by {
      Pow256Values();
      BeNatOfBeBytes(n, LengthSize);
    }
  }

  /** A field `[3 header bytes][len][payload][tail]` placed at `o`: where its
      length field and its payload sit in `raw`. */
  lemma FieldLayout(raw: seq<byte>, o: nat, len: seq<byte>, payload: seq<byte>, tail: seq<byte>)
    requires |len| == LengthSize
    requires o + 11 + |payload| + |tail| <= |raw|
    requires raw[o..o + 11 + |payload| + |tail|] == [0, 0, 0] + len + payload + tail
    ensures raw[o + 3..o + 11] == len
    ensures raw[o + 11..o + 11 + |payload|] == payload
  {
    var e := [0, 0, 0] + len + payload + tail;
    assert e[3..11] == len && e[11..11 + |payload|] == payload;
    SliceOfSlice(raw, o, o + |e|, 3, 11);
    SliceOfSlice(raw, o, o + |e|, 11, 11 + |payload|);
  }

  lemma ExtractStringOf(raw: seq<byte>, o: nat, s: string)
    requires o + 11 + Utf8.ByteLen(s) <= |raw| && LengthAt(raw, o) == Utf8.ByteLen(s)
    requires raw[o + 11..o + 11 + Utf8.ByteLen(s)] == Utf8.Encode(s)
    ensures ExtractString(o, raw) == Ok((s, o + 12 + Utf8.ByteLen(s)))
  {
    var buf := Utf8.Encode(s);
    assert ListBody(o, raw) == Ok(buf);
    assert Utf8.Decode(buf) == Some(s) && |buf| == Utf8.ByteLen(s) by {
      Utf8.DecodeEncode(s);
      Utf8.EncodeLength(s);
    }
  }

  /** An encoded integer element reads back as its integer, wherever it
      sits. */
  lemma ExtractIntegerAt(raw: seq<byte>, o: nat, x: int)
    requires IsI64(x)
    requires o + 19 <= |raw| && raw[o..o + 19] == EncodeInteger(x)
    ensures ExtractInteger(o, raw) == Ok((x, o + 19))
  {
    assert raw[o + 11..o + 19] == EncodeInteger(x)[11..] == I64Bytes(x);
    I64RoundTrip(x);
  }

  lemma {:induction false} IntegerLoopOfEncoding(buf: seq<byte>, sub: nat, xs: seq<int>)
    requires forall i :: 0 <= i < |xs| ==> IsI64(xs[i])
    requires sub <= |buf| && buf[sub..] == EncodeIntegers(xs)
    ensures IntegerLoop(buf, sub) == Ok((xs, |buf|))
    decreases |xs|
  {
    if |xs| > 0 {
      var e := EncodeInteger(xs[0]);
      var rest := EncodeIntegers(xs[1..]);
      assert buf[sub..sub + 19] == buf[sub..][..19] == e;
      assert buf[sub + 19..] == buf[sub..][19..] == rest;
      ExtractIntegerAt(buf, sub, xs[0]);
      IntegerLoopOfEncoding(buf, sub + 19, xs[1..]);
      assert [xs[0]] + xs[1..] == xs;
    }
  }

  /** With the corrected step, the loop reads back every string of an
      encoded list and stops exactly at its end. */
  lemma {:induction false} StringLoopOfEncoding(buf: seq<byte>, sub: nat, ss: seq<string>)
    requires StringsFit(ss)
    requires sub <= |buf| && buf[sub..] == EncodeStrings(ss)
    ensures StringLoop(buf, sub, true) == Ok((ss, |buf|))
    decreases |ss|
  {
    if |ss| > 0 {
      var next := sub + |EncodeString(ss[0])|;
      assert StringsFit(ss[1..]) && sub < next <= |buf| && ExtractString(sub, buf) == Ok((ss[0], next))
          && buf[next..] == EncodeStrings(ss[1..]) by {
        ConsLayout(buf, sub, ss, next);
      }
      assert StringLoop(buf, next, true) == Ok((ss[1..], |buf|)) by {
        StringLoopOfEncoding(buf, next, ss[1..]);
      }
      StringLoopCons(buf, sub, ss, next);
    }
  }

  lemma StringLoopCons(buf: seq<byte>, sub: nat, ss: seq<string>, next: nat)
    requires |ss| > 0 && sub < |buf| && ExtractString(sub, buf) == Ok((ss[0], next))
    requires StringLoop(buf, next, true) == Ok((ss[1..], |buf|))
    ensures StringLoop(buf, sub, true) == Ok((ss, |buf|))
  {
    StringLoopStep(buf, sub, true, ss[0], next, ss[1..], |buf|);
    assert [ss[0]] + ss[1..] == ss;
  }

  /** An encoded integer list reads back, and the next field starts right
      after it. */
  lemma IntegerListAt(raw: seq<byte>, o: nat, xs: seq<int>, a: seq<byte>, next: nat)
    requires forall i :: 0 <= i < |xs| ==> IsI64(xs[i])
    requires |EncodeIntegers(xs)| < U64_LIMIT && a == EncodeList(EncodeIntegers(xs))
    requires next == o + |a| <= |raw| && raw[o..next] == a
    ensures ExtractIntegerList(o, raw) == Ok((xs, next))
  {
    var body := EncodeIntegers(xs);
    assert ListBody(o, raw) == Ok(body) by {
      ListLayout(raw, o, body);
    }
    assert IntegerLoop(body, 0) == Ok((xs, |body|)) by {
      IntegerLoopOfEncoding(body, 0, xs);
    }
    IntegerListOf(raw, o, body, xs, next);
  }

  lemma IntegerListOf(raw: seq<byte>, o: nat, body: seq<byte>, xs: seq<int>, next: nat)
    requires ListBody(o, raw) == Ok(body) && IntegerLoop(body, 0) == Ok((xs, |body|))
    requires next == o + 11 + |body|
    ensures ExtractIntegerList(o, raw) == Ok((xs, next))
  {
  }

  /** How far past the end of an encoded string list the loop's final
      offset lands: nowhere with the corrected step; with the step as
      written, by the first element's size when the list holds exactly two
      strings. */
  function Overshoot(ss: seq<string>, corrected: bool): nat
    requires StringsFit(ss)
  {
    if !corrected && |ss| == 2 then |EncodeString(ss[0])| else 0
  }

  /** The first string of an encoded list at `sub` reads back, and the rest
      of the list follows it. */
  lemma ConsLayout(buf: seq<byte>, sub: nat, ss: seq<string>, next: nat)
    requires StringsFit(ss) && |ss| > 0
    requires sub <= |buf| && buf[sub..] == EncodeStrings(ss)
    requires next == sub + |EncodeString(ss[0])|
    ensures next <= |buf| && ExtractString(sub, buf) == Ok((ss[0], next))
    ensures buf[next..] == EncodeStrings(ss[1..])
  {
    var e := EncodeString(ss[0]);
    assert buf[sub..] == e + EncodeStrings(ss[1..]);
    SplitAt(buf, sub, e, EncodeStrings(ss[1..]), next);
    ExtractStringAt(buf, sub, ss[0], next);
  }

  /** Where the two halves of `front + back` placed at `sub` sit. */
  lemma SplitAt(buf: seq<byte>, sub: nat, front: seq<byte>, back: seq<byte>, next: nat)
    requires sub <= |buf| && buf[sub..] == front + back && next == sub + |front|
    ensures next <= |buf| && buf[sub..next] == front && buf[next..] == back
  {
    assert buf[sub..next] == buf[sub..][..|front|];
    assert buf[next..] == buf[sub..][|front|..];
  }

  /** Both steps read back an encoded list of strings (the step as written
      only one of at most two strings), and stop at its end plus the
      overshoot. */
  lemma LoopOfEncoding(buf: seq<byte>, ss: seq<string>, corrected: bool, end: nat)
    requires StringsFit(ss) && buf == EncodeStrings(ss)
    requires corrected || |ss| <= 2
    requires end == |buf| + Overshoot(ss, corrected)
    ensures StringLoop(buf, 0, corrected) == Ok((ss, end))
  {
    if corrected {
      CorrectedLoop(buf, ss, corrected, end);
    } else {
      AsWrittenLoop(buf, ss, corrected, end);
    }
  }

  lemma AsWrittenLoop(buf: seq<byte>, ss: seq<string>, corrected: bool, end: nat)
    requires StringsFit(ss) && buf == EncodeStrings(ss) && |ss| <= 2 && !corrected
    requires end == |buf| + Overshoot(ss, corrected)
    ensures StringLoop(buf, 0, corrected) == Ok((ss, end))
  {
    if |ss| == 2 {
      var k := |EncodeString(ss[0])|;
      assert 0 < k < |buf| && ExtractString(0, buf) == Ok((ss[0], k)) && ExtractString(k, buf) == Ok((ss[1], |buf|)) by {
        TwoLayout(buf, ss);
      }
      TwoSteps(buf, ss, k, corrected, end);
    } else if |ss| == 1 {
      AsWrittenOne(buf, ss, corrected, end);
    } else {
      EmptyLoop(buf, ss, corrected, end);
    }
  }

  lemma CorrectedLoop(buf: seq<byte>, ss: seq<string>, corrected: bool, end: nat)
    requires StringsFit(ss) && buf == EncodeStrings(ss) && corrected && end == |buf|
    ensures StringLoop(buf, 0, corrected) == Ok((ss, end))
  {
    assert buf[0..] == buf;
    StringLoopOfEncoding(buf, 0, ss);
  }

  lemma EmptyLoop(buf: seq<byte>, ss: seq<string>, corrected: bool, end: nat)
    requires StringsFit(ss) && buf == EncodeStrings(ss) && |ss| == 0 && end == 0
    ensures StringLoop(buf, 0, corrected) == Ok((ss, end))
  {
    assert ss == [];
  }

  /** One turn of the loop: the string read at `sub`, then the rest. */
  lemma StringLoopStep(buf: seq<byte>, sub: nat, corrected: bool, s: string, n: nat, rest: seq<string>, end: nat)
    requires sub < |buf| && ExtractString(sub, buf) == Ok((s, n))
    requires StringLoop(buf, if corrected then n else sub + n, corrected) == Ok((rest, end))
    ensures StringLoop(buf, sub, corrected) == Ok(([s] + rest, end))
  {
  }

  /** The loop ends as soon as the offset reaches the end of the buffer. */
  lemma StringLoopDone(buf: seq<byte>, sub: nat, corrected: bool, ss: seq<string>)
    requires sub >= |buf| && ss == []
    ensures StringLoop(buf, sub, corrected) == Ok((ss, sub))
  {
  }

  lemma AsWrittenOne(buf: seq<byte>, ss: seq<string>, corrected: bool, end: nat)
    requires StringsFit(ss) && |ss| == 1 && buf == EncodeStrings(ss) && end == |buf|
    ensures StringLoop(buf, 0, corrected) == Ok((ss, end))
  {
    assert buf == EncodeString(ss[0]);
    ExtractStringAt(buf, 0, ss[0], |buf|);
    StringLoopStep(buf, 0, corrected, ss[0], |buf|, [], end);
    assert [ss[0]] + [] == ss;
  }

  /** Where the two strings of an encoded pair are read, and where each
      read ends. */
  lemma TwoLayout(buf: seq<byte>, ss: seq<string>)
    requires StringsFit(ss) && |ss| == 2 && buf == EncodeStrings(ss)
    ensures ExtractString(0, buf) == Ok((ss[0], |EncodeString(ss[0])|))
    ensures ExtractString(|EncodeString(ss[0])|, buf) == Ok((ss[1], |buf|))
    ensures 0 < |EncodeString(ss[0])| < |buf|
  {
    var e1, e2 := EncodeString(ss[0]), EncodeString(ss[1]);
    assert buf == e1 + e2 by {
      assert ss[1..][1..] == [] && ss[1..][0] == ss[1];
      assert EncodeStrings(ss[1..]) == e2 + EncodeStrings(ss[1..][1..]);
    }
    StringAtFront(buf, ss[0], e2);
    StringAtBack(buf, e1, ss[1]);
  }

  lemma StringAtFront(buf: seq<byte>, s: string, rest: seq<byte>)
    requires Utf8.ByteLen(s) < U64_LIMIT && buf == EncodeString(s) + rest
    ensures ExtractString(0, buf) == Ok((s, |EncodeString(s)|))
  {
    assert buf[0..|EncodeString(s)|] == EncodeString(s);
    ExtractStringAt(buf, 0, s, |EncodeString(s)|);
  }

  lemma StringAtBack(buf: seq<byte>, front: seq<byte>, s: string)
    requires Utf8.ByteLen(s) < U64_LIMIT && buf == front + EncodeString(s)
    ensures ExtractString(|front|, buf) == Ok((s, |buf|))
  {
    assert buf[|front|..|buf|] == EncodeString(s);
    ExtractStringAt(buf, |front|, s, |buf|);
  }

  /** With the step as written, the second string is read from the right
      place, but its absolute end `|buf|` is then added to the first one's
      end `k`, so the loop stops past the end of the list. */
  lemma TwoSteps(buf: seq<byte>, ss: seq<string>, k: nat, corrected: bool, end: nat)
    requires |ss| == 2 && !corrected && 0 < k < |buf| && end == |buf| + k
    requires ExtractString(0, buf) == Ok((ss[0], k)) && ExtractString(k, buf) == Ok((ss[1], |buf|))
    ensures StringLoop(buf, 0, corrected) == Ok((ss, end))
  {
    assert StringLoop(buf, k, corrected) == Ok(([ss[1]], end)) by {
      LastStep(buf, k, corrected, ss[1], end);
    }
    StringLoopStep(buf, 0, corrected, ss[0], k, [ss[1]], end);
    assert [ss[0]] + [ss[1]] == ss;
  }

  /** The step as written after a string that ends the buffer. */
  lemma LastStep(buf: seq<byte>, k: nat, corrected: bool, s: string, end: nat)
    requires k < |buf| && !corrected && end == k + |buf|
    requires ExtractString(k, buf) == Ok((s, |buf|))
    ensures StringLoop(buf, k, corrected) == Ok(([s], end))
  {
    StringLoopDone(buf, end, corrected, []);
    StringLoopStep(buf, k, corrected, s, |buf|, [], end);
    assert [s] + [] == [s];
  }

  /** An encoded string list reads back: with the corrected step always,
      as written when it holds at most two strings. The returned offset
      is the end of the list plus the overshoot. */
  lemma StringListAt(raw: seq<byte>, o: nat, ss: seq<string>, a: seq<byte>, next: nat, corrected: bool)
    requires StringsFit(ss) && |EncodeStrings(ss)| < U64_LIMIT && a == EncodeList(EncodeStrings(ss))
    requires corrected || |ss| <= 2
    requires o + |a| <= |raw| && raw[o..o + |a|] == a
    requires next == o + |a| + Overshoot(ss, corrected)
    ensures ExtractStringList(o, raw, corrected) == Ok((ss, next))
  {
    var body := EncodeStrings(ss);
    var end := |body| + Overshoot(ss, corrected);
    assert ListBody(o, raw) == Ok(body) by {
      ListLayout(raw, o, body);
    }
    assert StringLoop(body, 0, corrected) == Ok((ss, end)) by {
      LoopOfEncoding(body, ss, corrected, end);
    }
    StringListOf(raw, o, body, corrected, ss, end, next);
  }

  lemma StringListOf(raw: seq<byte>, o: nat, body: seq<byte>, corrected: bool, ss: seq<string>, end: nat, next: nat)
    requires ListBody(o, raw) == Ok(body) && StringLoop(body, 0, corrected) == Ok((ss, end))
    requires next == o + 11 + end
    ensures ExtractStringList(o, raw, corrected) == Ok((ss, next))
  {
  }

  /** The corrected decoder reads back every request the encoder writes. */
  lemma RequestRoundTrip(req: Request)
    requires Encodable(req)
    ensures ExtractParamsFixed(EncodeRequest(req)) == Params(req)
  {
    RequestParts(req, true);
  }

  /** The decoder as written reads back a request with at most one term and
      at most two keywords. */
  lemma AsWrittenShortLists(req: Request)
    requires Encodable(req) && |req.terms| <= 1 && |req.q| <= 2
    ensures ExtractParams(EncodeRequest(req)) == Params(req)
  {
    RequestParts(req, false);
  }

  /** As written, two terms send the keyword list's reader past the end of
      the frame, so a request with two terms and no keywords makes the
      decoder panic, while the corrected decoder reads it back. */
  lemma TwoTermsOverrun(req: Request)
    requires Encodable(req) && |req.terms| == 2 && req.q == []
    ensures ExtractParams(EncodeRequest(req)) == Malformed(OutOfRange)
    ensures ExtractParamsFixed(EncodeRequest(req)) == Params(req)
  {
    RequestRoundTrip(req);
    var a := EncodeList(EncodeIntegers(req.pages));
    var b := EncodeList(EncodeIntegers(req.range));
    var c := EncodeList(EncodeStrings(req.terms));
    var d := EncodeList(EncodeStrings(req.q));
    var raw := EncodeRequest(req);
    assert raw == a + b + c + d;
    var o1, o2, o3 := |a|, |a| + |b|, |a| + |b| + |c|;
    Quarters(raw, a, b, c, d, o1, o2, o3);
    var past := o3 + Overshoot(req.terms, false);
    IntegerParts(raw, req, a, b, o1, o2);
    StringListAt(raw, o2, req.terms, c, past, false);
    FieldPastEnd(raw, past);
    DecodeParamsFails(raw, false, req, o1, o2, past, OutOfRange);
  }

  /** A list reader started fewer than 11 bytes before the end panics. */
  lemma FieldPastEnd(raw: seq<byte>, o: nat)
    requires |raw| < o + 11
    ensures ExtractStringList(o, raw, false) == Err(OutOfRange)
  {
  }

  lemma RequestParts(req: Request, corrected: bool)
    requires Encodable(req)
    requires corrected || (|req.terms| <= 1 && |req.q| <= 2)
    ensures DecodeParams(EncodeRequest(req), corrected) == Params(req)
  {
    var a := EncodeList(EncodeIntegers(req.pages));
    var b := EncodeList(EncodeIntegers(req.range));
    var c := EncodeList(EncodeStrings(req.terms));
    var d := EncodeList(EncodeStrings(req.q));
    var raw := EncodeRequest(req);
    assert raw == a + b + c + d;
    var o1, o2, o3 := |a|, |a| + |b|, |a| + |b| + |c|;
    Quarters(raw, a, b, c, d, o1, o2, o3);
    PartsRoundTrip(raw, req, a, b, c, d, corrected, o1, o2, o3, o3 + |d| + Overshoot(req.q, corrected));
  }

  /** The four lists of a request frame, each read at the end of the one
      before. */
  lemma PartsRoundTrip(raw: seq<byte>, req: Request, a: seq<byte>, b: seq<byte>, c: seq<byte>, d: seq<byte>,
                        corrected: bool, o1: nat, o2: nat, o3: nat, o4: nat)
    requires Encodable(req)
    requires corrected || (|req.terms| <= 1 && |req.q| <= 2)
    requires a == EncodeList(EncodeIntegers(req.pages)) && b == EncodeList(EncodeIntegers(req.range))
    requires c == EncodeList(EncodeStrings(req.terms)) && d == EncodeList(EncodeStrings(req.q))
    requires o1 == |a| && o2 == o1 + |b| && o3 == o2 + |c| && o4 == o3 + |d| + Overshoot(req.q, corrected)
    requires |raw| == o3 + |d|
    requires raw[0..o1] == a && raw[o1..o2] == b && raw[o2..o3] == c && raw[o3..|raw|] == d
    ensures DecodeParams(raw, corrected) == Params(req)
  {
    IntegerParts(raw, req, a, b, o1, o2);
    StringParts(raw, req, c, d, corrected, o2, o3, o4);
    DecodeParamsOf(raw, corrected, req, o1, o2, o3, o4);
  }

  lemma IntegerParts(raw: seq<byte>, req: Request, a: seq<byte>, b: seq<byte>, o1: nat, o2: nat)
    requires Encodable(req)
    requires a == EncodeList(EncodeIntegers(req.pages)) && b == EncodeList(EncodeIntegers(req.range))
    requires o1 == |a| && o2 == o1 + |b| <= |raw|
    requires raw[0..o1] == a && raw[o1..o2] == b
    ensures ExtractIntegerList(0, raw) == Ok((req.pages, o1))
    ensures ExtractIntegerList(o1, raw) == Ok((req.range, o2))
  {
    IntegerListAt(raw, 0, req.pages, a, o1);
    IntegerListAt(raw, o1, req.range, b, o2);
  }

  lemma StringParts(raw: seq<byte>, req: Request, c: seq<byte>, d: seq<byte>, corrected: bool, o2: nat, o3: nat, o4: nat)
    requires Encodable(req)
    requires corrected || (|req.terms| <= 1 && |req.q| <= 2)
    requires c == EncodeList(EncodeStrings(req.terms)) && d == EncodeList(EncodeStrings(req.q))
    requires o3 == o2 + |c| && o4 == o3 + |d| + Overshoot(req.q, corrected) && |raw| == o3 + |d|
    requires raw[o2..o3] == c && raw[o3..|raw|] == d
    ensures ExtractStringList(o2, raw, corrected) == Ok((req.terms, o3))
    ensures ExtractStringList(o3, raw, corrected) == Ok((req.q, o4))
  {
    StringListAt(raw, o2, req.terms, c, o3, corrected);
    StringListAt(raw, o3, req.q, d, o4, corrected);
  }

  /** Where each of four concatenated parts sits. */
  lemma Quarters(s: seq<byte>, a: seq<byte>, b: seq<byte>, c: seq<byte>, d: seq<byte>, o1: nat, o2: nat, o3: nat)
    requires s == a + b + c + d && o1 == |a| && o2 == o1 + |b| && o3 == o2 + |c|
    ensures |s| == o3 + |d|
    ensures s[0..o1] == a && s[o1..o2] == b && s[o2..o3] == c && s[o3..|s|] == d
  {
  }

  /** A failing keyword list makes the whole frame malformed. */
  lemma DecodeParamsFails(raw: seq<byte>, corrected: bool, req: Request, o1: nat, o2: nat, o3: nat, fault: Fault)
    requires ExtractIntegerList(0, raw) == Ok((req.pages, o1))
    requires ExtractIntegerList(o1, raw) == Ok((req.range, o2))
    requires ExtractStringList(o2, raw, corrected) == Ok((req.terms, o3))
    requires ExtractStringList(o3, raw, corrected) == Err(fault)
    ensures DecodeParams(raw, corrected) == Malformed(fault)
  {
  }

  /** The four lists read in turn make up the request. */
  lemma DecodeParamsOf(raw: seq<byte>, corrected: bool, req: Request, o1: nat, o2: nat, o3: nat, o4: nat)
    requires ExtractIntegerList(0, raw) == Ok((req.pages, o1))
    requires ExtractIntegerList(o1, raw) == Ok((req.range, o2))
    requires ExtractStringList(o2, raw, corrected) == Ok((req.terms, o3))
    requires ExtractStringList(o3, raw, corrected) == Ok((req.q, o4))
    ensures DecodeParams(raw, corrected) == Params(req)
  {
  }
}
