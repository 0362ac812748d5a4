/** UTF-8 as defined in section 3 of RFC 3629: the encoding of a Unicode
    scalar value in one to four bytes, and the strict decoder of Rust's
    `std::str::from_utf8`, which accepts exactly the well-formed sequences
    of that section (no overlong forms, no surrogates, nothing above
    U+10FFFF). */
module Utf8 {
  import opened Wrappers
  import opened Bytes

  /** `char::len_utf8`. */
  function Width(c: char): (w: nat)
    ensures 1 <= w <= 4
  {
    var n := c as int;
    if n < 0x80 then 1 else if n < 0x800 then 2 else if n < 0x1_0000 then 3 else 4
  }

  /** `str::len`: the number of bytes of the UTF-8 form of `s`. */
  function ByteLen(s: string): nat
    decreases |s|
  {
    if |s| == 0 then 0 else Width(s[0]) + ByteLen(s[1..])
  }

  function EncodeChar(c: char): (r: seq<byte>)
    ensures |r| == Width(c)
  {
    var n := c as int;
    if n < 0x80 then [n as byte]
    else if n < 0x800 then [(0xC0 + n / 0x40) as byte, (0x80 + n % 0x40) as byte]
    else if n < 0x1_0000 then
      [(0xE0 + n / 0x1000) as byte, (0x80 + (n / 0x40) % 0x40) as byte, (0x80 + n % 0x40) as byte]
    else
      [(0xF0 + n / 0x4_0000) as byte, (0x80 + (n / 0x1000) % 0x40) as byte,
       (0x80 + (n / 0x40) % 0x40) as byte, (0x80 + n % 0x40) as byte]
  }

  /** `str::as_bytes`. */
  function Encode(s: string): (r: seq<byte>)
    decreases |s|
  {
    if |s| == 0 then [] else EncodeChar(s[0]) + Encode(s[1..])
  }

  predicate IsCont(b: byte)
  {
    0x80 <= b < 0xC0
  }

  /** The scalar value at the front of `b` and its byte width, when `b`
      starts with a well-formed sequence (the table in section 4 of
      RFC 3629). */
  function DecodeFirst(b: seq<byte>): (r: Option<(char, nat)>)
    requires |b| > 0
    ensures r.Some? ==> 1 <= r.value.1 <= |b| && r.value.1 == Width(r.value.0)
  {
    var b0 := b[0] as int;
    if b0 < 0x80 then Some((b0 as char, 1))
    else if 0xC2 <= b0 <= 0xDF then
      if |b| >= 2 && IsCont(b[1]) then
        Some((((b0 - 0xC0) * 0x40 + (b[1] as int - 0x80)) as char, 2))
      else None
    else if 0xE0 <= b0 <= 0xEF then
      if |b| >= 3 && IsCont(b[1]) && IsCont(b[2])
        && (b0 != 0xE0 || b[1] >= 0xA0) && (b0 != 0xED || b[1] < 0xA0)
      then
        Some((((b0 - 0xE0) * 0x1000 + (b[1] as int - 0x80) * 0x40 + (b[2] as int - 0x80)) as char, 3))
      else None
    else if 0xF0 <= b0 <= 0xF4 then
      if |b| >= 4 && IsCont(b[1]) && IsCont(b[2]) && IsCont(b[3])
        && (b0 != 0xF0 || b[1] >= 0x90) && (b0 != 0xF4 || b[1] < 0x90)
      then
        Some((((b0 - 0xF0) * 0x4_0000 + (b[1] as int - 0x80) * 0x1000
               + (b[2] as int - 0x80) * 0x40 + (b[3] as int - 0x80)) as char, 4))
      else None
    else None
  }

  /** `std::str::from_utf8`: `None` on any ill-formed input. */
  function Decode(b: seq<byte>): Option<string>
    decreases |b|
  {
    if |b| == 0 then Some("")
    else
      match DecodeFirst(b)
      case None => None
      case Some((c, w)) =>
        match Decode(b[w..])
        case None => None
        case Some(rest) => Some([c] + rest)
  }

  lemma {:induction false} EncodeLength(s: string)
    ensures |Encode(s)| == ByteLen(s)
    decreases |s|
  {
    if |s| > 0 {
      EncodeLength(s[1..]);
    }
  }

  lemma {:induction false} EncodeAppend(a: string, b: string)
    ensures Encode(a + b) == Encode(a) + Encode(b)
    decreases |a|
  {
    if |a| == 0 {
      assert a + b == b;
    } else {
      EncodeAppend(a[1..], b);
      assert (a + b)[1..] == a[1..] + b;
      assert (a + b)[0] == a[0];
      calc {
        Encode(a + b);
        EncodeChar(a[0]) + Encode(a[1..] + b);
        EncodeChar(a[0]) + (Encode(a[1..]) + Encode(b));
        (EncodeChar(a[0]) + Encode(a[1..])) + Encode(b);
      }
    }
  }

  lemma ByteLenAppend(a: string, b: string)
    ensures ByteLen(a + b) == ByteLen(a) + ByteLen(b)
  {
    EncodeAppend(a, b);
    EncodeLength(a + b);
    EncodeLength(a);
    EncodeLength(b);
  }

  /** A character's encoding is decoded back to that character. */
  lemma DecodeFirstOfEncodeChar(c: char, rest: seq<byte>)
    ensures DecodeFirst(EncodeChar(c) + rest) == Some((c, Width(c)))
  {
    var n := c as int;
    if n < 0x80 {
    } else if n < 0x800 {
      DecodeTwo(c, rest);
    } else if n < 0x1_0000 {
      DecodeThree(c, rest);
    } else {
      DecodeFour(c, rest);
    }
  }

  lemma DecodeTwo(c: char, rest: seq<byte>)
    requires 0x80 <= c as int < 0x800
    ensures DecodeFirst(EncodeChar(c) + rest) == Some((c, 2))
  {
    var n := c as int;
    var b := EncodeChar(c) + rest;
    assert b[0] as int == 0xC0 + n / 0x40 && b[1] as int == 0x80 + n % 0x40;
    assert (n / 0x40) * 0x40 + n % 0x40 == n;
  }

  lemma DecodeThree(c: char, rest: seq<byte>)
    requires 0x800 <= c as int < 0x1_0000
    ensures DecodeFirst(EncodeChar(c) + rest) == Some((c, 3))
  {
    var n := c as int;
    var b := EncodeChar(c) + rest;
    var hi, mid, lo := n / 0x1000, (n / 0x40) % 0x40, n % 0x40;
    assert b[0] as int == 0xE0 + hi && b[1] as int == 0x80 + mid && b[2] as int == 0x80 + lo;
    assert hi * 0x1000 + mid * 0x40 + lo == n by {
      assert hi * 0x40 + mid == n / 0x40;
      assert (n / 0x40) * 0x40 + lo == n;
    }
  }

  lemma DecodeFour(c: char, rest: seq<byte>)
    requires 0x1_0000 <= c as int
    ensures DecodeFirst(EncodeChar(c) + rest) == Some((c, 4))
  {
    var n := c as int;
    var b := EncodeChar(c) + rest;
    var top, hi, mid, lo := n / 0x4_0000, (n / 0x1000) % 0x40, (n / 0x40) % 0x40, n % 0x40;
    FourDigits(n);
    assert b[0] as int == 0xF0 + top && b[1] as int == 0x80 + hi;
    assert b[2] as int == 0x80 + mid && b[3] as int == 0x80 + lo;
  }

  /** The four base-64 digits of a supplementary-plane scalar value, and the
      ranges section 4 of RFC 3629 demands of the first two. */
  lemma FourDigits(n: int)
    requires 0x1_0000 <= n < 0x11_0000
    ensures var top, hi, mid, lo := n / 0x4_0000, (n / 0x1000) % 0x40, (n / 0x40) % 0x40, n % 0x40;
      && top * 0x4_0000 + hi * 0x1000 + mid * 0x40 + lo == n
      && 0 <= top <= 4
      && (top != 0 || hi >= 0x10)
      && (top != 4 || hi < 0x10)
  {
    var top, hi, mid, lo := n / 0x4_0000, (n / 0x1000) % 0x40, (n / 0x40) % 0x40, n % 0x40;
    assert top * 0x40 + hi == n / 0x1000;
    assert (n / 0x1000) * 0x40 + mid == n / 0x40;
    assert (n / 0x40) * 0x40 + lo == n;
  }

  /** A well-formed sequence at the front of `b` is the encoding of the
      character it decodes to. */
  lemma EncodeCharOfDecodeFirst(b: seq<byte>)
    requires |b| > 0 && DecodeFirst(b).Some?
    ensures EncodeChar(DecodeFirst(b).value.0) == b[..DecodeFirst(b).value.1]
  {
    var b0 := b[0] as int;
    if 0xC2 <= b0 <= 0xDF {
      EncodeTwo(b);
    } else if 0xE0 <= b0 <= 0xEF {
      EncodeThree(b);
    } else if 0xF0 <= b0 {
      EncodeFour(b);
    }
  }

  lemma EncodeTwo(b: seq<byte>)
    requires |b| > 0 && DecodeFirst(b).Some? && 0xC2 <= b[0] <= 0xDF
    ensures EncodeChar(DecodeFirst(b).value.0) == b[..2]
  {
    var n := DecodeFirst(b).value.0 as int;
    var x0, x1 := b[0] as int - 0xC0, b[1] as int - 0x80;
    assert n == x0 * 0x40 + x1;
    assert n / 0x40 == x0 && n % 0x40 == x1;
  }

  lemma EncodeThree(b: seq<byte>)
    requires |b| > 0 && DecodeFirst(b).Some? && 0xE0 <= b[0] <= 0xEF
    ensures EncodeChar(DecodeFirst(b).value.0) == b[..3]
  {
    var n := DecodeFirst(b).value.0 as int;
    var x0, x1, x2 := b[0] as int - 0xE0, b[1] as int - 0x80, b[2] as int - 0x80;
    assert n == x0 * 0x1000 + x1 * 0x40 + x2;
    assert n / 0x40 == x0 * 0x40 + x1 && n % 0x40 == x2;
    assert n / 0x1000 == x0 && (n / 0x40) % 0x40 == x1;
  }

  lemma EncodeFour(b: seq<byte>)
    requires |b| > 0 && DecodeFirst(b).Some? && 0xF0 <= b[0]
    ensures EncodeChar(DecodeFirst(b).value.0) == b[..4]
  {
    var n := DecodeFirst(b).value.0 as int;
    var x0, x1, x2, x3 := b[0] as int - 0xF0, b[1] as int - 0x80, b[2] as int - 0x80, b[3] as int - 0x80;
    assert n == x0 * 0x4_0000 + x1 * 0x1000 + x2 * 0x40 + x3;
    assert n / 0x40 == x0 * 0x1000 + x1 * 0x40 + x2 && n % 0x40 == x3;
    assert n / 0x1000 == x0 * 0x40 + x1 && (n / 0x40) % 0x40 == x2;
    assert n / 0x4_0000 == x0 && (n / 0x1000) % 0x40 == x1;
  }

  /** Decoding the encoding of a string gives the string back. */
  lemma {:induction false} DecodeEncode(s: string)
    ensures Decode(Encode(s)) == Some(s)
    decreases |s|
  {
    if |s| > 0 {
      var e := Encode(s);
      DecodeFirstOfEncodeChar(s[0], Encode(s[1..]));
      assert e[Width(s[0])..] == Encode(s[1..]);
      DecodeEncode(s[1..]);
      assert [s[0]] + s[1..] == s;
    }
  }

  /** Whatever decodes to a string is exactly that string's encoding, so the
      decoder accepts nothing but well-formed encodings. */
  lemma {:induction false} EncodeDecode(b: seq<byte>)
    requires Decode(b).Some?
    ensures Encode(Decode(b).value) == b
    decreases |b|
  {
    if |b| > 0 {
      var w := DecodeFirst(b).value.1;
      var c := DecodeFirst(b).value.0;
      EncodeCharOfDecodeFirst(b);
      EncodeDecode(b[w..]);
      var s := Decode(b).value;
      assert s == [c] + Decode(b[w..]).value;
      assert s[1..] == Decode(b[w..]).value;
      assert b == b[..w] + b[w..];
    }
  }

  lemma {:induction false} AsciiEncoding(s: string)
    requires forall i :: 0 <= i < |s| ==> (s[i] as int) < 0x80
    ensures ByteLen(s) == |s|
    decreases |s|
  {
    if |s| > 0 {
      AsciiEncoding(s[1..]);
    }
  }
}
