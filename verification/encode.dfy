/** `encode_result`: the response frame
    `[u32 total length][reserved byte][u32 payload length][UTF-8 payload]`,
    all lengths big-endian, total = payload length + 5. */
module ResponseFrame {
  import opened Wrappers
  import opened Bytes
  import Utf8

  /** Why encoding panics: `ret_len + 5` overflows `u32`. */
  datatype Fault = LengthOverflow

  const HeaderSize: nat := 9

  /** `encode_result`. The payload length is cast to `u32` (a truncation);
      the `+ 5` is checked arithmetic. */
  function EncodeResult(result: string): (r: Result<seq<byte>, Fault>)
    ensures r.Ok? <==> Utf8.ByteLen(result) % U32_LIMIT + 5 < U32_LIMIT
    ensures r.Ok? ==>
      var f := r.value;
      && |f| == Utf8.ByteLen(result) + HeaderSize
      && BeNat(f[0..4]) == Utf8.ByteLen(result) % U32_LIMIT + 5
      && f[4] == 0
      && BeNat(f[5..9]) == Utf8.ByteLen(result) % U32_LIMIT
      && f[9..] == Utf8.Encode(result)
  {
    var payload := Utf8.Encode(result);
    Utf8.EncodeLength(result);
    var retLen := |payload| % U32_LIMIT;
    if retLen + 5 >= U32_LIMIT then Err(LengthOverflow)
    else
      var f := BeBytes(retLen + 5, 4) + [0] + BeBytes(retLen, 4) + payload;
      Pow256Values();
      BeNatOfBeBytes(retLen + 5, 4);
      BeNatOfBeBytes(retLen, 4);
      assert f[0..4] == BeBytes(retLen + 5, 4);
      assert f[5..9] == BeBytes(retLen, 4);
      Ok(f)
  }

  /** The reading side of the frame: check both length fields and the
      reserved byte, then decode the payload. */
  function DecodeResponse(f: seq<byte>): Option<string>
  {
    if |f| < HeaderSize then None
    else
      var inner := BeNat(f[5..9]);
      if BeNat(f[0..4]) != inner + 5 || f[4] != 0 || |f| != HeaderSize + inner then None
      else Utf8.Decode(f[9..])
  }

  /** Any response shorter than `2^32 - 5` bytes is recovered exactly from
      its frame. */
  lemma ResponseRoundTrip(result: string, f: seq<byte>)
    requires EncodeResult(result) == Ok(f) && Utf8.ByteLen(result) < U32_LIMIT - 5
    ensures DecodeResponse(f) == Some(result)
  {
    SmallLength(Utf8.ByteLen(result));
    DecodeLayout(f, result);
  }

  /** A length below `2^32` survives the cast to `u32`. */
  lemma SmallLength(n: nat)
    requires n < U32_LIMIT
    ensures n % U32_LIMIT == n
  {
  }

  lemma DecodeLayout(f: seq<byte>, s: string)
    requires |f| == HeaderSize + Utf8.ByteLen(s)
    requires BeNat(f[0..4]) == Utf8.ByteLen(s) + 5 && f[4] == 0 && BeNat(f[5..9]) == Utf8.ByteLen(s)
    requires f[9..] == Utf8.Encode(s)
    ensures DecodeResponse(f) == Some(s)
  {
    Utf8.DecodeEncode(s);
  }

  /** Every frame the reader accepts is the encoding of what it reads. */
  lemma ResponseFrameUnique(f: seq<byte>)
    requires DecodeResponse(f).Some?
    ensures EncodeResult(DecodeResponse(f).value) == Ok(f)
  {
    var s := DecodeResponse(f).value;
    var n := Utf8.ByteLen(s);
    assert |f| == HeaderSize + n && BeNat(f[0..4]) == n + 5 && f[4] == 0 && BeNat(f[5..9]) == n
        && f[9..] == Utf8.Encode(s) by {
      Utf8.EncodeDecode(f[9..]);
      Utf8.EncodeLength(s);
    }
    assert n + 5 < U32_LIMIT by {
      BeNatBound(f[0..4]);
      Pow256Values();
    }
    SmallLength(n);
    var g := EncodeResult(s).value;
    SameFrame(f, g);
  }

  /** Two frames with the same length fields, reserved byte and payload are
      the same bytes. */
  lemma SameFrame(f: seq<byte>, g: seq<byte>)
    requires |f| == |g| >= HeaderSize
    requires BeNat(f[0..4]) == BeNat(g[0..4]) && f[4] == g[4] && BeNat(f[5..9]) == BeNat(g[5..9]) && f[9..] == g[9..]
    ensures f == g
  {
    SameBytes(g[0..4], f[0..4]);
    SameBytes(g[5..9], f[5..9]);
    assert g == g[0..4] + [g[4]] + g[5..9] + g[9..];
    assert f == f[0..4] + [f[4]] + f[5..9] + f[9..];
  }

  lemma SameBytes(a: seq<byte>, b: seq<byte>)
    requires |a| == |b| && BeNat(a) == BeNat(b)
    ensures a == b
  {
    BeBytesOfBeNat(a);
    BeBytesOfBeNat(b);
  }

  /** A payload of `2^32 + 1` bytes or more wraps the length fields: the frame
      is written, but its length fields no longer describe it. */
  lemma TruncatedLength(result: string)
    requires Utf8.ByteLen(result) == U32_LIMIT + 3
    ensures EncodeResult(result).Ok?
    ensures BeNat(EncodeResult(result).value[5..9]) == 3
  {
  }
}
