/** Bytes and the big-endian integer layouts of Rust's `from_be_bytes` /
    `to_be_bytes` on `u32`, `u64`/`usize` (64-bit) and `i64`. */
module Bytes {

  newtype byte = x: int | 0 <= x < 256

  const U32_LIMIT: nat := 0x1_0000_0000
  const U64_LIMIT: nat := 0x1_0000_0000_0000_0000
  const I64_MIN: int := -0x8000_0000_0000_0000
  const I64_LIMIT: int := 0x8000_0000_0000_0000

  function Pow256(k: nat): (r: nat)
    ensures r >= 1
  {
    if k == 0 then 1 else 256 * Pow256(k - 1)
  }

  lemma Pow256Values()
    ensures Pow256(4) == U32_LIMIT
    ensures Pow256(8) == U64_LIMIT
  {
    assert Pow256(1) == 256;
    assert Pow256(2) == 0x1_0000;
    assert Pow256(3) == 0x100_0000;
    assert Pow256(4) == 0x1_0000_0000;
    assert Pow256(5) == 0x100_0000_0000;
    assert Pow256(6) == 0x1_0000_0000_0000;
    assert Pow256(7) == 0x100_0000_0000_0000;
  }

  /** The unsigned big-endian value of `bs`. */
  function BeNat(bs: seq<byte>): nat
    decreases |bs|
  {
    if |bs| == 0 then 0 else BeNat(bs[..|bs| - 1]) * 256 + bs[|bs| - 1] as nat
  }

  /** The `k`-byte big-endian representation of `n`. */
  function BeBytes(n: nat, k: nat): (r: seq<byte>)
    ensures |r| == k
  {
    if k == 0 then [] else BeBytes(n / 256, k - 1) + [(n % 256) as byte]
  }

  lemma {:induction false} BeNatBound(bs: seq<byte>)
    ensures BeNat(bs) < Pow256(|bs|)
    decreases |bs|
  {
    if |bs| > 0 {
      BeNatBound(bs[..|bs| - 1]);
    }
  }

  /** Writing `n` in `k` bytes and reading it back gives `n`. */
  lemma {:induction false} BeNatOfBeBytes(n: nat, k: nat)
    requires n < Pow256(k)
    ensures BeNat(BeBytes(n, k)) == n
    decreases k
  {
    if k > 0 {
      var r := BeBytes(n, k);
      assert r[..k - 1] == BeBytes(n / 256, k - 1);
      BeNatOfBeBytes(n / 256, k - 1);
    }
  }

  /** Reading `bs` and writing the value back in as many bytes gives `bs`. */
  lemma {:induction false} BeBytesOfBeNat(bs: seq<byte>)
    ensures BeBytes(BeNat(bs), |bs|) == bs
    decreases |bs|
  {
    if |bs| > 0 {
      var k := |bs|;
      var init := bs[..k - 1];
      assert BeNat(bs) / 256 == BeNat(init);
      assert BeNat(bs) % 256 == bs[k - 1] as nat;
      BeBytesOfBeNat(init);
      assert bs == init + [bs[k - 1]];
    }
  }

  /** `i64::from_be_bytes`: two's complement reading of 8 bytes. */
  function BeI64(bs: seq<byte>): (r: int)
    requires |bs| == 8
    ensures I64_MIN <= r < I64_LIMIT
  {
    BeNatBound(bs);
    Pow256Values();
    var u := BeNat(bs);
    if u < I64_LIMIT then u else u - U64_LIMIT
  }

  /** `i64::to_be_bytes`. */
  function I64Bytes(x: int): (r: seq<byte>)
    requires I64_MIN <= x < I64_LIMIT
    ensures |r| == 8
  {
    BeBytes(if x >= 0 then x else x + U64_LIMIT, 8)
  }

  lemma I64RoundTrip(x: int)
    requires I64_MIN <= x < I64_LIMIT
    ensures BeI64(I64Bytes(x)) == x
  {
    Pow256Values();
    BeNatOfBeBytes(if x >= 0 then x else x + U64_LIMIT, 8);
  }

  /** Every 8 bytes are the `i64` encoding of the value they read as. */
  lemma I64BytesOfBeI64(bs: seq<byte>)
    requires |bs| == 8
    ensures I64Bytes(BeI64(bs)) == bs
  {
    Pow256Values();
    BeNatBound(bs);
    BeBytesOfBeNat(bs);
  }

  /** A slice of a slice is a slice of the whole. */
  lemma SliceOfSlice<T>(s: seq<T>, lo: nat, hi: nat, i: nat, j: nat)
    requires lo <= hi <= |s| && i <= j <= hi - lo
    ensures s[lo..hi][i..j] == s[lo + i..lo + j]
  {
    var a := s[lo..hi][i..j];
    forall k | 0 <= k < j - i
      ensures a[k] == s[lo + i + k]
    {
      assert a[k] == s[lo..hi][i + k];
    }
  }

  /** A slice of a part of `s` that equals `part` is a slice of `part`. */
  lemma SliceOfPart<T>(s: seq<T>, p: nat, part: seq<T>, lo: nat, hi: nat)
    requires p + |part| <= |s| && s[p..p + |part|] == part
    requires lo <= hi <= |part|
    ensures s[p + lo..p + hi] == part[lo..hi]
  {
    SliceOfSlice(s, p, p + |part|, lo, hi);
  }
}
