/** Rust's `str::parse::<usize>()` (64-bit) and `str::parse::<i64>()`:
    an optional sign, then one or more ASCII decimal digits whose exact value
    must fit the target type. Leading zeros are accepted; anything else is an
    error. */
module Decimal {
  import opened Wrappers
  import opened Bytes

  predicate IsDigit(c: char)
  {
    '0' <= c <= '9'
  }

  predicate AllDigits(s: string)
  {
    forall i :: 0 <= i < |s| ==> IsDigit(s[i])
  }

  /** The value of a digit string, most significant digit first. */
  function DigitsValue(s: string): nat
    requires AllDigits(s)
    decreases |s|
  {
    if |s| == 0 then 0 else DigitsValue(s[..|s| - 1]) * 10 + (s[|s| - 1] as int - '0' as int)
  }

  /** The digits after an optional leading sign; `None` when the sign is
      all there is or (for an unsigned target) the sign is `-`. */
  function Unsigned(s: string, signed: bool): Option<(bool, string)>
  {
    if |s| == 0 then None
    else if (s[0] == '+' || s[0] == '-') && |s| == 1 then None
    else if s[0] == '+' then Some((false, s[1..]))
    else if s[0] == '-' && signed then Some((true, s[1..]))
    else Some((false, s))
  }

  /** `s.parse::<usize>()` on a 64-bit target. */
  function ParseUsize(s: string): (r: Option<nat>)
    ensures r.Some? ==> r.value < U64_LIMIT
  {
    match Unsigned(s, false)
    case None => None
    case Some((_, digits)) =>
      if AllDigits(digits) && DigitsValue(digits) < U64_LIMIT then Some(DigitsValue(digits)) else None
  }

  /** `s.parse::<i64>()`. */
  function ParseI64(s: string): (r: Option<int>)
    ensures r.Some? ==> I64_MIN <= r.value < I64_LIMIT
  {
    match Unsigned(s, true)
    case None => None
    case Some((negative, digits)) =>
      if !AllDigits(digits) then None
      else
        var v: int := DigitsValue(digits);
        if negative then (if v <= I64_LIMIT then Some(-v) else None)
        else (if v < I64_LIMIT then Some(v) else None)
  }

  /** Canonical decimal text of `n` (no sign, no leading zeros). */
  function Show(n: nat): (r: string)
    ensures |r| >= 1 && AllDigits(r)
  {
    if n < 10 then [('0' as int + n) as char] else Show(n / 10) + [('0' as int + n % 10) as char]
  }

  /** Canonical decimal text of a signed value. */
  function ShowSigned(x: int): string
  {
    if x < 0 then "-" + Show(-x) else Show(x)
  }

  /** Unsigned decimal text never holds the `-` that separates page from size. */
  lemma NoDashInNumber(n: nat)
    ensures '-' !in Show(n)
  {
    var s := Show(n);
    assert forall i :: 0 <= i < |s| ==> s[i] != '-';
  }

  lemma {:induction false} DigitsValueOfShow(n: nat)
    ensures DigitsValue(Show(n)) == n
    decreases n
  {
    if n >= 10 {
      var s := Show(n);
      assert s[..|s| - 1] == Show(n / 10);
      DigitsValueOfShow(n / 10);
    }
  }

  /** Every `usize` printed in decimal parses back to itself. */
  lemma ParseUsizeShow(n: nat)
    requires n < U64_LIMIT
    ensures ParseUsize(Show(n)) == Some(n)
  {
    DigitsValueOfShow(n);
  }

  /** Every `i64` printed in decimal parses back to itself. */
  lemma ParseI64Show(x: int)
    requires I64_MIN <= x < I64_LIMIT
    ensures ParseI64(ShowSigned(x)) == Some(x)
  {
    var s := ShowSigned(x);
    if x < 0 {
      DigitsValueOfShow(-x);
      assert s[0] == '-' && |s| > 1;
      assert s[1..] == Show(-x);
      assert Unsigned(s, true) == Some((true, Show(-x)));
    } else {
      DigitsValueOfShow(x);
      assert s[0] != '+' && s[0] != '-';
      assert Unsigned(s, true) == Some((false, Show(x)));
    }
  }

  /** What a successful unsigned parse saw: an optional `+` and then digits
      with exactly that value. */
  lemma ParseUsizeShape(s: string)
    requires ParseUsize(s).Some?
    ensures exists k :: 0 <= k <= 1 && k < |s| && (k == 1 ==> s[0] == '+') && AllDigits(s[k..])
                        && DigitsValue(s[k..]) == ParseUsize(s).value
  {
    if s[0] == '+' {
      assert AllDigits(s[1..]) && DigitsValue(s[1..]) == ParseUsize(s).value;
    } else {
      assert s[0..] == s;
    }
  }
}
