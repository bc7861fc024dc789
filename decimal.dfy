/**
 * The fixed-point decoder `to_decimal_int`: the digit bytes of a reading,
 * read left to right in base 10 with every '.' skipped, so "25.9" is 259.
 */
module Decimal {
  import opened Bytes

  predicate IsDigit(b: u8) { ZERO <= b <= NINE }

  /** Every byte is a decimal digit or the decimal point. */
  predicate DigitsAndDots(s: seq<u8>) {
    forall j :: 0 <= j < |s| ==> IsDigit(s[j]) || s[j] == DOT
  }

  predicate AllDigits(d: seq<u8>) {
    forall j :: 0 <= j < |d| ==> IsDigit(d[j])
  }

  /** The bytes of s other than '.', in their original order. */
  function StripDots(s: seq<u8>): (r: seq<u8>)
    ensures DigitsAndDots(s) ==> AllDigits(r)
    ensures forall j :: 0 <= j < |r| ==> r[j] != DOT
  {
    if s == [] then []
    else if s[|s| - 1] == DOT then StripDots(s[..|s| - 1])
    else StripDots(s[..|s| - 1]) + [s[|s| - 1]]
  }

  /** The base-10 value of a digit string, most significant digit first. */
  function Base10(d: seq<u8>): nat
    requires AllDigits(d)
  {
    if d == [] then 0 else Base10(d[..|d| - 1]) * 10 + (d[|d| - 1] - ZERO) as int
  }

  /** The fixed-point value (tenths) a reading denotes: its digits, dots removed, in base 10. */
  function DecimalValue(s: seq<u8>): nat
    requires DigitsAndDots(s)
  {
    Base10(StripDots(s))
  }

  /** The inputs `to_decimal_int` handles without a u8 or u32 overflow. */
  predicate Decodable(s: seq<u8>) {
    DigitsAndDots(s) && DecimalValue(s) <= U32_MAX as int
  }

  /**
   * src/main.rs `to_decimal_int`: one pass over the bytes, skipping '.',
   * folding each digit into `accumulator * 10 + digit` in u32 arithmetic.
   * The u8 subtraction `v - b'0'` and the u32 operations are checked here,
   * which is why the digits-only and no-overflow conditions are required.
   */
  method ToDecimalInt(val: seq<u8>) returns (accumulator: u32)
    requires Decodable(val)
    ensures accumulator as int == DecimalValue(val)
  {
    accumulator := 0;
    for i := 0 to |val|
      invariant accumulator as int == DecimalValue(val[..i])
    {
      var v := val[i];
      assert val[..i + 1][..i] == val[..i];
      if v != DOT {
        var d := v - ZERO;
        assert StripDots(val[..i + 1]) == StripDots(val[..i]) + [v];
        assert (StripDots(val[..i]) + [v])[..|StripDots(val[..i])|] == StripDots(val[..i]);
        PrefixValueBounded(val, i + 1);
        accumulator := accumulator * 10;
        accumulator := accumulator + d as u32;
      }
    }
    assert val[..|val|] == val;
  }

  /** Appending bytes never lowers the decoded value, so every prefix fits when the whole does. */
  lemma {:induction false} PrefixValueBounded(s: seq<u8>, k: nat)
    requires DigitsAndDots(s) && k <= |s|
    ensures DigitsAndDots(s[..k])
    ensures DecimalValue(s[..k]) <= DecimalValue(s)
    decreases |s| - k
  {
    assert DigitsAndDots(s[..k]);
    if k < |s| {
      PrefixValueBounded(s, k + 1);
      var p := s[..k + 1];
      assert p[..|p| - 1] == s[..k];
      if p[|p| - 1] != DOT {
        assert StripDots(p) == StripDots(s[..k]) + [p[|p| - 1]];
        assert (StripDots(s[..k]) + [p[|p| - 1]])[..|StripDots(s[..k])|] == StripDots(s[..k]);
      }
    } else {
      assert s[..k] == s;
    }
  }

  lemma {:induction false} StripDotsAppend(a: seq<u8>, b: seq<u8>)
    ensures StripDots(a + b) == StripDots(a) + StripDots(b)
    decreases |b|
  {
    if b == [] {
      assert a + b == a;
    } else {
      var b' := b[..|b| - 1];
      assert (a + b)[..|a + b| - 1] == a + b';
      StripDotsAppend(a, b');
    }
  }

  /** A '.' anywhere in a reading does not change its value. */
  lemma IgnoresDot(a: seq<u8>, b: seq<u8>)
    requires DigitsAndDots(a) && DigitsAndDots(b)
    ensures DigitsAndDots(a + [DOT] + b) && DigitsAndDots(a + b)
    ensures DecimalValue(a + [DOT] + b) == DecimalValue(a + b)
  {
    StripDotsAppend(a + [DOT], b);
    StripDotsAppend(a, [DOT]);
    StripDotsAppend(a, b);
    assert StripDots([DOT]) == [];
  }

  /** The decimal digits of n, most significant first, without leading zeros. */
  function Digits(n: nat): (d: seq<u8>)
    ensures |d| > 0 && AllDigits(d)
  {
    if n < 10 then [ZERO + n as u8] else Digits(n / 10) + [ZERO + (n % 10) as u8]
  }

  /** The reading with one fractional digit that denotes n tenths, e.g. 259 as "25.9". */
  function Format(n: nat): (s: seq<u8>)
    ensures DigitsAndDots(s)
  {
    Digits(n / 10) + [DOT, ZERO + (n % 10) as u8]
  }

  lemma {:induction false} Base10Digits(n: nat)
    ensures Base10(Digits(n)) == n
  {
    if n >= 10 {
      Base10Digits(n / 10);
      var d := Digits(n);
      assert d[..|d| - 1] == Digits(n / 10);
    }
  }

  lemma {:induction false} StripDotsOfDigits(d: seq<u8>)
    requires AllDigits(d)
    ensures StripDots(d) == d
    decreases |d|
  {
    if d != [] {
      StripDotsOfDigits(d[..|d| - 1]);
      assert d[..|d| - 1] + [d[|d| - 1]] == d;
    }
  }

  lemma Base10Append(d: seq<u8>, x: u8)
    requires AllDigits(d) && IsDigit(x)
    ensures AllDigits(d + [x])
    ensures Base10(d + [x]) == Base10(d) * 10 + (x - ZERO) as int
  {
    assert (d + [x])[..|d|] == d;
  }

  /** Decoding is a left inverse of formatting: every fixed-point value survives the round trip. */
  lemma {:induction false} DecodeFormat(n: nat)
    ensures DecimalValue(Format(n)) == n
  {
    var d := Digits(n / 10);
    var last: u8 := ZERO + (n % 10) as u8;
    assert Format(n) == (d + [DOT]) + [last];
    StripDotsAppend(d + [DOT], [last]);
    StripDotsAppend(d, [DOT]);
    StripDotsOfDigits(d);
    assert StripDots([DOT]) == [];
    assert StripDots([last]) == [last];
    assert StripDots(Format(n)) == d + [last];
    Base10Append(d, last);
    Base10Digits(n / 10);
    assert (last - ZERO) as int == n % 10;
  }
}
