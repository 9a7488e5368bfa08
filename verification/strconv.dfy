/** The part of Go's `strconv` package the exporter relies on. */
module Strconv {
  import opened Base

  /** The error a `strconv` parse reports: none, `ErrSyntax` or `ErrRange`. */
  datatype NumError = NoError | SyntaxError | RangeError

  /** What `strconv.ParseUint(s, 10, 64)` returns: a value and an error, both always present. */
  datatype UintParse = UintParse(value: u64, err: NumError)

  /** What `strconv.ParseFloat(s, 64)` returns, with the float64 as a real. Float parsing itself is
      not modelled: callers receive it as a function `string -> FloatParse`. */
  datatype FloatParse = FloatParse(value: real, ok: bool)

  predicate IsDigit(c: char) {
    '0' <= c <= '9'
  }

  predicate AllDigits(s: string) {
    forall i :: 0 <= i < |s| ==> IsDigit(s[i])
  }

  function DigitValue(c: char): (d: nat)
    requires IsDigit(c)
    ensures d < 10
  {
    (c as int) - ('0' as int)
  }

  function DigitChar(d: nat): (c: char)
    requires d < 10
    ensures IsDigit(c) && DigitValue(c) == d
  {
    (('0' as int) + d) as char
  }

  /** The number a string of decimal digits denotes, most significant digit first. */
  function Decimal(s: string): nat
    requires AllDigits(s)
  {
    if |s| == 0 then 0 else Decimal(s[..|s| - 1]) * 10 + DigitValue(s[|s| - 1])
  }

  /** Index of the first character that is not a decimal digit, or |s|. */
  function FirstNonDigit(s: string): (k: nat)
    ensures k <= |s|
    ensures AllDigits(s[..k])
    ensures k < |s| ==> !IsDigit(s[k])
  {
    if |s| == 0 || !IsDigit(s[0]) then 0
    else
      var k := 1 + FirstNonDigit(s[1..]);
      assert s[..k] == [s[0]] + s[1..][..k - 1];
      k
  }

  /** Go's overflow guard for base 10: an accumulator at or above it cannot be multiplied by 10. */
  const Cutoff: int := MaxU64 / 10 + 1

  /** `strconv.ParseUint(s, 10, 64)`. The digits are consumed left to right; the first non-digit
      stops with a syntax error and value 0, and an accumulator that would exceed 2^64-1 stops with
      a range error and value 2^64-1, whichever comes first. No sign, prefix or underscore is
      accepted in base 10. */
  function ParseUint(s: string): (r: UintParse)
    ensures r.err == SyntaxError ==> r.value == 0
    ensures r.err == RangeError ==> r.value == MaxU64
    ensures r.err == NoError ==> |s| > 0 && AllDigits(s)
  {
    if |s| == 0 then UintParse(0, SyntaxError) else ParseDigits(s, 0, 0)
  }

  function ParseDigits(s: string, i: nat, n: u64): (r: UintParse)
    requires i <= |s|
    ensures r.err == SyntaxError ==> r.value == 0
    ensures r.err == RangeError ==> r.value == MaxU64
    ensures r.err == NoError ==> AllDigits(s[i..])
    decreases |s| - i
  {
    if i == |s| then UintParse(n, NoError)
    else if !IsDigit(s[i]) then UintParse(0, SyntaxError)
    else if n >= Cutoff then UintParse(MaxU64, RangeError)
    else if n * 10 + DigitValue(s[i]) > MaxU64 then UintParse(MaxU64, RangeError)
    else ParseDigits(s, i + 1, n * 10 + DigitValue(s[i]))
  }

  lemma {:induction false} DecimalMonotone(s: string, j: nat, k: nat)
    requires j <= k <= |s|
    requires AllDigits(s[..k])
    ensures AllDigits(s[..j])
    ensures Decimal(s[..j]) <= Decimal(s[..k])
    decreases k - j
  {
    assert s[..k][..j] == s[..j];
    if j < k {
      assert s[..k][..k - 1] == s[..k - 1];
      DecimalMonotone(s, j, k - 1);
    }
  }

  /** The value of ParseUint in terms of the decimal value of the string's leading digits. */
  lemma ParseUintValue(s: string)
    ensures var k := FirstNonDigit(s);
      ParseUint(s) ==
        if |s| == 0 then UintParse(0, SyntaxError)
        else if Decimal(s[..k]) > MaxU64 then UintParse(MaxU64, RangeError)
        else if k < |s| then UintParse(0, SyntaxError)
        else UintParse(Decimal(s[..k]), NoError)
  {
    if |s| > 0 {
      assert s[..0] == "";
      ParseDigitsValue(s, 0, 0);
    }
  }

  lemma {:induction false} ParseDigitsValue(s: string, i: nat, n: u64)
    requires i <= FirstNonDigit(s)
    requires AllDigits(s[..i]) && n == Decimal(s[..i])
    ensures var k := FirstNonDigit(s);
      ParseDigits(s, i, n) ==
        if Decimal(s[..k]) > MaxU64 then UintParse(MaxU64, RangeError)
        else if k < |s| then UintParse(0, SyntaxError)
        else UintParse(Decimal(s[..k]), NoError)
    decreases |s| - i
  {
    var k := FirstNonDigit(s);
    if i == |s| {
    } else if i == k {
    } else {
      var d := DigitValue(s[i]);
      assert s[..i + 1][..i] == s[..i];
      assert Decimal(s[..i + 1]) == n * 10 + d;
      DecimalMonotone(s, i + 1, k);
      if n * 10 + d > MaxU64 {
      } else {
        ParseDigitsValue(s, i + 1, n * 10 + d);
      }
    }
  }

  /** Decimal formatting of a uint64, the inverse of ParseUint (`strconv.FormatUint(n, 10)`). */
  function FormatUint(n: nat): (s: string)
    ensures |s| > 0 && AllDigits(s)
    ensures Decimal(s) == n
  {
    if n < 10 then [DigitChar(n)]
    else
      var s := FormatUint(n / 10) + [DigitChar(n % 10)];
      assert s[..|s| - 1] == FormatUint(n / 10);
      s
  }

  /** Parsing a formatted uint64 gives it back without error. */
  lemma ParseFormatUint(n: u64)
    ensures ParseUint(FormatUint(n)) == UintParse(n, NoError)
  {
    var s := FormatUint(n);
    ParseUintValue(s);
    assert s[..|s|] == s;
  }

  /** Field `i` of a split line read as a uint64 with the parse error dropped: 0 when there is no
      such field, 0 for a malformed field and 2^64-1 for an overlong number. */
  function UintField(parts: seq<string>, i: nat): (v: u64)
    ensures i >= |parts| ==> v == 0
    ensures i < |parts| && |parts[i]| > 0 && AllDigits(parts[i]) ==>
              v == if Decimal(parts[i]) <= MaxU64 then Decimal(parts[i]) else MaxU64
    ensures (i < |parts| && FirstNonDigit(parts[i]) < |parts[i]|
             && Decimal(parts[i][..FirstNonDigit(parts[i])]) <= MaxU64) ==> v == 0
  {
    if i >= |parts| then 0
    else
      var s := parts[i];
      ParseUintValue(s);
      assert AllDigits(s) ==> s[..|s|] == s && FirstNonDigit(s) == |s| by {
        if AllDigits(s) {
          assert s[..|s|] == s;
        }
      }
      ParseUint(s).value
  }

  /** A field holding a formatted uint64 reads back as that number. */
  lemma UintFieldOfFormat(parts: seq<string>, i: nat, n: u64)
    requires i < |parts| && parts[i] == FormatUint(n)
    ensures UintField(parts, i) == n
  {
    ParseFormatUint(n);
  }
}
