/**
  Decimal conversion as the server uses it: `strconv.Atoi` reads the
  `Content-Length` header of a request, and `strconv.Itoa` writes the
  `Content-Length` header of a response.
 */
module Decimal {
  import opened Optional

  /** The range of Go's `int` on a 64-bit platform; `strconv.Atoi` rejects anything outside it. */
  const MaxInt: int := 0x7FFF_FFFF_FFFF_FFFF
  const MinInt: int := -0x8000_0000_0000_0000

  predicate IsDigit(c: char) {
    '0' <= c <= '9'
  }

  predicate AllDigits(s: string) {
    forall i :: 0 <= i < |s| ==> IsDigit(s[i])
  }

  function DigitValue(c: char): nat
    requires IsDigit(c)
  {
    c as int - '0' as int
  }

  function DigitChar(d: nat): (c: char)
    requires d < 10
    ensures IsDigit(c) && DigitValue(c) == d
  {
    ('0' as int + d) as char
  }

  /** The number a run of decimal digits denotes, most significant digit first. */
  function DigitsValue(ds: string): nat
    requires AllDigits(ds)
    decreases |ds|
  {
    if |ds| == 0 then 0 else DigitsValue(ds[..|ds| - 1]) * 10 + DigitValue(ds[|ds| - 1])
  }

  /** The text after one optional leading `+` or `-`. */
  function Unsigned(s: string): (u: string)
    ensures |u| <= |s| && u == s[|s| - |u|..]
  {
    if |s| > 0 && (s[0] == '-' || s[0] == '+') then s[1..] else s
  }

  /** Text `strconv.Atoi` reads as a number: an optional sign, then one or
      more decimal digits. */
  predicate IsNumeral(s: string) {
    |Unsigned(s)| > 0 && AllDigits(Unsigned(s))
  }

  /** The number a numeral denotes: its digits' value, negated after `-`. */
  function NumeralValue(s: string): int
    requires IsNumeral(s)
  {
    var magnitude: int := DigitsValue(Unsigned(s));
    if s[0] == '-' then -magnitude else magnitude
  }

  /** `strconv.Atoi` in base 10: an optional `+` or `-`, then one or more
      decimal digits, denoting a value that fits Go's 64-bit `int`. */
  function Atoi(s: string): (r: Option<int>)
    ensures r.Some? <==> IsNumeral(s) && MinInt <= NumeralValue(s) <= MaxInt
    ensures r.Some? ==> r.value == NumeralValue(s)
  {
    var signed := |s| > 0 && (s[0] == '-' || s[0] == '+');
    var digits := if signed then s[1..] else s;
    if |digits| == 0 || !AllDigits(digits) then None
    else
      var magnitude: int := DigitsValue(digits);
      var v := if signed && s[0] == '-' then -magnitude else magnitude;
      if MinInt <= v <= MaxInt then Some(v) else None
  }

  /** A leading `+` changes nothing, and a leading `-` negates, as long as
      the result fits. */
  lemma {:induction false} AtoiSign(ds: string)
    requires |ds| > 0 && AllDigits(ds)
    ensures Atoi("+" + ds) == Atoi(ds)
    ensures Atoi("-" + ds) == if DigitsValue(ds) <= -MinInt then Some(-(DigitsValue(ds) as int)) else None
  {
    assert ("+" + ds)[1..] == ds;
    assert ("-" + ds)[1..] == ds;
    assert Unsigned(ds) == ds by {
      assert IsDigit(ds[0]);
    }
  }

  /** Leading zeros do not change the value: `007` reads as 7. */
  lemma {:induction false} AtoiLeadingZero(ds: string)
    requires |ds| > 0 && AllDigits(ds)
    ensures Atoi("0" + ds) == Atoi(ds)
  {
    LeadingZeroValue(ds);
    assert Unsigned(ds) == ds by {
      assert IsDigit(ds[0]);
    }
    assert AllDigits("0" + ds) by {
      assert forall i :: 0 < i < |ds| + 1 ==> ("0" + ds)[i] == ds[i - 1];
    }
  }

  /** A leading zero digit adds nothing to the value of a digit run. */
  lemma {:induction false} LeadingZeroValue(ds: string)
    requires AllDigits(ds)
    ensures AllDigits("0" + ds) && DigitsValue("0" + ds) == DigitsValue(ds)
    decreases |ds|
  {
    var z := "0" + ds;
    assert forall i :: 0 < i < |z| ==> z[i] == ds[i - 1];
    if |ds| > 0 {
      var init := ds[..|ds| - 1];
      LeadingZeroValue(init);
      assert z[..|z| - 1] == "0" + init;
    }
  }

  /** `strconv.Itoa` of a length: the canonical decimal numeral of `n`,
      with no sign and no leading zero. */
  function Itoa(n: nat): (s: string)
    ensures |s| >= 1 && AllDigits(s)
    ensures DigitsValue(s) == n
    ensures s[0] == '0' <==> n == 0
    ensures |s| == 1 <==> n < 10
    decreases n
  {
    if n < 10 then [DigitChar(n)]
    else
      var prefix := Itoa(n / 10);
      var s := prefix + [DigitChar(n % 10)];
      assert s[..|s| - 1] == prefix;
      s
  }

  /** Reading back what `Itoa` wrote gives the same number: a `Content-Length`
      written by a handler is parsed back to the body length. */
  lemma {:induction false} AtoiItoa(n: nat)
    requires n <= MaxInt
    ensures Atoi(Itoa(n)) == Some(n)
  {
  }
}
