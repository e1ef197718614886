/** Unsigned decimal numerals: reading a digit string as a number (the part of
    `Convert.ToInt32` the helper exercises) and writing a number back the way
    `Int32.ToString()` does, without leading zeros.
 */
module Decimal {
  import opened Results

  /** `int.MaxValue`: `Convert.ToInt32` overflows beyond it. */
  const Int32Max: nat := 0x7FFF_FFFF

  predicate IsDigit(c: char) {
    '0' <= c <= '9'
  }

  /** A non-empty string of ASCII digits. */
  predicate IsDigits(s: string) {
    |s| > 0 && forall i :: 0 <= i < |s| ==> IsDigit(s[i])
  }

  /** A numeral without superfluous leading zeros: `"0"`, `"7"`, `"10"`, but
      not `"010"`. */
  predicate Canonical(s: string) {
    IsDigits(s) && (s[0] == '0' ==> |s| == 1)
  }

  function DigitChar(d: nat): (c: char)
    requires d < 10
    ensures IsDigit(c) && c as int - '0' as int == d
  {
    ('0' as int + d) as char
  }

  function DigitValue(c: char): (d: nat)
    requires IsDigit(c)
    ensures d < 10 && DigitChar(d) == c
  {
    c as int - '0' as int
  }

  /** The number a string of digits denotes (the empty string denotes 0). */
  function Value(s: string): nat
    requires forall i :: 0 <= i < |s| ==> IsDigit(s[i])
    decreases |s|
  {
    if |s| == 0 then 0
    else Value(s[..|s| - 1]) * 10 + DigitValue(s[|s| - 1])
  }

  /** `n.ToString()` for a non-negative `n`. */
  function Show(n: nat): (s: string)
    ensures Canonical(s)
    decreases n
  {
    if n < 10 then [DigitChar(n)] else Show(n / 10) + [DigitChar(n % 10)]
  }

  /** The numerals of numbers below 1000, digit by digit. */
  lemma ShowDigits(n: nat)
    requires n < 1000
    ensures Show(n) == if n < 10 then [DigitChar(n)]
                       else if n < 100 then [DigitChar(n / 10), DigitChar(n % 10)]
                       else [DigitChar(n / 100), DigitChar(n / 10 % 10), DigitChar(n % 10)]
  {
    if n >= 100 {
      assert n / 10 / 10 == n / 100;
      assert Show(n / 10) == Show(n / 100) + [DigitChar(n / 10 % 10)];
    }
  }

  /** Drops leading zeros, keeping at least one digit. */
  function StripLeadingZeros(s: string): (r: string)
    requires IsDigits(s)
    ensures Canonical(r)
    ensures |r| <= |s| && r == s[|s| - |r|..]
    ensures forall i :: 0 <= i < |s| - |r| ==> s[i] == '0'
    decreases |s|
  {
    if |s| > 1 && s[0] == '0' then StripLeadingZeros(s[1..]) else s
  }

  /** `Convert.ToInt32(part)` restricted to digit strings: anything that is
      not a non-empty run of digits is a format error, and a number beyond
      `int.MaxValue` overflows. */
  function ParseInt32(part: string): (r: Result<nat>)
    ensures r.Ok? <==> IsDigits(part) && Value(part) <= Int32Max
    ensures r.Ok? ==> r.value == Value(part)
    ensures r == Err(FormatError) <==> !IsDigits(part)
  {
    if !IsDigits(part) then Err(FormatError)
    else if Value(part) > Int32Max then Err(OverflowError)
    else Ok(Value(part))
  }

  /** Reading back a written number gives the number. */
  lemma {:induction false} ValueShow(n: nat)
    ensures Value(Show(n)) == n
    decreases n
  {
    if n >= 10 {
      ValueShow(n / 10);
      var s := Show(n);
      assert s[..|s| - 1] == Show(n / 10);
    }
  }

  /** A numeral whose first digit is not zero denotes a positive number. */
  lemma {:induction false} ValuePositive(s: string)
    requires IsDigits(s) && s[0] != '0'
    ensures Value(s) >= 1
    decreases |s|
  {
    if |s| > 1 {
      ValuePositive(s[..|s| - 1]);
    }
  }

  /** Writing the number a canonical numeral denotes gives the numeral. */
  lemma {:induction false} ShowValue(s: string)
    requires Canonical(s)
    ensures Show(Value(s)) == s
    decreases |s|
  {
    if |s| > 1 {
      var p := s[..|s| - 1];
      var d := DigitValue(s[|s| - 1]);
      ShowValue(p);
      ValuePositive(p);
      var n := Value(s);
      assert n == Value(p) * 10 + d;
      assert n / 10 == Value(p) && n % 10 == d;
      assert Show(n) == Show(Value(p)) + [DigitChar(d)];
      assert s == p + [s[|s| - 1]];
    }
  }

  /** Two canonical numerals are equal exactly when their values are. */
  lemma CanonicalInjective(a: string, b: string)
    requires Canonical(a) && Canonical(b)
    ensures Value(a) == Value(b) <==> a == b
  {
    ShowValue(a);
    ShowValue(b);
  }

  /** A leading zero does not change the value. */
  lemma {:induction false} ValueLeadingZero(t: string)
    requires forall i :: 0 <= i < |t| ==> IsDigit(t[i])
    ensures Value("0" + t) == Value(t)
    decreases |t|
  {
    if |t| > 0 {
      var p := t[..|t| - 1];
      ValueLeadingZero(p);
      assert ("0" + t)[..|t|] == "0" + p;
    }
  }

  /** Stripping leading zeros keeps the value. */
  lemma {:induction false} ValueStripLeadingZeros(s: string)
    requires IsDigits(s)
    ensures Value(StripLeadingZeros(s)) == Value(s)
    decreases |s|
  {
    if |s| > 1 && s[0] == '0' {
      var t := s[1..];
      assert IsDigits(t);
      assert StripLeadingZeros(s) == StripLeadingZeros(t);
      assert s == "0" + t;
      hide Value;
      ValueStripLeadingZeros(t);
      ValueLeadingZero(t);
    }
  }

  /** Parsing then printing a numeral strips its leading zeros:
      `"010"` becomes `"10"` and `"000"` becomes `"0"`. */
  lemma ShowValueStrips(s: string)
    requires IsDigits(s)
    ensures Show(Value(s)) == StripLeadingZeros(s)
  {
    ValueStripLeadingZeros(s);
    ShowValue(StripLeadingZeros(s));
  }
}
