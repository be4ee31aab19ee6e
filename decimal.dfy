/**
 * Decimal text for unsigned 32-bit integers: Rust's `Display` for `u32`
 * (`format!("{}", n)`, `n.to_string()`) and `str::parse::<u32>()`.
 */
module Numerals {
  import opened Wrappers

  const U32_MAX := 0xFFFF_FFFF

  /** Rust's `u32`. */
  type U32 = n: int | 0 <= n <= U32_MAX

  predicate IsDigit(c: char) {
    '0' <= c <= '9'
  }

  predicate AllDigits(s: string) {
    forall i :: 0 <= i < |s| ==> IsDigit(s[i])
  }

  function DigitValue(c: char): nat
    requires IsDigit(c)
  {
    c as int - '0' as int
  }

  function DigitChar(d: nat): (c: char)
    requires d < 10
    ensures IsDigit(c) && DigitValue(c) == d
  {
    ('0' as int + d) as char
  }

  /** The number a string of decimal digits denotes, most significant digit first. */
  function DigitsValue(s: string): nat
    requires AllDigits(s)
    decreases |s|
  {
    if s == [] then 0 else DigitsValue(s[..|s| - 1]) * 10 + DigitValue(s[|s| - 1])
  }

  /** No leading zero, except for the number zero itself. */
  predicate IsCanonical(s: string) {
    |s| > 0 && AllDigits(s) && (|s| > 1 ==> s[0] != '0')
  }

  /** The decimal text of `n` as Rust's `{}` formats it: digits only, no sign, no leading zero. */
  function Decimal(n: nat): (s: string)
    ensures IsCanonical(s)
    ensures DigitsValue(s) == n
    decreases n
  {
    if n < 10 then [DigitChar(n)]
    else
      var prefix, last := Decimal(n / 10), DigitChar(n % 10);
      assert (prefix + [last])[..|prefix|] == prefix;
      prefix + [last]
  }

  /**
   * Rust's `u32::from_str`: one optional leading `+`, then at least one
   * decimal digit and nothing else, denoting at most 4294967295.
   * A `-` is not accepted, since the type is unsigned. Digits, with or
   * without a `+` and leading zeros, parse to the number they denote when
   * it fits.
   */
  function ParseU32(s: string): (r: Option<U32>)
    ensures r.Some? ==> |s| > 0 && forall i :: 0 <= i < |s| ==> IsDigit(s[i]) || (i == 0 && s[i] == '+')
    ensures |s| > 0 && AllDigits(s) ==> r == (if DigitsValue(s) <= U32_MAX then Some(DigitsValue(s)) else None)
    ensures |s| > 1 && s[0] == '+' && AllDigits(s[1..])
            ==> r == (if DigitsValue(s[1..]) <= U32_MAX then Some(DigitsValue(s[1..])) else None)
  {
    var digits := if |s| > 0 && s[0] == '+' then s[1..] else s;
    assert forall i :: 1 <= i < |s| && s[0] == '+' ==> s[i] == digits[i - 1];
    if digits == [] || !AllDigits(digits) then None
    else
      var v := DigitsValue(digits);
      if v <= U32_MAX then Some(v) else None
  }

  /** A leading digit other than zero makes the value positive. */
  lemma {:induction false} LeadingDigitPositive(s: string)
    requires AllDigits(s) && |s| > 0 && s[0] != '0'
    ensures DigitsValue(s) > 0
    decreases |s|
  {
    if |s| > 1 {
      LeadingDigitPositive(s[..|s| - 1]);
    }
  }

  /** Formatting the value of a canonical digit string gives that string back. */
  lemma {:induction false} DecimalOfDigitsValue(s: string)
    requires IsCanonical(s)
    ensures Decimal(DigitsValue(s)) == s
    decreases |s|
  {
    if |s| > 1 {
      var prefix := s[..|s| - 1];
      assert prefix[0] == s[0];
      LeadingDigitPositive(prefix);
      DecimalOfDigitsValue(prefix);
      var n := DigitsValue(s);
      assert n / 10 == DigitsValue(prefix) && n % 10 == DigitValue(s[|s| - 1]);
      assert DigitChar(n % 10) == s[|s| - 1];
      assert prefix + [s[|s| - 1]] == s;
    }
  }

  /** Parsing what Rust prints for a `u32` gives the number back, with or without a `+`. */
  lemma ParseDecimal(n: U32)
    ensures ParseU32(Decimal(n)) == Some(n)
    ensures ParseU32("+" + Decimal(n)) == Some(n)
  {
    var d := Decimal(n);
    assert d[0] != '+';
    assert ("+" + d)[1..] == d;
  }

  /** A parsed value prints as the digits after the sign, once leading zeros are gone. */
  lemma ParseThenDecimal(s: string)
    requires ParseU32(s).Some?
    requires IsCanonical(s) || (|s| > 1 && s[0] == '+' && IsCanonical(s[1..]))
    ensures IsCanonical(s) ==> Decimal(ParseU32(s).value) == s
    ensures !IsCanonical(s) ==> Decimal(ParseU32(s).value) == s[1..]
  {
    if IsCanonical(s) {
      DecimalOfDigitsValue(s);
    } else {
      DecimalOfDigitsValue(s[1..]);
    }
  }

  /** Any character other than a digit after the optional sign makes the parse fail. */
  lemma ParseRejectsNonDigit(s: string, i: nat)
    requires i < |s| && !IsDigit(s[i])
    requires !(i == 0 && s[i] == '+')
    ensures ParseU32(s) == None
  {
    if |s| > 0 && s[0] == '+' {
      assert s[1..][i - 1] == s[i];
    }
  }

  /** Appending a digit multiplies the value by ten and adds the digit. */
  lemma DigitsValueSnoc(s: string, c: char, t: string)
    requires AllDigits(s) && IsDigit(c) && t == s + [c]
    ensures AllDigits(t) && DigitsValue(t) == DigitsValue(s) * 10 + DigitValue(c)
  {
    assert t[..|s|] == s;
  }

  /** The client ids of the unit tests: a valid one and one that is not a number. */
  lemma ParseTestExamples()
    ensures ParseU32("123456") == Some(123456)
    ensures ParseU32("not_a_number") == None
  {
    ParseRejectsNonDigit("not_a_number", 0);
    var prefix := "12345";
    FivePrefixValue(prefix);
    DigitsValueSnoc(prefix, '6', "123456");
  }

  /** The first five digits of the test client id. */
  lemma FivePrefixValue(prefix: string)
    requires prefix == "12345"
    ensures AllDigits(prefix) && DigitsValue(prefix) == 12345
  {
    DigitsValueSnoc("", '1', "1");
    DigitsValueSnoc("1", '2', "12");
    DigitsValueSnoc("12", '3', "123");
    DigitsValueSnoc("123", '4', "1234");
    DigitsValueSnoc("1234", '5', "12345");
  }

  /** The edges of `u32::from_str`: empty text, a lone sign, a minus, leading zeros. */
  lemma ParseEdgeExamples()
    ensures ParseU32("") == None
    ensures ParseU32("+") == None
    ensures ParseU32("-1") == None
    ensures ParseU32("007") == Some(7)
  {
    ParseRejectsNonDigit("-1", 0);
    DigitsValueSnoc("", '0', "0");
    DigitsValueSnoc("0", '0', "00");
    DigitsValueSnoc("00", '7', "007");
  }

  /** The largest `u32` parses; one more does not. */
  lemma ParseRangeExamples()
    ensures ParseU32("4294967295") == Some(U32_MAX)
    ensures ParseU32("4294967296") == None
  {
    var prefix := "429496729";
    NinePrefixValue(prefix);
    DigitsValueSnoc(prefix, '5', "4294967295");
    DigitsValueSnoc(prefix, '6', "4294967296");
  }

  /** The first nine digits of the largest `u32`. */
  lemma NinePrefixValue(prefix: string)
    requires prefix == "429496729"
    ensures AllDigits(prefix) && DigitsValue(prefix) == 429496729
  {
    DigitsValueSnoc("", '4', "4");
    DigitsValueSnoc("4", '2', "42");
    DigitsValueSnoc("42", '9', "429");
    DigitsValueSnoc("429", '4', "4294");
    DigitsValueSnoc("4294", '9', "42949");
    DigitsValueSnoc("42949", '6', "429496");
    DigitsValueSnoc("429496", '7', "4294967");
    DigitsValueSnoc("4294967", '2', "42949672");
    DigitsValueSnoc("42949672", '9', "429496729");
  }

  /** The client id of the unit tests prints as its digits. */
  lemma DecimalTestExample()
    ensures Decimal(123456) == "123456"
  {
    ParseTestExamples();
    ParseThenDecimal("123456");
  }
}
