/** Decimal numerals: Python's `str(n)` for a non-negative integer and its
    `int(s)` in base 10. */
module Decimal {
  import opened Wrappers
  import opened Text

  predicate IsDigit(c: char)
  {
    '0' <= c <= '9'
  }

  predicate AllDigits(s: string)
  {
    forall i :: 0 <= i < |s| ==> IsDigit(s[i])
  }

  /** The digits Python's `str` prints: at least one, and no leading zero
      unless the number is zero. */
  predicate IsCanonical(s: string)
  {
    s != [] && AllDigits(s) && (|s| > 1 ==> s[0] != '0')
  }

  function DigitChar(d: nat): (c: char)
    requires d < 10
    ensures IsDigit(c)
  {
    ('0' as int + d) as char
  }

  function DigitValue(c: char): (d: nat)
    requires IsDigit(c)
    ensures d < 10
  {
    c as int - '0' as int
  }

  /** `str(n)`: the decimal numeral of `n`. */
  function DecimalString(n: nat): (s: string)
    ensures IsCanonical(s)
  {
    if n < 10 then [DigitChar(n)]
    else
      var s := DecimalString(n / 10) + [DigitChar(n % 10)];
      assert s[0] == DecimalString(n / 10)[0];
      s
  }

  /** The number a string of decimal digits stands for (leading zeros allowed). */
  function DigitsValue(s: string): nat
    requires AllDigits(s)
  {
    if s == [] then 0 else 10 * DigitsValue(s[..|s| - 1]) + DigitValue(s[|s| - 1])
  }

  /** Reading back the numeral of `n` gives `n`. */
  lemma {:induction false} DigitsValueOfDecimal(n: nat)
    ensures DigitsValue(DecimalString(n)) == n
  {
    if n >= 10 {
      var s := DecimalString(n);
      assert s[..|s| - 1] == DecimalString(n / 10);
      DigitsValueOfDecimal(n / 10);
    }
  }

  /** A numeral whose first digit is not zero stands for a positive number. */
  lemma {:induction false} DigitsValuePositive(s: string)
    requires s != [] && AllDigits(s) && s[0] != '0'
    ensures DigitsValue(s) > 0
  {
    if |s| > 1 {
      DigitsValuePositive(s[..|s| - 1]);
    }
  }

  /** Every canonical numeral is the numeral of the number it stands for. */
  lemma {:induction false} DecimalOfDigitsValue(s: string)
    requires IsCanonical(s)
    ensures DecimalString(DigitsValue(s)) == s
  {
    if |s| > 1 {
      var init := s[..|s| - 1];
      var d := DigitValue(s[|s| - 1]);
      DigitsValuePositive(init);
      DecimalOfDigitsValue(init);
      var n := DigitsValue(s);
      assert n == 10 * DigitsValue(init) + d;
      assert n / 10 == DigitsValue(init) && n % 10 == d;
      assert DigitChar(d) == s[|s| - 1];
      assert s == init + [s[|s| - 1]];
    }
  }

  /** The white space `int()` skips around its operand: the ASCII space,
      tab, line feed, vertical tab, form feed and carriage return, and every
      character from U+0080 up that `str.isspace()` accepts (those are turned
      into spaces first). The separators U+001C to U+001F, which
      `str.isspace()` accepts, are not skipped. */
  predicate IsIntSpace(c: char)
  {
    IsSpace(c) && !('\U{1C}' <= c <= '\U{1F}')
  }

  /** `int(s)` in base 10: white space around an optional sign and a
      non-empty run of ASCII digits. */
  function ParseInt(s: string): (r: Option<int>)
    ensures Strip(s, IsIntSpace) == [] ==> r.None?
    ensures (forall c :: c in s ==> !IsDigit(c)) ==> r.None?
  {
    var t := Strip(s, IsIntSpace);
    if t == [] then None
    else
      var signed := t[0] == '-' || t[0] == '+';
      var digits := if signed then t[1..] else t;
      if digits == [] || !AllDigits(digits) then None
      else
        assert digits[0] in s by { assert digits[0] in t; }
        var v: int := DigitsValue(digits);
        Some(if t[0] == '-' then -v else v)
  }

  /** The signs `int()` accepts in front of the digits. */
  predicate IsSign(sign: string)
  {
    sign == "" || sign == "+" || sign == "-"
  }

  /** The value of digits `d` after the sign `sign`. */
  function SignedValue(sign: string, d: string): int
    requires AllDigits(d)
  {
    if sign == "-" then -(DigitsValue(d) as int) else DigitsValue(d) as int
  }

  /** `int` of a text that strips to a sign and a run of digits. */
  lemma ParseIntOfStripped(s: string, sign: string, d: string)
    requires IsSign(sign) && d != [] && AllDigits(d)
    requires Strip(s, IsIntSpace) == sign + d
    ensures ParseInt(s) == Some(SignedValue(sign, d))
  {
    var t := Strip(s, IsIntSpace);
    if sign == "" {
      assert t == d;
      assert t[0] != '-' && t[0] != '+' by { assert IsDigit(d[0]); }
    } else {
      assert t[0] == sign[0];
      assert t[1..] == d;
    }
  }

  /** `int` accepts white space, an optional sign and any run of ASCII
      digits, leading zeros included, and reads their value. */
  lemma ParseIntOfDigits(left: string, sign: string, d: string, right: string)
    requires forall i :: 0 <= i < |left| ==> IsIntSpace(left[i])
    requires forall i :: 0 <= i < |right| ==> IsIntSpace(right[i])
    requires IsSign(sign) && d != [] && AllDigits(d)
    ensures ParseInt(left + (sign + d) + right) == Some(SignedValue(sign, d))
  {
    SignedDigitsEnds(sign, d);
    StripPadded(left, sign + d, right, IsIntSpace);
    ParseIntOfStripped(left + (sign + d) + right, sign, d);
  }

  /** A sign and digits neither start nor end with white space. */
  lemma SignedDigitsEnds(sign: string, d: string)
    requires IsSign(sign) && d != [] && AllDigits(d)
    ensures var core := sign + d; !IsIntSpace(core[0]) && !IsIntSpace(core[|core| - 1])
  {
    var core := sign + d;
    assert core[|core| - 1] == d[|d| - 1];
    assert IsDigit(d[0]) && IsDigit(d[|d| - 1]);
    if sign != "" { assert core[0] == sign[0]; } else { assert core[0] == d[0]; }
  }

  /** Everything `int` accepts is white space around an optional sign and a
      non-empty run of digits, and the result is their value: a text such as
      "8x" or "- 8" is refused. */
  lemma ParseIntAccepts(s: string, v: int)
    requires ParseInt(s) == Some(v)
    ensures exists sign, d :: && IsSign(sign) && d != [] && AllDigits(d)
                              && Strip(s, IsIntSpace) == sign + d && v == SignedValue(sign, d)
  {
    var t := Strip(s, IsIntSpace);
    var sign := if t[0] == '-' || t[0] == '+' then [t[0]] else "";
    var d := t[|sign|..];
    assert t == sign + d;
    assert v == SignedValue(sign, d);
  }

  /** `int` reads back the numeral `str` prints, with or without a minus sign
      and with any white space around it. */
  lemma ParseIntOfDecimal(n: nat, negative: bool, left: string, right: string)
    requires forall i :: 0 <= i < |left| ==> IsIntSpace(left[i])
    requires forall i :: 0 <= i < |right| ==> IsIntSpace(right[i])
    ensures ParseInt(left + ((if negative then "-" else "") + DecimalString(n)) + right)
            == Some(if negative then -(n as int) else n as int)
  {
    var sign, d := if negative then "-" else "", DecimalString(n);
    DigitsValueOfDecimal(n);
    assert SignedValue(sign, d) == if negative then -(n as int) else n as int;
    ParseIntOfDigits(left, sign, d, right);
  }

  /** `int(str(n)) == n`. */
  lemma ParseIntOfDecimalString(n: nat)
    ensures ParseInt(DecimalString(n)) == Some(n as int)
  {
    var d := DecimalString(n);
    SignedDigitsEnds("", d);
    StripPadded([], d, [], IsIntSpace);
    assert [] + d + [] == d && "" + d == d;
    ParseIntOfStripped(d, "", d);
    DigitsValueOfDecimal(n);
  }

  /** A text whose ends are not white space is its own stripped form. */
  lemma StripUnpadded(s: string)
    requires s != [] && !IsIntSpace(s[0]) && !IsIntSpace(s[|s| - 1])
    ensures Strip(s, IsIntSpace) == s
  {
    StripPadded("", s, "", IsIntSpace);
    assert "" + s + "" == s;
  }

  /** A stray character after the digits is refused. */
  lemma ParseIntRefusesTrailingLetter()
    ensures ParseInt("8x") == None
  {
    StripUnpadded("8x");
    assert "8x"[1] == 'x';
  }

  /** White space between the sign and the digits is refused. */
  lemma ParseIntRefusesSpaceAfterSign()
    ensures ParseInt("- 8") == None
  {
    StripUnpadded("- 8");
    assert "- 8"[1..][0] == ' ';
  }

  /** The information separators, white space to `str.isspace()`, are not
      skipped. */
  lemma ParseIntRefusesSeparator()
    ensures ParseInt("\U{1C}8") == None
  {
    StripUnpadded("\U{1C}8");
    assert "\U{1C}8"[0] == '\U{1C}';
  }

  /** A plus sign and leading zeros are accepted. */
  lemma ParseIntAcceptsPlusAndZeros()
    ensures ParseInt("+007") == Some(7)
  {
    assert DigitsValue("007") == 7 by {
      assert "007"[..2] == "00" && "00"[..1] == "0" && "0"[..0] == "";
    }
    StripUnpadded("+007");
    assert "+007" == "+" + "007";
    ParseIntOfStripped("+007", "+", "007");
  }
}
