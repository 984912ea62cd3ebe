/**
 * Numerals: how the firmware turns a slot number into text (f-string formatting), and how
 * MicroPython's `int` reads text back, both for the port number (`int(s)`) and for the
 * escapes of a form value (`int(h, 16)`).
 */
module Numerals {
  import opened Wrappers
  import opened Whitespace

  predicate IsDigit(c: char) {
    '0' <= c <= '9'
  }

  predicate AllDigits(s: string) {
    forall i :: 0 <= i < |s| ==> IsDigit(s[i])
  }

  function DigitChar(d: nat): (c: char)
    requires d < 10
    ensures IsDigit(c)
  {
    ('0' as int + d) as char
  }

  /** The value of a string of decimal digits, most significant first. */
  function DigitsValue(s: string): nat
    requires AllDigits(s)
  {
    if s == [] then 0
    else DigitsValue(s[..|s| - 1]) * 10 + (s[|s| - 1] as int - '0' as int)
  }

  /** Decimal text of a natural number, as `str(n)` / `f"{n}"` prints it: no leading zero, no sign. */
  function NatToString(n: nat): (s: string)
    ensures |s| >= 1 && AllDigits(s)
    ensures s[0] == '0' ==> n == 0
  {
    if n < 10 then [DigitChar(n)]
    else NatToString(n / 10) + [DigitChar(n % 10)]
  }

  /** Reading back what `NatToString` printed gives the number again. */
  lemma {:induction false} NatToStringRoundTrip(n: nat)
    ensures DigitsValue(NatToString(n)) == n
  {
    if n >= 10 {
      var s := NatToString(n);
      assert s[..|s| - 1] == NatToString(n / 10);
      NatToStringRoundTrip(n / 10);
    }
  }

  /** Distinct numbers print as distinct strings. */
  lemma {:induction false} NatToStringInjective(m: nat, n: nat)
    requires NatToString(m) == NatToString(n)
    ensures m == n
  {
    NatToStringRoundTrip(m);
    NatToStringRoundTrip(n);
  }

  /** Signed decimal numerals: an optional sign followed by at least one decimal digit; None otherwise. */
  function ParseSigned(t: string): (r: Option<int>)
    ensures r.Some? <==> (|t| >= 1 && AllDigits(t)) || (|t| >= 2 && (t[0] == '-' || t[0] == '+') && AllDigits(t[1..]))
    ensures r.Some? && t[0] == '-' ==> r.value <= 0
    ensures r.Some? && t[0] != '-' ==> r.value >= 0
  {
    if |t| >= 1 && AllDigits(t) then Some(DigitsValue(t))
    else if |t| >= 2 && t[0] == '-' && AllDigits(t[1..]) then Some(0 - DigitsValue(t[1..]) as int)
    else if |t| >= 2 && t[0] == '+' && AllDigits(t[1..]) then Some(DigitsValue(t[1..]))
    else None
  }

  // ---------------------------------------------------------------------------------------
  // MicroPython's `int` on text

  /**
   * The value MicroPython gives a character as a digit: 0-9 for the decimal digits, 10-35 for
   * a letter of either case, and 36 (above every radix) for anything else.
   */
  function DigitOf(c: char): (d: nat)
    ensures d <= 36
    ensures IsDigit(c) ==> d == c as int - '0' as int
  {
    if '0' <= c <= '9' then c as int - '0' as int
    else if 'a' <= c <= 'z' then c as int - 'a' as int + 10
    else if 'A' <= c <= 'Z' then c as int - 'A' as int + 10
    else 36
  }

  /** A character the digit loop takes in `radix`: a digit below the radix, or `_`, which it skips. */
  predicate InNumeral(c: char, radix: nat) {
    c == '_' || DigitOf(c) < radix
  }

  /** Where the run of numeral characters that starts at `i` ends. */
  function NumeralEnd(s: string, i: nat, radix: nat): (e: nat)
    requires i <= |s|
    ensures i <= e <= |s|
    ensures forall k {:trigger InNumeral(s[k], radix)} :: i <= k < e ==> InNumeral(s[k], radix)
    ensures e == |s| || !InNumeral(s[e], radix)
    decreases |s| - i
  {
    if i == |s| || !InNumeral(s[i], radix) then i else NumeralEnd(s, i + 1, radix)
  }

  /** The value of the digits in `s[i..j]`, most significant first, the underscores skipped. */
  function NumeralValue(s: string, i: nat, j: nat, radix: nat): nat
    requires i <= j <= |s|
    decreases j - i
  {
    if j == i then 0
    else if s[j - 1] == '_' then NumeralValue(s, i, j - 1, radix)
    else NumeralValue(s, i, j - 1, radix) * radix + DigitOf(s[j - 1])
  }

  /** The letter of a `0x` prefix, in either case. */
  predicate IsHexLetter(c: char) {
    c == 'x' || c == 'X'
  }

  /** The letter of a `0o` or `0b` prefix, in either case. */
  predicate IsOctalOrBinaryLetter(c: char) {
    c == 'o' || c == 'O' || c == 'b' || c == 'B'
  }

  /**
   * The radix prefix at `b`, for the two bases the firmware uses: with base 0 a `0x`, `0o` or
   * `0b` prefix (either case) chooses 16, 8 or 2 and anything else 10; with base 16 a `0x`
   * prefix is allowed. Gives the radix and where the digits start.
   */
  function BasePrefix(s: string, b: nat, base: nat): (r: (nat, nat))
    requires b <= |s| && (base == 0 || base == 16)
    ensures r.1 == b || (r.1 == b + 2 && r.1 <= |s|)
    // a prefix is skipped exactly when it is `0` and a radix letter the base allows
    ensures r.1 == b + 2 <==> b + 2 <= |s| && s[b] == '0' && (IsHexLetter(s[b + 1]) || (base == 0 && IsOctalOrBinaryLetter(s[b + 1])))
    // the letter chooses the radix
    ensures r.1 == b + 2 ==> r.0 == (if IsHexLetter(s[b + 1]) then 16 else if s[b + 1] == 'o' || s[b + 1] == 'O' then 8 else 2)
    ensures base == 16 ==> r.0 == 16
    ensures r.1 == b ==> r.0 == (if base == 0 then 10 else 16)
  {
    var radix := if base == 0 then 10 else base;
    if |s| - b <= 1 || s[b] != '0' then (radix, b)
    else if s[b + 1] == 'x' || s[b + 1] == 'X' then (16, b + 2)
    else if base == 0 && (s[b + 1] == 'o' || s[b + 1] == 'O') then (8, b + 2)
    else if base == 0 && (s[b + 1] == 'b' || s[b + 1] == 'B') then (2, b + 2)
    else (radix, b)
  }

  /**
   * MicroPython's `int(s, base)` on text, for base 0 (what `int(s)` passes) and 16: whitespace,
   * an optional sign, an optional radix prefix, at least one character of the digit loop
   * (digits below the radix and `_`), whitespace. None is the ValueError raised on anything else.
   */
  function ParseNumber(s: string, base: nat): (r: Option<int>)
    requires base == 0 || base == 16
    // blank text is an error
    ensures r.Some? ==> TextStart(s, 0) < |s|
    // only a leading minus makes the value negative
    ensures r.Some? && r.value < 0 ==> s[TextStart(s, 0)] == '-'
  {
    var a := TextStart(s, 0);
    var b := if a < |s| && (s[a] == '+' || s[a] == '-') then a + 1 else a;
    var (radix, c) := BasePrefix(s, b, base);
    var e := NumeralEnd(s, c, radix);
    if e == c || TextStart(s, e) != |s| then None
    else
      var v := NumeralValue(s, c, e, radix);
      Some(if b > a && s[a] == '-' then 0 - v else v)
  }

  /**
   * Python's `int(s)` on a string: MicroPython parses it with base 0. A signed decimal numeral
   * with whitespace around it reads as its decimal value.
   */
  function ParseInt(s: string): (r: Option<int>)
    ensures ParseSigned(Strip(s)).Some? ==> r == ParseSigned(Strip(s))
  {
    if ParseSigned(Strip(s)).Some? then DecimalAgrees(s); ParseNumber(s, 0)
    else ParseNumber(s, 0)
  }

  /** With base 0, `int` also reads a radix prefix: a port sent as `0x50` is 80. */
  lemma {:induction false} ParseIntPrefix()
    ensures ParseNumber("0x50", 0) == Some(80)
  {
  }

  /** `int` skips underscores between digits: a port sent as `1_883` is 1883. */
  lemma {:induction false} ParseIntUnderscore()
    ensures ParseNumber("1_883", 0) == Some(1883)
  {
  }

  /** The digit loop over decimal digits is the decimal value. */
  lemma {:induction false} NumeralDecimal(s: string, i: nat, j: nat)
    requires i <= j <= |s| && forall k :: i <= k < j ==> IsDigit(s[k])
    ensures AllDigits(s[i..j]) && NumeralValue(s, i, j, 10) == DigitsValue(s[i..j])
    decreases j - i
  {
    if j > i {
      NumeralDecimal(s, i, j - 1);
      assert s[i..j][..j - i - 1] == s[i..j - 1];
      assert s[i..j][j - i - 1] == s[j - 1];
    }
  }

  /** Decimal digits at `b..n` followed by whitespace: no prefix, the loop stops at `n`, nothing is left. */
  lemma {:induction false} DecimalStretch(s: string, b: nat, n: nat)
    requires b < n <= |s|
    requires forall k :: b <= k < n ==> IsDigit(s[k])
    requires forall k :: n <= k < |s| ==> IsSpace(s[k])
    ensures BasePrefix(s, b, 0) == (10, b) && NumeralEnd(s, b, 10) == n && TextStart(s, n) == |s|
    ensures NumeralValue(s, b, n, 10) == DigitsValue(s[b..n])
  {
    assert BasePrefix(s, b, 0) == (10, b) by {
      if |s| - b > 1 && s[b] == '0' {
        assert IsDigit(s[b + 1]) || IsSpace(s[b + 1]);
      }
    }
    assert forall k :: b <= k < n ==> InNumeral(s[k], 10);
    assert n == |s| || !InNumeral(s[n], 10);
    NumeralDecimal(s, b, n);
  }

  /** A signed decimal numeral with whitespace around it is what `int` reads as decimal. */
  lemma {:induction false} DecimalAgrees(s: string)
    requires ParseSigned(Strip(s)).Some?
    ensures ParseNumber(s, 0) == ParseSigned(Strip(s))
  {
    var t := Strip(s);
    var i := TextStart(s, 0);
    StripKeepsInnerStretch(s);
    var n := i + |t|;
    assert t == s[i..n];
    if AllDigits(t) {
      forall k | i <= k < n
        ensures IsDigit(s[k])
      {
        assert s[k] == t[k - i];
      }
      SignedStretch(s, i, n);
    } else {
      var digits := t[1..];
      assert ParseSigned(t) == Some(if t[0] == '-' then 0 - DigitsValue(digits) else DigitsValue(digits));
      assert s[i + 1..n] == digits;
      forall k | i + 1 <= k < n
        ensures IsDigit(s[k])
      {
        assert s[k] == digits[k - i - 1];
      }
      SignedStretch(s, i + 1, n);
    }
  }

  /** An optional sign, then decimal digits at `b..n`, then whitespace: `int` reads their value. */
  lemma {:induction false} SignedStretch(s: string, b: nat, n: nat)
    requires TextStart(s, 0) <= b <= TextStart(s, 0) + 1 && b < n <= |s|
    requires b > TextStart(s, 0) <==> s[TextStart(s, 0)] == '+' || s[TextStart(s, 0)] == '-'
    requires forall k :: b <= k < n ==> IsDigit(s[k])
    requires forall k :: n <= k < |s| ==> IsSpace(s[k])
    ensures ParseNumber(s, 0)
         == Some(if b > TextStart(s, 0) && s[b - 1] == '-' then 0 - DigitsValue(s[b..n]) else DigitsValue(s[b..n]))
  {
    DecimalStretch(s, b, n);
  }

  /** Decimal text of any integer, with a leading '-' when negative. */
  function IntToString(n: int): (s: string)
    ensures |s| >= 1
  {
    if n < 0 then "-" + NatToString(0 - n) else NatToString(n)
  }

  /** `int(str(n)) == n`: parsing what was printed recovers the integer. */
  lemma {:induction false} IntToStringRoundTrip(n: int)
    ensures ParseInt(IntToString(n)) == Some(n)
  {
    IntToStringStripped(n);
    SignedRoundTrip(n);
  }

  lemma {:induction false} SignedRoundTrip(n: int)
    ensures ParseSigned(IntToString(n)) == Some(n)
  {
    var s := IntToString(n);
    if n < 0 {
      assert s[1..] == NatToString(-n);
      NatToStringRoundTrip(-n);
      assert !AllDigits(s) by { assert !IsDigit(s[0]); }
    } else {
      NatToStringRoundTrip(n);
    }
  }

  lemma {:induction false} IntToStringStripped(n: int)
    ensures Strip(IntToString(n)) == IntToString(n)
  {
    var s := IntToString(n);
    assert !IsSpace(s[0]) && IsDigit(s[|s| - 1]);
    StrippedIsFixed(s);
  }
}
