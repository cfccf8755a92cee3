/**
 * The pieces of JavaScript's string and number behaviour that the action relies on:
 * `String.prototype.split` with a one-character separator, `String.prototype.trim`,
 * `parseInt` with no radix, and the decimal text of an integer as a template
 * literal renders it.
 */
module Strings {
  import opened Wrappers

  /** ECMAScript WhiteSpace and LineTerminator code points: what `trim` and `parseInt` skip. */
  predicate IsJsWhitespace(c: char) {
    c == '\t' || c == '\n' || c == '\U{B}' || c == '\U{C}' || c == '\r' || c == ' '
    || c == '\U{A0}' || c == '\U{1680}' || ('\U{2000}' <= c <= '\U{200A}')
    || c == '\U{2028}' || c == '\U{2029}' || c == '\U{202F}' || c == '\U{205F}'
    || c == '\U{3000}' || c == '\U{FEFF}'
  }

  /** ECMAScript LineTerminator code points: what a regular expression `.` does not match. */
  predicate IsLineTerminator(c: char) {
    c == '\n' || c == '\r' || c == '\U{2028}' || c == '\U{2029}'
  }

  predicate IsAsciiDigit(c: char) {
    '0' <= c <= '9'
  }

  predicate AllWhitespace(s: string) {
    forall i :: 0 <= i < |s| ==> IsJsWhitespace(s[i])
  }

  predicate StartsWith(s: string, prefix: string) {
    |prefix| <= |s| && s[..|prefix|] == prefix
  }

  function Max(a: int, b: int): int {
    if a < b then b else a
  }

  /** Number of occurrences of `c` in `s`. */
  function CountChar(s: string, c: char): nat {
    if |s| == 0 then 0 else (if s[0] == c then 1 else 0) + CountChar(s[1..], c)
  }

  /** `n` copies of `c`, as `c.repeat(n)` for a one-character string. */
  function Repeat(c: char, n: nat): (r: string)
    ensures |r| == n
    ensures forall i :: 0 <= i < n ==> r[i] == c
  {
    if n == 0 then "" else Repeat(c, n - 1) + [c]
  }

  // ---------------------------------------------------------------- split / join

  /** `s.split(sep)`: the pieces of `s` between occurrences of `sep`; `"".split(sep)` is `[""]`. */
  function Split(s: string, sep: char): (parts: seq<string>)
    ensures |parts| >= 1
    decreases |s|
  {
    if |s| == 0 then [""]
    else
      var rest := Split(s[1..], sep);
      if s[0] == sep then [""] + rest
      else [[s[0]] + rest[0]] + rest[1..]
  }

  /** `parts.join(sep)`. */
  function Join(parts: seq<string>, sep: char): string
    decreases |parts|
  {
    if |parts| == 0 then ""
    else if |parts| == 1 then parts[0]
    else parts[0] + [sep] + Join(parts[1..], sep)
  }

  /** Split and Join are inverse: joining the pieces gives back the original string. */
  lemma {:induction false} JoinSplit(s: string, sep: char)
    ensures Join(Split(s, sep), sep) == s
    decreases |s|
  {
    if |s| > 0 {
      var rest := Split(s[1..], sep);
      JoinSplit(s[1..], sep);
      if s[0] == sep {
        assert Split(s, sep) == [""] + rest;
        assert ([""] + rest)[1..] == rest;
        assert Join([""] + rest, sep) == "" + [sep] + Join(rest, sep);
        assert s == [s[0]] + s[1..];
      } else {
        var parts := [[s[0]] + rest[0]] + rest[1..];
        assert Split(s, sep) == parts;
        if |rest| == 1 {
          assert Join(parts, sep) == [s[0]] + rest[0];
          assert Join(rest, sep) == rest[0];
        } else {
          assert parts[1..] == rest[1..];
          assert Join(parts, sep) == [s[0]] + rest[0] + [sep] + Join(rest[1..], sep);
          assert Join(rest, sep) == rest[0] + [sep] + Join(rest[1..], sep);
        }
        assert s == [s[0]] + s[1..];
      }
    }
  }

  /** No piece contains the separator. */
  lemma {:induction false} SplitPiecesLackSeparator(s: string, sep: char)
    ensures forall i :: 0 <= i < |Split(s, sep)| ==> sep !in Split(s, sep)[i]
    decreases |s|
  {
    if |s| > 0 {
      SplitPiecesLackSeparator(s[1..], sep);
      var rest := Split(s[1..], sep);
      if s[0] != sep {
        var parts := Split(s, sep);
        forall i | 0 <= i < |parts| ensures sep !in parts[i] {
          if i == 0 {
            assert parts[0] == [s[0]] + rest[0];
          } else {
            assert parts[i] == rest[i];
          }
        }
      }
    }
  }

  /** There is one more piece than there are separators. */
  lemma {:induction false} SplitCount(s: string, sep: char)
    ensures |Split(s, sep)| == CountChar(s, sep) + 1
    decreases |s|
  {
    if |s| > 0 {
      SplitCount(s[1..], sep);
    }
  }

  // ---------------------------------------------------------------- trim

  /** Drops leading whitespace. */
  function TrimStart(s: string): (t: string)
    ensures |t| <= |s| && t == s[|s| - |t|..]
    ensures AllWhitespace(s[..|s| - |t|])
    ensures |t| > 0 ==> !IsJsWhitespace(t[0])
    decreases |s|
  {
    if |s| > 0 && IsJsWhitespace(s[0]) then TrimStart(s[1..]) else s
  }

  /** Drops trailing whitespace. */
  function TrimEnd(s: string): (t: string)
    ensures |t| <= |s| && t == s[..|t|]
    ensures AllWhitespace(s[|t|..])
    ensures |t| > 0 ==> !IsJsWhitespace(t[|t| - 1])
    decreases |s|
  {
    if |s| > 0 && IsJsWhitespace(s[|s| - 1]) then TrimEnd(s[..|s| - 1]) else s
  }

  /** `s.trim()`. */
  function Trim(s: string): string {
    TrimEnd(TrimStart(s))
  }

  predicate IsTrimmed(s: string) {
    |s| == 0 || (!IsJsWhitespace(s[0]) && !IsJsWhitespace(s[|s| - 1]))
  }

  /** Trim leaves no whitespace at either end. */
  lemma TrimIsTrimmed(s: string)
    ensures IsTrimmed(Trim(s))
  {
    var a := TrimStart(s);
    var t := TrimEnd(a);
    if |t| > 0 {
      assert t[0] == a[0];
    }
  }

  /** Trim keeps a contiguous middle part of its input and removes only whitespace around it. */
  lemma TrimKeepsMiddle(s: string)
    ensures exists i :: 0 <= i <= |s| - |Trim(s)| && Trim(s) == s[i..i + |Trim(s)|]
              && AllWhitespace(s[..i]) && AllWhitespace(s[i + |Trim(s)|..])
  {
    var a := TrimStart(s);
    var t := TrimEnd(a);
    var i := |s| - |a|;
    assert t == s[i..i + |t|];
    assert s[i + |t|..] == a[|t|..];
  }

  // ---------------------------------------------------------------- decimal text

  function DigitChar(d: nat): (c: char)
    requires d < 10
    ensures IsAsciiDigit(c)
  {
    (48 + d) as char
  }

  /** Decimal text of a non-negative integer, without leading zeros. */
  function NatToString(n: nat): (s: string)
    ensures |s| >= 1
    ensures forall i :: 0 <= i < |s| ==> IsAsciiDigit(s[i])
    decreases n
  {
    if n < 10 then [DigitChar(n)] else NatToString(n / 10) + [DigitChar(n % 10)]
  }

  /** `${n}` for an integral number: decimal text, with a leading `-` when negative. */
  function IntToString(n: int): string {
    if n < 0 then "-" + NatToString(-n) else NatToString(n)
  }

  // ---------------------------------------------------------------- parseInt

  /** Value of an ASCII letter or digit as a digit in bases up to 36. */
  function DigitOf(c: char): nat {
    if '0' <= c <= '9' then c as int - 48
    else if 'a' <= c <= 'z' then c as int - 87
    else if 'A' <= c <= 'Z' then c as int - 55
    else 36
  }

  predicate IsRadixDigit(c: char, radix: nat) {
    DigitOf(c) < radix
  }

  /** Length of the longest prefix of `s` made of digits in `radix`. */
  function DigitPrefixLen(s: string, radix: nat): (k: nat)
    ensures k <= |s|
    ensures forall i :: 0 <= i < k ==> IsRadixDigit(s[i], radix)
    ensures k < |s| ==> !IsRadixDigit(s[k], radix)
    decreases |s|
  {
    if |s| > 0 && IsRadixDigit(s[0], radix) then 1 + DigitPrefixLen(s[1..], radix) else 0
  }

  /** Value of a digit string in `radix`, most significant digit first. */
  function DigitsValue(ds: string, radix: nat): nat
    decreases |ds|
  {
    if |ds| == 0 then 0
    else DigitsValue(ds[..|ds| - 1], radix) * radix + DigitOf(ds[|ds| - 1])
  }

  /** The longest digit prefix of `digits` in `radix`, converted; None when there is no digit. */
  function ParseDigits(digits: string, radix: nat): Option<int> {
    var k := DigitPrefixLen(digits, radix);
    if k == 0 then None else Some(DigitsValue(digits[..k], radix))
  }

  /** The unsigned part: base 16 after a `0x`/`0X` prefix, base 10 otherwise. */
  function ParseUnsigned(body: string): Option<int> {
    if |body| >= 2 && body[0] == '0' && (body[1] == 'x' || body[1] == 'X') then ParseDigits(body[2..], 16)
    else ParseDigits(body, 10)
  }

  function Negate(v: Option<int>): Option<int> {
    match v
    case None => None
    case Some(x) => Some(-x)
  }

  /**
   * `parseInt(s)` with no radix: skip leading whitespace, take an optional sign,
   * then read the unsigned part. None stands for NaN (no digit at all).
   */
  function ParseInt(s: string): Option<int> {
    var t := TrimStart(s);
    if |t| > 0 && t[0] == '-' then Negate(ParseUnsigned(t[1..]))
    else if |t| > 0 && t[0] == '+' then ParseUnsigned(t[1..])
    else ParseUnsigned(t)
  }

  lemma {:induction false} DigitsValueOfNatToString(n: nat)
    ensures DigitsValue(NatToString(n), 10) == n
    decreases n
  {
    var s := NatToString(n);
    if n >= 10 {
      DigitsValueOfNatToString(n / 10);
      assert s[..|s| - 1] == NatToString(n / 10);
    }
  }

  lemma {:induction false} NatToStringNoLeadingZero(n: nat)
    ensures |NatToString(n)| >= 2 ==> NatToString(n)[0] != '0'
    decreases n
  {
    if n >= 10 {
      NatToStringNoLeadingZero(n / 10);
      assert NatToString(n)[0] == NatToString(n / 10)[0];
    }
  }

  lemma AllDigitsPrefix(s: string)
    requires forall i :: 0 <= i < |s| ==> IsAsciiDigit(s[i])
    ensures DigitPrefixLen(s, 10) == |s|
  {
  }

  /** Text that does not start with whitespace is left alone by TrimStart. */
  lemma TrimStartKeeps(s: string)
    requires |s| == 0 || !IsJsWhitespace(s[0])
    ensures TrimStart(s) == s
  {
  }

  /** parseInt on text that starts with neither whitespace nor a sign reads its unsigned part. */
  lemma ParseIntUnsigned(s: string)
    requires |s| == 0 || (!IsJsWhitespace(s[0]) && s[0] != '-' && s[0] != '+')
    ensures ParseInt(s) == ParseUnsigned(s)
  {
    TrimStartKeeps(s);
  }

  /** parseInt on `-` followed by text reads that text's unsigned part and negates it. */
  lemma ParseIntNegative(s: string)
    ensures ParseInt("-" + s) == Negate(ParseUnsigned(s))
  {
    var text := "-" + s;
    assert text[0] == '-';
    TrimStartKeeps(text);
    assert text[1..] == s;
  }

  /** Decimal digits without a `0x` prefix are read whole. */
  lemma ParseUnsignedOfDigits(ds: string)
    requires |ds| >= 1 && forall i :: 0 <= i < |ds| ==> IsAsciiDigit(ds[i])
    requires |ds| >= 2 ==> ds[0] != '0'
    ensures ParseUnsigned(ds) == Some(DigitsValue(ds, 10))
  {
    AllDigitsPrefix(ds);
    assert ds[..|ds|] == ds;
  }

  /** The unsigned part of the decimal text of a natural number is that number. */
  lemma ParseUnsignedOfNatToString(m: nat)
    ensures ParseUnsigned(NatToString(m)) == Some(m)
  {
    NatToStringNoLeadingZero(m);
    DigitsValueOfNatToString(m);
    ParseUnsignedOfDigits(NatToString(m));
  }

  /** Reading back the text `${n}` of any integer with parseInt gives `n`. */
  lemma ParseIntOfIntToString(n: int)
    ensures ParseInt(IntToString(n)) == Some(n)
  {
    if n < 0 {
      var m: nat := -n;
      assert IntToString(n) == "-" + NatToString(m);
      ParseUnsignedOfNatToString(m);
      ParseIntNegative(NatToString(m));
    } else {
      var digits := NatToString(n);
      assert IsAsciiDigit(digits[0]);
      ParseIntUnsigned(digits);
      ParseUnsignedOfNatToString(n);
    }
  }

  /** The workflow's default "3" and the value "0" are both numbers. */
  lemma ParseIntDecimalExamples()
    ensures ParseInt("3") == Some(3)
    ensures ParseInt("0") == Some(0)
  {
    ParseIntOfIntToString(3);
    ParseIntOfIntToString(0);
  }

  /** Leading whitespace is skipped and reading stops at the first non-digit. */
  lemma ParseIntPrefixExample()
    ensures ParseInt(" 12abc") == Some(12)
  {
    var s := " 12abc";
    assert s[1..] == "12abc";
    assert "12abc"[0] == '1';
    TrimStartKeeps("12abc");
    assert TrimStart(s) == "12abc";
    assert "12abc"[1..] == "2abc" && "2abc"[1..] == "abc";
    assert DigitPrefixLen("abc", 10) == 0;
    assert DigitPrefixLen("2abc", 10) == 1;
    assert DigitPrefixLen("12abc", 10) == 2;
    assert "12abc"[..2] == "12";
    assert "12"[..1] == "1";
    assert DigitsValue("1", 10) == 1;
    assert DigitsValue("12", 10) == 12;
    assert ParseDigits("12abc", 10) == Some(12);
    assert ParseUnsigned("12abc") == Some(12);
  }

  /** "1f" in base 16 is 31. */
  lemma ParseDigitsHexExample()
    ensures ParseDigits("1f", 16) == Some(31)
  {
    assert "1f"[1..] == "f" && "f"[1..] == "";
    assert DigitPrefixLen("f", 16) == 1;
    assert DigitPrefixLen("1f", 16) == 2;
    assert "1f"[..2] == "1f";
    assert "1f"[..1] == "1";
    assert DigitsValue("1", 16) == 1;
  }

  /** A `0x` prefix after the sign switches to base 16. */
  lemma ParseIntHexExample()
    ensures ParseInt("-0x1f") == Some(-31)
  {
    assert "-" + "0x1f" == "-0x1f";
    ParseIntNegative("0x1f");
    assert "0x1f"[2..] == "1f";
    ParseDigitsHexExample();
  }

  /** An empty `runs` input reads as NaN. */
  lemma ParseIntEmptyIsNaN()
    ensures ParseInt("") == None
  {
    ParseIntUnsigned("");
    assert DigitPrefixLen("", 10) == 0;
  }

  /** Text without a leading digit reads as NaN. */
  lemma ParseIntWordIsNaN()
    ensures ParseInt("abc") == None
  {
    assert "abc"[0] == 'a';
    ParseIntUnsigned("abc");
    assert !IsRadixDigit('a', 10);
    assert DigitPrefixLen("abc", 10) == 0;
  }

  /** A `0x` prefix with no hexadecimal digit after it reads as NaN, not as 0. */
  lemma ParseIntBareHexPrefixIsNaN()
    ensures ParseInt("0x") == None
  {
    assert "0x"[0] == '0';
    ParseIntUnsigned("0x");
    assert "0x"[2..] == "";
    assert DigitPrefixLen("", 16) == 0;
  }
}
