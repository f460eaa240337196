/**
 * The string handling the trigger configuration and the notification
 * text rely on: JavaScript's `String.prototype.split` with a one-character
 * separator, `parseInt(s, 10)`, and the decimal rendering of an integer in
 * a template literal.
 */
module Text {
  import opened Results

  predicate IsDigit(c: char) {
    '0' <= c <= '9'
  }

  predicate AllDigits(s: string) {
    forall i :: 0 <= i < |s| ==> IsDigit(s[i])
  }

  /** White space that `parseInt` skips before the number: space, tab, line feed and carriage return only. */
  predicate IsSpace(c: char) {
    c == ' ' || c == '\t' || c == '\n' || c == '\r'
  }

  predicate EndsWith(s: string, suffix: string) {
    |suffix| <= |s| && s[|s| - |suffix|..] == suffix
  }

  function DigitValue(c: char): (d: nat)
    requires IsDigit(c)
    ensures d < 10
  {
    (c as int) - ('0' as int)
  }

  function DigitChar(d: nat): (c: char)
    requires d < 10
    ensures IsDigit(c) && DigitValue(c) == d
  {
    (('0' as int) + d) as char
  }

  /** Decimal rendering of `n`: most significant digit first, no leading zero. */
  function ShowNat(n: nat): (s: string)
    ensures |s| >= 1 && AllDigits(s)
    ensures |s| > 1 ==> s[0] != '0'
    decreases n
  {
    if n < 10 then [DigitChar(n)] else ShowNat(n / 10) + [DigitChar(n % 10)]
  }

  /** Decimal rendering of an integer, as a JavaScript template literal shows it. */
  function ShowInt(n: int): (s: string)
    ensures |s| >= 1
    ensures n >= 0 ==> AllDigits(s)
    ensures n < 0 ==> s[0] == '-' && AllDigits(s[1..])
  {
    if n < 0 then "-" + ShowNat(-n) else ShowNat(n)
  }

  /** The number a non-empty run of decimal digits denotes. */
  function DigitsValue(s: string): nat
    requires AllDigits(s)
    decreases |s|
  {
    if |s| == 0 then 0 else DigitsValue(s[..|s| - 1]) * 10 + DigitValue(s[|s| - 1])
  }

  lemma {:induction false} DigitsValueShowNat(n: nat)
    ensures DigitsValue(ShowNat(n)) == n
    decreases n
  {
    if n >= 10 {
      var s := ShowNat(n);
      assert s[..|s| - 1] == ShowNat(n / 10);
      DigitsValueShowNat(n / 10);
    }
  }

  /** The longest prefix of `s` made of decimal digits. */
  function DigitPrefix(s: string): (p: string)
    ensures p <= s
    ensures AllDigits(p)
    ensures |p| < |s| ==> !IsDigit(s[|p|])
    decreases |s|
  {
    if |s| > 0 && IsDigit(s[0]) then [s[0]] + DigitPrefix(s[1..]) else ""
  }

  /** `s` without its leading white space. */
  function TrimStart(s: string): (t: string)
    ensures |t| <= |s| && t == s[|s| - |t|..]
    ensures forall i :: 0 <= i < |s| - |t| ==> IsSpace(s[i])
    ensures |t| > 0 ==> !IsSpace(t[0])
    decreases |s|
  {
    if |s| > 0 && IsSpace(s[0]) then TrimStart(s[1..]) else s
  }

  /**
   * JavaScript's `parseInt(s, 10)`: skip leading white space, read an
   * optional sign, then as many decimal digits as there are. `None` stands
   * for NaN, the answer when no digit follows the sign.
   */
  function ParseInt(s: string): Option<int> {
    ParseSigned(TrimStart(s))
  }

  /** An optional sign, then the digits. */
  function ParseSigned(t: string): Option<int> {
    if |t| > 0 && t[0] == '-' then
      match ParseDigits(t[1..])
      case None => None
      case Some(m) => Some(-m)
    else if |t| > 0 && t[0] == '+' then ParseDigits(t[1..])
    else ParseDigits(t)
  }

  /** The value of the leading digits, or NaN when there are none. */
  function ParseDigits(t: string): Option<int> {
    var digits := DigitPrefix(t);
    if |digits| == 0 then None else Some(DigitsValue(digits))
  }

  lemma ParseIntNoSpace(s: string)
    requires |s| > 0 ==> !IsSpace(s[0])
    ensures ParseInt(s) == ParseSigned(s)
  {
    assert TrimStart(s) == s;
  }

  lemma DigitPrefixOfDigits(s: string, rest: string)
    requires AllDigits(s)
    requires |rest| > 0 ==> !IsDigit(rest[0])
    ensures DigitPrefix(s + rest) == s
  {
    if |s| > 0 {
      assert (s + rest)[1..] == s[1..] + rest;
      DigitPrefixOfDigits(s[1..], rest);
    } else {
      assert s + rest == rest;
    }
  }

  lemma ParseDigitsOf(digits: string, rest: string)
    requires |digits| >= 1 && AllDigits(digits)
    requires |rest| > 0 ==> !IsDigit(rest[0])
    ensures ParseDigits(digits + rest) == Some(DigitsValue(digits))
  {
    DigitPrefixOfDigits(digits, rest);
  }

  lemma ParseSignedUnsigned(t: string)
    requires |t| > 0 ==> t[0] != '-' && t[0] != '+'
    ensures ParseSigned(t) == ParseDigits(t)
  {
  }

  /** `parseInt` reads an unsigned run of digits and stops after it. */
  lemma ParseIntDigits(digits: string, rest: string)
    requires |digits| >= 1 && AllDigits(digits)
    requires |rest| > 0 ==> !IsDigit(rest[0])
    ensures ParseInt(digits + rest) == Some(DigitsValue(digits))
  {
    var s := digits + rest;
    var c := digits[0];
    assert IsDigit(c);
    assert s[0] == c;
    ParseIntNoSpace(s);
    ParseSignedUnsigned(s);
    ParseDigitsOf(digits, rest);
  }

  lemma ParseSignedMinus(t: string, m: int)
    requires |t| > 0 && t[0] == '-'
    requires ParseDigits(t[1..]) == Some(m)
    ensures ParseSigned(t) == Some(-m)
  {
  }

  /** A minus sign in front of what reads as `m` reads as `-m`. */
  lemma ParseIntNegative(t: string, m: int)
    requires ParseDigits(t) == Some(m)
    ensures ParseInt("-" + t) == Some(-m)
  {
    var s := "-" + t;
    assert s[0] == '-';
    assert s[1..] == t;
    ParseIntNoSpace(s);
    ParseSignedMinus(s, m);
  }

  lemma ShowIntSign(n: int)
    ensures n < 0 ==> ShowInt(n) == "-" + ShowNat(-n)
    ensures n >= 0 ==> ShowInt(n) == ShowNat(n)
  {
  }

  /**
   * `parseInt` reads back what a template literal wrote, and stops at the
   * first character after the digits.
   */
  lemma ParseIntShowInt(n: int, rest: string)
    requires |rest| > 0 ==> !IsDigit(rest[0])
    ensures ParseInt(ShowInt(n) + rest) == Some(n)
  {
    ShowIntSign(n);
    if n < 0 {
      var m: nat := -n;
      var digits := ShowNat(m);
      assert ShowInt(n) + rest == "-" + (digits + rest);
      ParseDigitsOf(digits, rest);
      DigitsValueShowNat(m);
      ParseIntNegative(digits + rest, m);
    } else {
      ParseIntDigits(ShowNat(n), rest);
      DigitsValueShowNat(n);
    }
  }

  /** JavaScript's `s.split(sep)` for a one-character separator. */
  function Split(s: string, sep: char): (parts: seq<string>)
    ensures |parts| >= 1
    ensures forall i :: 0 <= i < |parts| ==> sep !in parts[i]
    decreases |s|
  {
    if |s| == 0 then [""]
    else
      var rest := Split(s[1..], sep);
      if s[0] == sep then [""] + rest else [[s[0]] + rest[0]] + rest[1..]
  }

  /** JavaScript's `parts.join(sep)`. */
  function Join(parts: seq<string>, sep: char): string
    requires |parts| >= 1
    decreases |parts|
  {
    if |parts| == 1 then parts[0] else parts[0] + [sep] + Join(parts[1..], sep)
  }

  /** Splitting loses nothing: joining the parts again gives back the string. */
  lemma {:induction false} JoinSplit(s: string, sep: char)
    ensures Join(Split(s, sep), sep) == s
    decreases |s|
  {
    if |s| > 0 {
      var rest := Split(s[1..], sep);
      JoinSplit(s[1..], sep);
      if s[0] == sep {
        assert Split(s, sep)[1..] == rest;
      } else if |rest| == 1 {
        assert s == [s[0]] + s[1..];
      } else {
        var parts := Split(s, sep);
        assert parts[1..] == rest[1..];
        assert Join(rest, sep) == rest[0] + [sep] + Join(rest[1..], sep);
        assert s == [s[0]] + s[1..];
      }
    }
  }

  lemma {:induction false} SplitWithoutSep(a: string, sep: char)
    requires sep !in a
    ensures Split(a, sep) == [a]
    decreases |a|
  {
    if |a| > 0 {
      SplitWithoutSep(a[1..], sep);
      assert [a[0]] + a[1..] == a;
    }
  }

  lemma {:induction false} SplitAtSep(a: string, sep: char, b: string)
    requires sep !in a
    ensures Split(a + [sep] + b, sep) == [a] + Split(b, sep)
    decreases |a|
  {
    var s := a + [sep] + b;
    if |a| == 0 {
      assert s[1..] == b;
    } else {
      assert s[1..] == a[1..] + [sep] + b;
      SplitAtSep(a[1..], sep, b);
      assert [a[0]] + a[1..] == a;
    }
  }

  /** Parts free of the separator are recovered exactly from their join. */
  lemma {:induction false} SplitJoin(parts: seq<string>, sep: char)
    requires |parts| >= 1
    requires forall i :: 0 <= i < |parts| ==> sep !in parts[i]
    ensures Split(Join(parts, sep), sep) == parts
    decreases |parts|
  {
    if |parts| == 1 {
      SplitWithoutSep(parts[0], sep);
    } else {
      SplitJoin(parts[1..], sep);
      SplitAtSep(parts[0], sep, Join(parts[1..], sep));
      assert [parts[0]] + parts[1..] == parts;
    }
  }
}
