/**
 * The few Python string operations the application relies on: `strip`,
 * `lower`, the substring test `in`, `replace`, `str(int)` and `float(str)`.
 */
module Text {
  import opened Wrappers

  /** Characters Python's `str.strip()` removes (the ASCII part of `str.isspace`). */
  predicate IsSpace(c: char) {
    c == ' ' || ('\t' <= c <= '\r') || (28 <= c as int <= 31)
  }

  predicate AllSpace(s: string) {
    forall k :: 0 <= k < |s| ==> IsSpace(s[k])
  }

  function StripLeft(s: string): (r: string)
    ensures |r| <= |s| && r == s[|s| - |r|..]
    ensures AllSpace(s[..|s| - |r|])
    ensures |r| > 0 ==> !IsSpace(r[0])
  {
    if |s| > 0 && IsSpace(s[0]) then StripLeft(s[1..]) else s
  }

  function StripRight(s: string): (r: string)
    ensures |r| <= |s| && r == s[..|r|]
    ensures AllSpace(s[|r|..])
    ensures |r| > 0 ==> !IsSpace(r[|r| - 1])
  {
    if |s| > 0 && IsSpace(s[|s| - 1]) then StripRight(s[..|s| - 1]) else s
  }

  /** Python's `s.strip()`: leading whitespace, then trailing whitespace, removed. */
  function Strip(s: string): string {
    StripRight(StripLeft(s))
  }

  /** `strip` keeps the longest slice that neither starts nor ends with whitespace. */
  lemma StripSpec(s: string)
    ensures exists i, j :: 0 <= i <= j <= |s| && Strip(s) == s[i..j] && AllSpace(s[..i]) && AllSpace(s[j..])
    ensures |Strip(s)| > 0 ==> !IsSpace(Strip(s)[0]) && !IsSpace(Strip(s)[|Strip(s)| - 1])
  {
    var l := StripLeft(s);
    var r := StripRight(l);
    var i := |s| - |l|;
    assert r == s[i..i + |r|];
    assert s[i + |r|..] == l[|r|..];
  }

  /** Text that neither starts nor ends with whitespace is its own `strip`. */
  lemma StripNoSpaceEnds(s: string)
    requires |s| > 0 && !IsSpace(s[0]) && !IsSpace(s[|s| - 1])
    ensures Strip(s) == s
  {
  }

  /** Stripping twice is stripping once. */
  lemma StripIdempotent(s: string)
    ensures Strip(Strip(s)) == Strip(s)
  {
    StripSpec(s);
    if |Strip(s)| > 0 {
      StripNoSpaceEnds(Strip(s));
    }
  }

  lemma StripOfAllSpace(s: string)
    requires AllSpace(s)
    ensures Strip(s) == []
  {
  }

  function LowerChar(c: char): char {
    if 'A' <= c <= 'Z' then (c as int + 32) as char else c
  }

  /** Python's `s.lower()` restricted to ASCII letters. */
  function Lower(s: string): (r: string)
    ensures |r| == |s|
    ensures forall k :: 0 <= k < |s| ==> r[k] == LowerChar(s[k])
  {
    seq(|s|, k requires 0 <= k < |s| => LowerChar(s[k]))
  }

  predicate IsPrefixOf(needle: string, hay: string) {
    |needle| <= |hay| && hay[..|needle|] == needle
  }

  /** Reference meaning of Python's `needle in hay`: some position starts a copy of `needle`. */
  ghost predicate Occurs(needle: string, hay: string) {
    exists k :: 0 <= k <= |hay| && IsPrefixOf(needle, hay[k..])
  }

  /** Python's `needle in hay` on strings, as a left-to-right scan. */
  function Contains(hay: string, needle: string): bool
    decreases |hay|
  {
    IsPrefixOf(needle, hay) || (|hay| > 0 && Contains(hay[1..], needle))
  }

  lemma {:induction false} ContainsIsOccurs(hay: string, needle: string)
    ensures Contains(hay, needle) <==> Occurs(needle, hay)
    decreases |hay|
  {
    if |hay| > 0 {
      ContainsIsOccurs(hay[1..], needle);
      if Occurs(needle, hay[1..]) {
        var k :| 0 <= k <= |hay[1..]| && IsPrefixOf(needle, hay[1..][k..]);
        assert hay[1..][k..] == hay[k + 1..];
      }
      if Occurs(needle, hay) && !IsPrefixOf(needle, hay) {
        var k :| 0 <= k <= |hay| && IsPrefixOf(needle, hay[k..]);
        assert k > 0 by { assert hay[0..] == hay; }
        assert hay[1..][k - 1..] == hay[k..];
      }
    } else {
      if Occurs(needle, hay) {
        var k :| 0 <= k <= |hay| && IsPrefixOf(needle, hay[k..]);
        assert hay[k..] == hay;
      }
    }
    assert IsPrefixOf(needle, hay) ==> hay[0..] == hay;
  }

  /** Python's `s.replace(old, new)` for one-character `old` and `new`. */
  function ReplaceChar(s: string, target: char, replacement: char): (r: string)
    ensures |r| == |s|
    ensures forall k :: 0 <= k < |s| ==> r[k] == (if s[k] == target then replacement else s[k])
  {
    seq(|s|, k requires 0 <= k < |s| => if s[k] == target then replacement else s[k])
  }

  /** Python's `sep.join(parts)`. */
  function Join(parts: seq<string>, sep: char): string {
    if |parts| == 0 then ""
    else if |parts| == 1 then parts[0]
    else parts[0] + [sep] + Join(parts[1..], sep)
  }

  /** Python's `s.split(sep)` for a one-character separator: never empty, no piece holds `sep`. */
  function Split(s: string, sep: char): (parts: seq<string>)
    ensures |parts| >= 1
    ensures forall k :: 0 <= k < |parts| ==> sep !in parts[k]
    decreases |s|
  {
    if |s| == 0 then [""]
    else
      var rest := Split(s[1..], sep);
      if s[0] == sep then [""] + rest
      else [[s[0]] + rest[0]] + rest[1..]
  }

  /** Splitting and re-joining with the same separator gives the text back. */
  lemma {:induction false} JoinSplit(s: string, sep: char)
    ensures Join(Split(s, sep), sep) == s
    decreases |s|
  {
    if |s| > 0 {
      var rest := Split(s[1..], sep);
      JoinSplit(s[1..], sep);
      if s[0] == sep {
        assert ([""] + rest)[1..] == rest;
        assert s == [sep] + s[1..];
      } else {
        var parts := [[s[0]] + rest[0]] + rest[1..];
        assert parts[1..] == rest[1..];
        if |rest| == 1 {
          assert s == [s[0]] + rest[0];
        } else {
          assert Join(rest, sep) == rest[0] + [sep] + Join(rest[1..], sep);
          assert s == [s[0]] + s[1..];
        }
      }
    }
  }

  predicate IsDigit(c: char) {
    '0' <= c <= '9'
  }

  predicate AllDigits(s: string) {
    forall k :: 0 <= k < |s| ==> IsDigit(s[k])
  }

  function DigitValue(c: char): nat
    requires IsDigit(c)
  {
    c as int - '0' as int
  }

  /** The number a run of decimal digits denotes. */
  function DigitsValue(s: string): nat
    requires AllDigits(s)
  {
    if |s| == 0 then 0 else DigitsValue(s[..|s| - 1]) * 10 + DigitValue(s[|s| - 1])
  }

  function Pow10(n: nat): (p: nat)
    ensures p >= 1
  {
    if n == 0 then 1 else 10 * Pow10(n - 1)
  }

  /** Python's `str(n)` for a natural number. */
  function NatToString(n: nat): (s: string)
    ensures |s| > 0 && AllDigits(s)
    ensures DigitsValue(s) == n
  {
    var d := ['0' + (n % 10) as char];
    if n < 10 then d else NatToString(n / 10) + d
  }

  function DigitPrefixLen(s: string): (k: nat)
    ensures k <= |s| && AllDigits(s[..k])
    ensures k < |s| ==> !IsDigit(s[k])
  {
    if |s| > 0 && IsDigit(s[0]) then
      var k := 1 + DigitPrefixLen(s[1..]);
      assert s[..k] == [s[0]] + s[1..][..k - 1];
      k
    else 0
  }

  /** The leading digit run of `a + rest` is exactly `a` when `rest` does not start with a digit. */
  lemma {:induction false} DigitPrefixLenAppend(a: string, rest: string)
    requires AllDigits(a) && (|rest| == 0 || !IsDigit(rest[0]))
    ensures DigitPrefixLen(a + rest) == |a|
  {
    if |a| > 0 {
      assert (a + rest)[1..] == a[1..] + rest;
      DigitPrefixLenAppend(a[1..], rest);
    } else {
      assert a + rest == rest;
    }
  }

  /** The number `ip.frac` denotes. */
  function DecimalValue(ip: string, frac: string): real
    requires AllDigits(ip) && AllDigits(frac)
  {
    DigitsValue(ip) as real + DigitsValue(frac) as real / Pow10(|frac|) as real
  }

  /** An unsigned decimal: `digits`, `digits.`, `digits.digits` or `.digits`. */
  function ParseUnsigned(b: string): (r: Option<real>)
    ensures r.Some? ==> r.value >= 0.0
    ensures |b| > 0 && AllDigits(b) ==> r == Some(DigitsValue(b) as real)
  {
    var k := DigitPrefixLen(b);
    var ip := b[..k];
    var rest := b[k..];
    if rest == [] then
      if k > 0 then
        assert ip == b;
        Some(DigitsValue(ip) as real)
      else None
    else if rest[0] == '.' && AllDigits(rest[1..]) && (k > 0 || |rest| > 1) then
      Some(DecimalValue(ip, rest[1..]))
    else
      None
  }

  /**
   * Python's `float(s)` on plain decimal literals: surrounding whitespace, an
   * optional sign, digits with an optional fractional part.  `None` stands for
   * the `ValueError` Python raises.
   */
  function ParseFloat(s: string): (r: Option<real>)
    ensures r.Some? ==> |Strip(s)| > 0
    ensures r.Some? && r.value < 0.0 ==> Strip(s)[0] == '-'
    ensures |Strip(s)| > 0 && AllDigits(Strip(s)) ==> r == Some(DigitsValue(Strip(s)) as real)
    ensures |Strip(s)| > 0 && IsDigit(Strip(s)[0]) ==> r == ParseUnsigned(Strip(s))
    ensures |Strip(s)| > 0 && Strip(s)[0] == '-' ==>
      r == (match ParseUnsigned(Strip(s)[1..]) case None => None case Some(v) => Some(-v))
  {
    var t := Strip(s);
    if |t| > 0 && (t[0] == '-' || t[0] == '+') then
      match ParseUnsigned(t[1..])
      case None => None
      case Some(v) => Some(if t[0] == '-' then -v else v)
    else
      ParseUnsigned(t)
  }

  /** `float("-" + digits)` is minus the digits' value. */
  lemma ParseFloatNegativeDigits(a: string)
    requires |a| > 0 && AllDigits(a)
    ensures ParseFloat(['-'] + a).Some?
    ensures ParseFloat(['-'] + a).value == -(DigitsValue(a) as real)
  {
    var t := ['-'] + a;
    assert t[|t| - 1] == a[|a| - 1];
    StripNoSpaceEnds(t);
    assert Strip(t)[1..] == a;
    var u := ParseUnsigned(a);
    assert u == Some(DigitsValue(a) as real);
    assert ParseFloat(t).Some? && ParseFloat(t).value == -u.value;
  }

  lemma ParseUnsignedDecimal(a: string, b: string)
    requires |a| > 0 && |b| > 0 && AllDigits(a) && AllDigits(b)
    ensures ParseUnsigned(a + ['.'] + b) == Some(DecimalValue(a, b))
  {
    var t := a + ['.'] + b;
    assert t == a + (['.'] + b);
    DigitPrefixLenAppend(a, ['.'] + b);
    assert t[..|a|] == a && t[|a|..] == ['.'] + b;
    assert (['.'] + b)[1..] == b;
  }

  /** `float(a + "." + b)` for digit runs `a` and `b`. */
  lemma ParseFloatDecimal(a: string, b: string)
    requires |a| > 0 && |b| > 0 && AllDigits(a) && AllDigits(b)
    ensures ParseFloat(a + ['.'] + b) == Some(DecimalValue(a, b))
  {
    var t := a + ['.'] + b;
    assert t[|t| - 1] == b[|b| - 1];
    assert t[0] == a[0];
    StripNoSpaceEnds(t);
    ParseUnsignedDecimal(a, b);
  }

  /** `float(str(n)) == n`: printing a count and reading it back is the identity. */
  lemma NatToStringParses(n: nat)
    ensures ParseFloat(NatToString(n)) == Some(n as real)
  {
    var s := NatToString(n);
    assert Strip(s) == s by {
      assert !IsSpace(s[0]);
      assert StripLeft(s) == s;
      assert !IsSpace(s[|s| - 1]);
    }
  }
}
