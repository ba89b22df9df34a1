/**
 * String primitives the scraper relies on, written out for `seq<char>`:
 * Python's `str.strip()`, `str.replace(c, '')`, `str.split(c)`, `str.lower()`
 * on ASCII letters, and `int()` on decimal literals.
 */
module Text {
  import opened Wrappers

  /** The characters Python's `str.isspace()` accepts (and `str.strip()` removes). */
  predicate IsSpace(c: char) {
    var n := c as int;
    || (0x09 <= n <= 0x0D)
    || (0x1C <= n <= 0x20)
    || n == 0x85 || n == 0xA0 || n == 0x1680
    || (0x2000 <= n <= 0x200A)
    || n == 0x2028 || n == 0x2029 || n == 0x202F || n == 0x205F || n == 0x3000
  }

  predicate AllSpace(s: string) {
    forall i :: 0 <= i < |s| ==> IsSpace(s[i])
  }

  /** Neither end of `s` is whitespace. */
  predicate IsTrimmed(s: string) {
    |s| == 0 || (!IsSpace(s[0]) && !IsSpace(s[|s| - 1]))
  }

  /** Length of the whitespace run that starts `s`. */
  function LeadingSpaces(s: string): (n: nat)
    ensures n <= |s|
    ensures AllSpace(s[..n])
    ensures n < |s| ==> !IsSpace(s[n])
  {
    if |s| == 0 || !IsSpace(s[0]) then 0
    else
      var m := LeadingSpaces(s[1..]);
      assert s[..1 + m] == [s[0]] + s[1..][..m];
      1 + m
  }

  /** Length of the whitespace run that ends `s`. */
  function TrailingSpaces(s: string): (n: nat)
    ensures n <= |s|
    ensures AllSpace(s[|s| - n..])
    ensures n < |s| ==> !IsSpace(s[|s| - n - 1])
  {
    if |s| == 0 || !IsSpace(s[|s| - 1]) then 0
    else
      var init := s[..|s| - 1];
      var m := TrailingSpaces(init);
      assert s[|s| - (1 + m)..] == init[|init| - m..] + [s[|s| - 1]];
      1 + m
  }

  /**
   * Python's `str.strip()`: `s` with its leading and trailing whitespace
   * removed. The result is trimmed, and it is the part of `s` left after
   * cutting a whitespace prefix and a whitespace suffix.
   */
  function Strip(s: string): (r: string)
    ensures |r| <= |s|
    ensures IsTrimmed(r)
    ensures exists i :: 0 <= i <= |s| - |r| && r == s[i..i + |r|] && AllSpace(s[..i]) && AllSpace(s[i + |r|..])
  {
    var a := LeadingSpaces(s);
    var b := TrailingSpaces(s[a..]);
    SuffixRun(s, a, b);
    StripCut(s, a, b);
    s[a..|s| - b]
  }

  /** The trailing run measured on `s[a..]` is the same run measured on `s`. */
  lemma SuffixRun(s: string, a: nat, b: nat)
    requires a <= |s| && b <= |s| - a
    requires AllSpace(s[a..][|s| - a - b..])
    requires b < |s| - a ==> !IsSpace(s[a..][|s| - a - b - 1])
    ensures AllSpace(s[|s| - b..])
    ensures a + b < |s| ==> !IsSpace(s[|s| - b - 1])
  {
    assert s[a..][|s| - a - b..] == s[|s| - b..];
    if a + b < |s| {
      assert s[a..][|s| - a - b - 1] == s[|s| - b - 1];
    }
  }

  /**
   * A maximal whitespace prefix of length `a` and a maximal whitespace suffix
   * of length `b` leave a trimmed middle part of `s`.
   */
  lemma StripCut(s: string, a: nat, b: nat)
    requires a + b <= |s|
    requires AllSpace(s[..a]) && AllSpace(s[|s| - b..])
    requires a < |s| ==> !IsSpace(s[a])
    requires a + b < |s| ==> !IsSpace(s[|s| - b - 1])
    ensures var r := s[a..|s| - b];
      && IsTrimmed(r)
      && exists i :: 0 <= i <= |s| - |r| && r == s[i..i + |r|] && AllSpace(s[..i]) && AllSpace(s[i + |r|..])
  {
    var r := s[a..|s| - b];
    if a + b < |s| {
      assert r[0] == s[a];
    }
    assert r == s[a..a + |r|] && s[a + |r|..] == s[|s| - b..];
    assert 0 <= a <= |s| - |r| && r == s[a..a + |r|] && AllSpace(s[..a]) && AllSpace(s[a + |r|..]);
  }

  lemma {:induction false} LeadingSpacesUnique(s: string, k: nat)
    requires k <= |s| && AllSpace(s[..k]) && (k == |s| || !IsSpace(s[k]))
    ensures LeadingSpaces(s) == k
    decreases k
  {
    if k == 0 {
    } else {
      assert IsSpace(s[..k][0]);
      assert s[1..][..k - 1] == s[1..k];
      LeadingSpacesUnique(s[1..], k - 1);
    }
  }

  lemma {:induction false} TrailingSpacesUnique(s: string, k: nat)
    requires k <= |s| && AllSpace(s[|s| - k..]) && (k == |s| || !IsSpace(s[|s| - k - 1]))
    ensures TrailingSpaces(s) == k
    decreases k
  {
    if k == 0 {
    } else {
      var init := s[..|s| - 1];
      assert IsSpace(s[|s| - k..][k - 1]);
      assert init[|init| - (k - 1)..] == s[|s| - k..|s| - 1];
      TrailingSpacesUnique(init, k - 1);
    }
  }

  /**
   * Stripping removes exactly the surrounding whitespace: padding a trimmed
   * string with whitespace on both sides and stripping gives it back.
   */
  lemma StripPadded(p: string, m: string, q: string)
    requires AllSpace(p) && AllSpace(q) && IsTrimmed(m)
    ensures Strip(p + m + q) == m
  {
    var s := p + m + q;
    if |m| == 0 {
      assert s == p + q;
      LeadingSpacesUnique(s, |s|);
    } else {
      assert s[..|p|] == p;
      assert s[|p|] == m[0];
      LeadingSpacesUnique(s, |p|);
      var t := s[|p|..];
      assert t == m + q;
      assert t[|t| - |q|..] == q;
      assert t[|t| - |q| - 1] == m[|m| - 1];
      TrailingSpacesUnique(t, |q|);
      assert t[..|t| - |q|] == m;
    }
  }

  /** Stripping a stripped string changes nothing. */
  lemma StripIdempotent(s: string)
    ensures Strip(Strip(s)) == Strip(s)
  {
    var r := Strip(s);
    assert r == "" + r + "";
    StripPadded("", r, "");
  }

  /** Python's `s.replace(c, '')`: every occurrence of `c` deleted, the rest kept in order. */
  function RemoveChar(s: string, c: char): (r: string)
    ensures c !in r
    ensures |r| <= |s|
    ensures c !in s ==> r == s
    ensures forall x :: x != c ==> multiset(r)[x] == multiset(s)[x]
  {
    if |s| == 0 then ""
    else
      assert s == [s[0]] + s[1..];
      var rest := RemoveChar(s[1..], c);
      if s[0] == c then rest else [s[0]] + rest
  }

  /** Deleting a character commutes with concatenation, so the survivors keep their order. */
  lemma {:induction false} RemoveCharAppend(a: string, b: string, c: char)
    ensures RemoveChar(a + b, c) == RemoveChar(a, c) + RemoveChar(b, c)
    decreases |a|
  {
    if |a| == 0 {
      assert a + b == b;
    } else {
      assert (a + b)[1..] == a[1..] + b;
      RemoveCharAppend(a[1..], b, c);
    }
  }

  /** Index of the first occurrence of `c` in `s`, if any. */
  function IndexOf(s: string, c: char): (r: Option<nat>)
    ensures r.Some? ==> r.value < |s| && s[r.value] == c && c !in s[..r.value]
    ensures r.None? <==> c !in s
  {
    if |s| == 0 then None
    else if s[0] == c then Some(0)
    else
      match IndexOf(s[1..], c)
      case None => None
      case Some(i) =>
        assert s[..i + 1] == [s[0]] + s[1..][..i];
        Some(i + 1)
  }

  /** Python's `s.split(c)` for a one-character separator. */
  function Split(s: string, sep: char): (r: seq<string>)
    ensures |r| >= 1
    ensures forall i :: 0 <= i < |r| ==> sep !in r[i]
    decreases |s|
  {
    match IndexOf(s, sep)
    case None => [s]
    case Some(i) => [s[..i]] + Split(s[i + 1..], sep)
  }

  /** Python's `c.join(pieces)`. */
  function Join(pieces: seq<string>, sep: char): string
  {
    if |pieces| == 0 then ""
    else if |pieces| == 1 then pieces[0]
    else pieces[0] + [sep] + Join(pieces[1..], sep)
  }

  /** Splitting loses nothing: joining the pieces back gives the original string. */
  lemma {:induction false} JoinSplit(s: string, sep: char)
    ensures Join(Split(s, sep), sep) == s
    decreases |s|
  {
    match IndexOf(s, sep)
    case None =>
    case Some(i) =>
      var rest := Split(s[i + 1..], sep);
      JoinSplit(s[i + 1..], sep);
      assert Split(s, sep) == [s[..i]] + rest;
      assert ([s[..i]] + rest)[1..] == rest;
      assert s == s[..i] + [sep] + s[i + 1..];
  }

  /** Joining two non-empty runs of pieces puts one separator between their joins. */
  lemma {:induction false} JoinAppend(a: seq<string>, b: seq<string>, sep: char)
    requires |a| > 0 && |b| > 0
    ensures Join(a + b, sep) == Join(a, sep) + [sep] + Join(b, sep)
    decreases |a|
  {
    if |a| == 1 {
      assert (a + b)[1..] == b;
    } else {
      JoinAppend(a[1..], b, sep);
      assert (a + b)[1..] == a[1..] + b;
    }
  }

  /** Python's `s.split(c, 1)` when it yields two parts: the text around the first `c`. */
  function SplitOnce(s: string, sep: char): (r: Option<(string, string)>)
    ensures r.None? <==> sep !in s
    ensures r.Some? ==> s == r.value.0 + [sep] + r.value.1 && sep !in r.value.0
  {
    match IndexOf(s, sep)
    case None => None
    case Some(i) =>
      assert s == s[..i] + [sep] + s[i + 1..];
      Some((s[..i], s[i + 1..]))
  }

  /** The text before the first `c`, or all of `s`. */
  function Before(s: string, c: char): (r: string)
    ensures c !in r && r <= s
    ensures c in s ==> |r| < |s| && s[|r|] == c
  {
    match IndexOf(s, c)
    case None => s
    case Some(i) => s[..i]
  }

  /** An ASCII upper-case letter becomes its lower-case letter; every other character stays. */
  function LowerChar(c: char): char {
    if 'A' <= c <= 'Z' then (c as int + 32) as char else c
  }

  /** Python's `str.lower()` restricted to ASCII letters, character by character. */
  function Lower(s: string): (r: string)
    ensures |r| == |s|
    ensures forall i :: 0 <= i < |r| ==> r[i] == LowerChar(s[i])
    ensures forall i :: 0 <= i < |r| ==> !('A' <= r[i] <= 'Z')
  {
    if |s| == 0 then ""
    else [LowerChar(s[0])] + Lower(s[1..])
  }

  /** Lowering twice is lowering once. */
  lemma LowerIdempotent(s: string)
    ensures Lower(Lower(s)) == Lower(s)
  {
    assert forall i :: 0 <= i < |s| ==> Lower(Lower(s))[i] == LowerChar(Lower(s)[i]) == Lower(s)[i];
  }

  predicate IsDigit(c: char) {
    '0' <= c <= '9'
  }

  predicate AllDigits(s: string) {
    forall i :: 0 <= i < |s| ==> IsDigit(s[i])
  }

  /** The value of a decimal numeral. */
  function DigitsValue(s: string): nat
    requires AllDigits(s)
  {
    if |s| == 0 then 0
    else DigitsValue(s[..|s| - 1]) * 10 + (s[|s| - 1] as int - '0' as int)
  }

  /** An optional sign followed by at least one decimal digit. */
  predicate IsIntLiteral(t: string) {
    var body := if |t| > 0 && (t[0] == '+' || t[0] == '-') then t[1..] else t;
    |body| > 0 && AllDigits(body)
  }

  /** An integer literal with no surrounding whitespace, read as `int()` reads it. */
  function ParseLiteral(t: string): (r: Option<int>)
    ensures r.Some? <==> IsIntLiteral(t)
  {
    var negative := |t| > 0 && t[0] == '-';
    var body := if |t| > 0 && (t[0] == '+' || t[0] == '-') then t[1..] else t;
    if |body| > 0 && AllDigits(body) then
      var v: int := DigitsValue(body);
      Some(if negative then -v else v)
    else None
  }

  /**
   * Python's `int(s)` on a string: surrounding whitespace is ignored, then an
   * optional sign and a run of decimal digits are required; anything else is
   * a `ValueError`, modelled as `None`.
   */
  function ParseInt(s: string): (r: Option<int>)
    ensures r.Some? <==> IsIntLiteral(Strip(s))
  {
    ParseLiteral(Strip(s))
  }

  function DigitChar(d: nat): (c: char)
    requires d < 10
    ensures IsDigit(c) && c as int - '0' as int == d
  {
    ('0' as int + d) as char
  }

  /** Python's `str(n)` for a natural number. */
  function NatToString(n: nat): (r: string)
    ensures |r| > 0 && AllDigits(r)
  {
    if n < 10 then [DigitChar(n)]
    else NatToString(n / 10) + [DigitChar(n % 10)]
  }

  /** Python's `str(i)` for an integer. */
  function IntToString(i: int): string
  {
    if i < 0 then "-" + NatToString(-i) else NatToString(i)
  }

  lemma {:induction false} NatToStringValue(n: nat)
    ensures DigitsValue(NatToString(n)) == n
  {
    if n >= 10 {
      var s := NatToString(n);
      assert s[..|s| - 1] == NatToString(n / 10);
      NatToStringValue(n / 10);
    }
  }

  /** A string with no whitespace at either end strips to itself. */
  lemma StripTrimmed(s: string)
    requires IsTrimmed(s)
    ensures Strip(s) == s
  {
    assert "" + s + "" == s;
    StripPadded("", s, "");
  }

  /** `int()` reads a run of digits as its decimal value. */
  lemma ParseDigits(digits: string)
    requires |digits| > 0 && AllDigits(digits)
    ensures ParseInt(digits) == Some(DigitsValue(digits))
  {
    assert IsDigit(digits[0]) && IsDigit(digits[|digits| - 1]);
    StripTrimmed(digits);
    assert ParseLiteral(digits) == Some(DigitsValue(digits));
  }

  /** `int()` reads a minus sign and a run of digits as the negated value. */
  lemma ParseNegativeDigits(digits: string)
    requires |digits| > 0 && AllDigits(digits)
    ensures ParseInt("-" + digits) == Some(-(DigitsValue(digits) as int))
  {
    var s := "-" + digits;
    assert s[|s| - 1] == digits[|digits| - 1];
    assert IsDigit(s[|s| - 1]);
    StripTrimmed(s);
    ParseNegativeLiteral(digits);
  }

  lemma ParseNegativeLiteral(digits: string)
    requires |digits| > 0 && AllDigits(digits)
    ensures ParseLiteral("-" + digits) == Some(-(DigitsValue(digits) as int))
  {
    var s := "-" + digits;
    assert s[1..] == digits;
  }

  /**
   * `int()` on a padded literal: whitespace around an optional `+` or `-`
   * and a run of digits is ignored, and the sign applies to the digits'
   * value, so `int(" +7 ")` is 7 and `int("\t-12\n")` is -12.
   */
  lemma ParsePadded(p: string, sign: string, digits: string, q: string)
    requires AllSpace(p) && AllSpace(q)
    requires sign == "" || sign == "+" || sign == "-"
    requires |digits| > 0 && AllDigits(digits)
    ensures ParseInt(p + sign + digits + q) == Some(if sign == "-" then -(DigitsValue(digits) as int) else DigitsValue(digits))
  {
    SignedTrimmed(sign, digits);
    Regroup(p, sign, digits, q);
    StripPadded(p, sign + digits, q);
    SignedLiteral(sign, digits);
  }

  lemma Regroup(p: string, a: string, b: string, q: string)
    ensures p + a + b + q == p + (a + b) + q
  {
  }

  lemma SignedTrimmed(sign: string, digits: string)
    requires sign == "" || sign == "+" || sign == "-"
    requires |digits| > 0 && AllDigits(digits)
    ensures IsTrimmed(sign + digits)
  {
    var m := sign + digits;
    assert m[|m| - 1] == digits[|digits| - 1];
    assert IsDigit(m[|m| - 1]);
    assert m[0] == if sign == "" then digits[0] else sign[0];
  }

  lemma SignedLiteral(sign: string, digits: string)
    requires sign == "" || sign == "+" || sign == "-"
    requires |digits| > 0 && AllDigits(digits)
    ensures ParseLiteral(sign + digits) == Some(if sign == "-" then -(DigitsValue(digits) as int) else DigitsValue(digits))
  {
    if sign == "-" {
      ParseNegativeLiteral(digits);
    } else if sign == "+" {
      ParsePlusLiteral(digits);
    } else {
      assert sign + digits == digits;
      assert IsDigit(digits[0]);
    }
  }

  lemma ParsePlusLiteral(digits: string)
    requires |digits| > 0 && AllDigits(digits)
    ensures ParseLiteral("+" + digits) == Some(DigitsValue(digits))
  {
    var s := "+" + digits;
    assert s[1..] == digits;
  }

  /** `int(str(i)) == i`: printing an integer and reading it back is lossless. */
  lemma IntToStringRoundTrip(i: int)
    ensures ParseInt(IntToString(i)) == Some(i)
  {
    var n: nat := if i < 0 then -i else i;
    var digits := NatToString(n);
    NatToStringValue(n);
    if i < 0 {
      assert IntToString(i) == "-" + digits;
      ParseNegativeDigits(digits);
    } else {
      assert IntToString(i) == digits;
      ParseDigits(digits);
    }
  }
}
