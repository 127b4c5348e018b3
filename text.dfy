/**
 * The pieces of Python's `str` and `int` behaviour that the storage-adapter
 * helpers rely on: whitespace stripping, ASCII lower-casing, `str(n)` and
 * `int(s)` for base-10 text, and `str.split(sep, 1)`.
 */
module Text {
  import opened Wrappers

  /** The characters for which Python's `str.isspace()` holds: none of them can be part of a number. */
  predicate IsSpace(c: char): (b: bool)
    ensures b ==> !IsDigit(c) && c != '+' && c != '-'
  {
    || ('\t' <= c <= '\r')
    || ('\U{1c}' <= c <= ' ')
    || c == '\U{85}' || c == '\U{a0}' || c == '\U{1680}'
    || ('\U{2000}' <= c <= '\U{200a}')
    || c == '\U{2028}' || c == '\U{2029}' || c == '\U{202f}' || c == '\U{205f}' || c == '\U{3000}'
  }

  /** The ASCII information separators U+001C to U+001F. */
  predicate IsSeparator(c: char) {
    '\U{1c}' <= c <= '\U{1f}'
  }

  /**
   * The whitespace `int()` skips around its digits. Non-ASCII whitespace is
   * skipped, but of the ASCII characters only tab to carriage return and the
   * space are: the separators U+001C to U+001F, which `isspace()` counts,
   * are not.
   */
  predicate IsIntSpace(c: char): (b: bool)
    ensures b ==> IsSpace(c)
    ensures IsSeparator(c) ==> !b
  {
    IsSpace(c) && !IsSeparator(c)
  }

  /** Which whitespace is meant: what `str.strip()` removes, or what `int()` skips. */
  datatype Spaces = StrSpaces | IntSpaces

  predicate IsSpaceIn(c: char, w: Spaces) {
    if w == StrSpaces then IsSpace(c) else IsIntSpace(c)
  }

  predicate IsBlank(s: string, w: Spaces) {
    forall i :: 0 <= i < |s| ==> IsSpaceIn(s[i], w)
  }

  /** The number of whitespace characters at the front of `s`. */
  function LeadingSpace(s: string, w: Spaces): (n: nat)
    ensures n <= |s|
    ensures forall i :: 0 <= i < n ==> IsSpaceIn(s[i], w)
    ensures n < |s| ==> !IsSpaceIn(s[n], w)
  {
    if s != [] && IsSpaceIn(s[0], w) then 1 + LeadingSpace(s[1..], w) else 0
  }

  /** The number of whitespace characters at the back of `s`. */
  function TrailingSpace(s: string, w: Spaces): (n: nat)
    ensures n <= |s|
    ensures forall i :: |s| - n <= i < |s| ==> IsSpaceIn(s[i], w)
    ensures n < |s| ==> !IsSpaceIn(s[|s| - n - 1], w)
  {
    if s != [] && IsSpaceIn(s[|s| - 1], w) then 1 + TrailingSpace(s[..|s| - 1], w) else 0
  }

  /** The text between the leading and the trailing whitespace: `s.strip()` for `StrSpaces`. */
  function Strip(s: string, w: Spaces): (r: string)
    ensures r == [] <==> IsBlank(s, w)
    ensures r == [] || (!IsSpaceIn(r[0], w) && !IsSpaceIn(r[|r| - 1], w))
  {
    var lead := LeadingSpace(s, w);
    if lead == |s| then [] else s[lead..|s| - TrailingSpace(s, w)]
  }

  /** Every character stripping keeps comes from `s`, and it drops no character that is not whitespace. */
  lemma StripKeepsText(s: string, w: Spaces)
    ensures forall c :: c in Strip(s, w) ==> c in s
    ensures forall i :: 0 <= i < |s| && !IsSpaceIn(s[i], w) ==> s[i] in Strip(s, w)
  {
    var lead, trail := LeadingSpace(s, w), TrailingSpace(s, w);
    if lead < |s| {
      forall i | 0 <= i < |s| && !IsSpaceIn(s[i], w) ensures s[i] in Strip(s, w) {
        assert lead <= i < |s| - trail;
        assert Strip(s, w)[i - lead] == s[i];
      }
    }
  }

  /** ASCII-only lower-casing of one character. */
  function LowerChar(c: char): (d: char)
    ensures !('A' <= d <= 'Z')
    ensures 'A' <= c <= 'Z' ==> d as int - c as int == 'a' as int - 'A' as int
    ensures !('A' <= c <= 'Z') ==> d == c
  {
    if 'A' <= c <= 'Z' then (c as int + 32) as char else c
  }

  /** ASCII-only `s.lower()`. */
  function Lower(s: string): (r: string)
    ensures |r| == |s| && forall i :: 0 <= i < |s| ==> r[i] == LowerChar(s[i])
    ensures forall i :: 0 <= i < |r| ==> !('A' <= r[i] <= 'Z')
  {
    seq(|s|, i requires 0 <= i < |s| => LowerChar(s[i]))
  }

  predicate IsDigit(c: char) {
    '0' <= c <= '9'
  }

  predicate AllDigits(s: string) {
    forall i :: 0 <= i < |s| ==> IsDigit(s[i])
  }

  function DigitChar(d: nat): (c: char)
    requires d < 10
    ensures IsDigit(c) && c as int - '0' as int == d
  {
    ('0' as int + d) as char
  }

  /** The value of a run of ASCII digits, most significant first. */
  function DigitsValue(s: string): nat
    requires AllDigits(s)
  {
    if s == [] then 0 else DigitsValue(s[..|s| - 1]) * 10 + (s[|s| - 1] as int - '0' as int)
  }

  /** `str(n)` for a non-negative integer: its shortest decimal spelling. */
  function NatToString(n: nat): (s: string)
    ensures s != [] && AllDigits(s)
    ensures |s| > 1 ==> s[0] != '0'
  {
    if n < 10 then [DigitChar(n)] else NatToString(n / 10) + [DigitChar(n % 10)]
  }

  /** `str(n)` for any integer; a negative value is spelled with a leading '-'. */
  function IntToString(n: int): (s: string)
    ensures s != [] && (s[0] == '-' <==> n < 0)
    ensures forall i :: 0 < i < |s| ==> IsDigit(s[i])
    ensures n >= 0 ==> s == NatToString(n)
  {
    if n < 0 then "-" + NatToString(-n) else NatToString(n)
  }

  /**
   * Python's `int(s)` for base 10, restricted to ASCII digits: the whitespace
   * `int()` skips, an optional sign, one or more digits, and that whitespace
   * again. `None` stands for the `ValueError` Python raises.
   */
  function ParseInt(s: string): (r: Option<int>)
    ensures r.Some? ==> !IsBlank(s, StrSpaces)
  {
    var t := Strip(s, IntSpaces);
    StripKeepsText(s, IntSpaces);
    ParseSigned(t)
  }

  /** An optional sign followed by one or more ASCII digits, nothing else. */
  function ParseSigned(t: string): (r: Option<int>)
    ensures r.Some? ==> t != [] && IsDigit(t[|t| - 1])
  {
    if t != [] && (t[0] == '+' || t[0] == '-') then
      var ds := t[1..];
      if ds != [] && AllDigits(ds) then
        var v: int := DigitsValue(ds);
        Some(if t[0] == '-' then -v else v)
      else
        None
    else if t != [] && AllDigits(t) then
      Some(DigitsValue(t))
    else
      None
  }

  /** `int(s)` never yields a negative value for text without a '-'. */
  lemma ParseIntNonNegative(s: string)
    requires '-' !in s
    ensures ParseInt(s).Some? ==> ParseInt(s).value >= 0
  {
    StripKeepsText(s, IntSpaces);
  }

  /**
   * `int(s)` fails when `s` holds a character that is neither whitespace
   * `int()` skips, a digit nor a sign: the separators U+001C to U+001F among them.
   */
  lemma ParseIntRejects(s: string, i: nat)
    requires i < |s| && !IsIntSpace(s[i]) && !IsDigit(s[i]) && s[i] != '+' && s[i] != '-'
    ensures ParseInt(s) == None
  {
    StripKeepsText(s, IntSpaces);
    var t := Strip(s, IntSpaces);
    var k :| 0 <= k < |t| && t[k] == s[i];
    if t[0] == '+' || t[0] == '-' {
      assert k > 0 && t[1..][k - 1] == s[i];
    }
  }

  lemma {:induction false} NatToStringValue(n: nat)
    ensures DigitsValue(NatToString(n)) == n
  {
    var s := NatToString(n);
    if n >= 10 {
      NatToStringValue(n / 10);
      assert s[..|s| - 1] == NatToString(n / 10);
    }
  }

  /** `str(n)` has no surrounding whitespace for `strip()` to remove. */
  lemma IntToStringIsStripped(n: int)
    ensures Strip(IntToString(n), IntSpaces) == IntToString(n)
  {
    var s := IntToString(n);
    assert !IsSpaceIn(s[0], IntSpaces) && !IsSpaceIn(s[|s| - 1], IntSpaces);
    assert LeadingSpace(s, IntSpaces) == 0 && TrailingSpace(s, IntSpaces) == 0;
  }

  /** `int(str(n)) == n` */
  lemma ParseIntToString(n: int)
    ensures ParseInt(IntToString(n)) == Some(n)
  {
    IntToStringIsStripped(n);
    ParseSignedOfIntToString(n);
  }

  lemma ParseSignedOfIntToString(n: int)
    ensures ParseSigned(IntToString(n)) == Some(n)
  {
    var s := IntToString(n);
    if n < 0 {
      assert s[1..] == NatToString(-n);
      NatToStringValue(-n);
    } else {
      NatToStringValue(n);
    }
  }

  /** `s.split(sep, 1)`: `None` when `sep` does not occur, else the text before and after its first occurrence. */
  function SplitAtFirst(s: string, sep: char): (r: Option<(string, string)>)
    ensures r.None? <==> sep !in s
    ensures r.Some? ==> s == r.value.0 + [sep] + r.value.1 && sep !in r.value.0
  {
    if s == [] then None
    else if s[0] == sep then Some(([], s[1..]))
    else match SplitAtFirst(s[1..], sep)
      case None => None
      case Some((a, b)) =>
        assert s == [s[0]] + s[1..];
        Some(([s[0]] + a, b))
  }

  /** Splitting `a + [sep] + b` at its first `sep` gives back `a` and `b` when `a` holds no `sep`. */
  lemma {:induction false} SplitAtFirstJoin(a: string, sep: char, b: string)
    requires sep !in a
    ensures SplitAtFirst(a + [sep] + b, sep) == Some((a, b))
  {
    var s := a + [sep] + b;
    if a != [] {
      assert s[0] == a[0] && s[1..] == a[1..] + [sep] + b;
      SplitAtFirstJoin(a[1..], sep, b);
      assert [a[0]] + a[1..] == a;
    }
  }
}
