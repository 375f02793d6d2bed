/**
 * Decimal text of integers, as written by Java's string concatenation and
 * Python's `str`/f-strings, and as read back by Java's `Integer.parseInt`,
 * Java's `String.trim` and Python's `int`.
 */
module Decimal {
  import opened Wrappers
  import opened JavaInt

  predicate IsDigit(c: char) { '0' <= c <= '9' }

  predicate AllDigits(s: string) { forall i :: 0 <= i < |s| ==> IsDigit(s[i]) }

  function DigitValue(c: char): nat
    requires IsDigit(c)
  {
    (c as int) - ('0' as int)
  }

  function DigitChar(d: nat): (c: char)
    requires d < 10
    ensures IsDigit(c) && DigitValue(c) == d
  {
    (('0' as int) + d) as char
  }

  /** The numeral of a natural number: no sign, no leading zero. */
  function NaturalText(n: nat): (s: string)
    ensures |s| > 0 && AllDigits(s)
    ensures |s| > 1 ==> s[0] != '0'
  {
    if n < 10 then [DigitChar(n)] else NaturalText(n / 10) + [DigitChar(n % 10)]
  }

  /** The decimal text of an integer, as Java's `"" + n` and Python's `str(n)` write it. */
  function Text(n: int): (s: string)
    ensures |s| > 0
    ensures forall i :: 0 <= i < |s| ==> IsDigit(s[i]) || (i == 0 && s[i] == '-')
  {
    if n < 0 then "-" + NaturalText(-n) else NaturalText(n)
  }

  /** The value of a string of digits (leading zeros allowed). */
  function DigitsValue(s: string): nat
    requires AllDigits(s)
  {
    if s == [] then 0 else DigitsValue(s[..|s| - 1]) * 10 + DigitValue(s[|s| - 1])
  }

  lemma {:induction false} DigitsValueOfNaturalText(n: nat)
    ensures DigitsValue(NaturalText(n)) == n
  {
    if n >= 10 {
      var s := NaturalText(n);
      assert s[..|s| - 1] == NaturalText(n / 10);
      DigitsValueOfNaturalText(n / 10);
    }
  }

  /** A value read with an optional sign; `None` if the text is not
      a sign followed by at least one ASCII digit. */
  function SignedValue(s: string): Option<int>
  {
    if |s| > 0 && (s[0] == '-' || s[0] == '+') then
      if |s| > 1 && AllDigits(s[1..]) then
        var v: int := DigitsValue(s[1..]);
        Some(if s[0] == '-' then -v else v)
      else None
    else if |s| > 0 && AllDigits(s) then Some(DigitsValue(s))
    else None
  }

  /** Java's `Integer.parseInt(s)`; `None` where it throws `NumberFormatException`:
      empty text, a sign alone, any non-digit, or a value outside the `int` range. */
  function ParseJavaInt(s: string): (r: Option<Int32>)
    ensures r.Some? ==> SignedValue(s) == Some(r.value as int)
    ensures r.None? ==> SignedValue(s).None? || !(MinInt <= SignedValue(s).value <= MaxInt)
  {
    match SignedValue(s)
    case Some(v) => if MinInt <= v <= MaxInt then Some(v) else None
    case None => None
  }

  lemma SignedValueOfText(n: int)
    ensures SignedValue(Text(n)) == Some(n)
  {
    DigitsValueOfNaturalText(Abs(n));
    if n < 0 {
      assert Text(n)[1..] == NaturalText(-n);
    }
  }

  /** `Integer.parseInt` reads back every `int` Java writes. */
  lemma ParseJavaIntOfText(n: Int32)
    ensures ParseJavaInt(Text(n)) == Some(n)
  {
    SignedValueOfText(n);
  }

  /** Distinct integers have distinct texts. */
  lemma TextInjective(a: int, b: int)
    requires Text(a) == Text(b)
    ensures a == b
  {
    SignedValueOfText(a);
    SignedValueOfText(b);
  }

  /** The characters Java's `String.trim` removes (code point at most U+0020). */
  predicate IsJavaSpace(c: char) { c <= ' ' }

  function TrimStart(s: string): (r: string)
    ensures |r| <= |s| && r == s[|s| - |r|..]
    ensures |r| > 0 ==> !IsJavaSpace(r[0])
    ensures forall i :: 0 <= i < |s| - |r| ==> IsJavaSpace(s[i])
  {
    if |s| > 0 && IsJavaSpace(s[0]) then TrimStart(s[1..]) else s
  }

  function TrimEnd(s: string): (r: string)
    ensures |r| <= |s| && r == s[..|r|]
    ensures |r| > 0 ==> !IsJavaSpace(r[|r| - 1])
    ensures forall i :: |r| <= i < |s| ==> IsJavaSpace(s[i])
  {
    if |s| > 0 && IsJavaSpace(s[|s| - 1]) then TrimEnd(s[..|s| - 1]) else s
  }

  /** Java's `String.trim`. */
  function Trim(s: string): string
  {
    TrimEnd(TrimStart(s))
  }

  lemma TrimOfText(n: int)
    ensures Trim(Text(n)) == Text(n)
  {
    var s := Text(n);
    assert !IsJavaSpace(s[0]) && !IsJavaSpace(s[|s| - 1]);
  }

  /** The ASCII characters Python's `int` skips around a numeral. */
  predicate IsPythonSpace(c: char)
  {
    var k := c as int;
    k == 32 || 9 <= k <= 13 || 28 <= k <= 31
  }

  /** Every character of `t` is white space to Python. */
  predicate AllPythonSpace(t: string)
  {
    forall k :: 0 <= k < |t| ==> IsPythonSpace(t[k])
  }

  /** `r` is `s[i..j]` and everything of `s` outside it is white space. */
  predicate TrimmedAt(s: string, r: string, i: int, j: int)
  {
    0 <= i <= j <= |s| && r == s[i..j] && AllPythonSpace(s[..i]) && AllPythonSpace(s[j..])
  }

  lemma TrimmedAtTail(s: string, r: string, i: int, j: int)
    requires |s| > 0 && IsPythonSpace(s[0]) && TrimmedAt(s[1..], r, i, j)
    ensures TrimmedAt(s, r, i + 1, j + 1)
  {
    assert s[1..][i..j] == s[i + 1..j + 1];
    assert s[..i + 1] == [s[0]] + s[1..][..i];
    assert s[j + 1..] == s[1..][j..];
  }

  lemma TrimmedAtFront(s: string, r: string, i: int, j: int)
    requires |s| > 0 && IsPythonSpace(s[|s| - 1]) && TrimmedAt(s[..|s| - 1], r, i, j)
    ensures TrimmedAt(s, r, i, j)
  {
    assert s[..|s| - 1][i..j] == s[i..j];
    assert s[..|s| - 1][..i] == s[..i];
    assert s[j..] == s[..|s| - 1][j..] + [s[|s| - 1]];
  }

  function StripPythonSpace(s: string): (r: string)
    decreases |s|
    ensures |r| <= |s|
    ensures |r| > 0 ==> !IsPythonSpace(r[0]) && !IsPythonSpace(r[|r| - 1])
    ensures |s| > 0 && !IsPythonSpace(s[0]) && !IsPythonSpace(s[|s| - 1]) ==> r == s
    // What is stripped is white space at the two ends and nothing else.
    ensures exists i, j :: TrimmedAt(s, r, i, j)
  {
    if |s| > 0 && IsPythonSpace(s[0]) then
      var t := StripPythonSpace(s[1..]);
      var i, j :| TrimmedAt(s[1..], t, i, j);
      TrimmedAtTail(s, t, i, j);
      t
    else if |s| > 0 && IsPythonSpace(s[|s| - 1]) then
      var t := StripPythonSpace(s[..|s| - 1]);
      var i, j :| TrimmedAt(s[..|s| - 1], t, i, j);
      TrimmedAtFront(s, t, i, j);
      t
    else
      assert TrimmedAt(s, s, 0, |s|);
      s
  }

  /** Python's `int(s)` on decimal text; `None` where it raises `ValueError`. */
  function ParsePythonInt(s: string): Option<int>
  {
    SignedValue(StripPythonSpace(s))
  }

  /** Python's `int` reads back every integer `str` writes. */
  lemma ParsePythonIntOfText(n: int)
    ensures ParsePythonInt(Text(n)) == Some(n)
  {
    var s := Text(n);
    assert !IsPythonSpace(s[0]) && !IsPythonSpace(s[|s| - 1]);
    SignedValueOfText(n);
  }
}
