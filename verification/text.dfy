/** Character-level helpers shared by the host parser and the firmware printer:
    ASCII digits, decimal digit strings, character counts and Python's
    `str.strip()`. */
module Text {

  predicate IsDigit(c: char) {
    '0' <= c <= '9'
  }

  predicate AllDigits(s: string) {
    forall i :: 0 <= i < |s| ==> IsDigit(s[i])
  }

  function DigitValue(c: char): nat
    requires IsDigit(c)
  {
    c as int - '0' as int
  }

  function DigitChar(d: nat): (c: char)
    requires d < 10
    ensures IsDigit(c) && DigitValue(c) == d
  {
    ('0' as int + d) as char
  }

  function Pow10(n: nat): (p: nat)
    ensures p >= 1
  {
    if n == 0 then 1 else 10 * Pow10(n - 1)
  }

  /** The number a string of decimal digits denotes ("" denotes 0). */
  function DigitsValue(s: string): nat
    requires AllDigits(s)
  {
    if |s| == 0 then 0 else 10 * DigitsValue(s[..|s| - 1]) + DigitValue(s[|s| - 1])
  }

  /** Decimal rendering of a natural number, without leading zeros. */
  function NatToDigits(n: nat): (s: string)
    ensures |s| >= 1 && AllDigits(s)
    ensures DigitsValue(s) == n
    ensures |s| > 1 ==> s[0] != '0'
  {
    if n < 10 then [DigitChar(n)]
    else
      var s := NatToDigits(n / 10) + [DigitChar(n % 10)];
      assert s[..|s| - 1] == NatToDigits(n / 10);
      s
  }

  /** Number of occurrences of `c` in `s`. */
  function Count(s: string, c: char): nat
  {
    if |s| == 0 then 0 else (if s[0] == c then 1 else 0) + Count(s[1..], c)
  }

  lemma {:induction false} CountAppend(a: string, b: string, c: char)
    ensures Count(a + b, c) == Count(a, c) + Count(b, c)
  {
    if |a| > 0 {
      assert (a + b)[1..] == a[1..] + b;
      CountAppend(a[1..], b, c);
    } else {
      assert a + b == b;
    }
  }

  lemma {:induction false} CountZero(s: string, c: char)
    ensures Count(s, c) == 0 <==> forall i :: 0 <= i < |s| ==> s[i] != c
  {
    if |s| > 0 {
      CountZero(s[1..], c);
      assert forall i :: 1 <= i < |s| ==> s[i] == s[1..][i - 1];
    }
  }

  /** Python's `str.isspace()`: ASCII whitespace, the C0 separators 0x1C-0x1F
      and the Unicode space characters. */
  predicate IsSpace(c: char) {
    || c == ' ' || c == '\t' || c == '\n' || c == '\r'
    || c == '\U{B}' || c == '\U{C}'
    || ('\U{1C}' <= c <= '\U{1F}')
    || c == '\U{85}' || c == '\U{A0}' || c == '\U{1680}'
    || ('\U{2000}' <= c <= '\U{200A}')
    || c == '\U{2028}' || c == '\U{2029}' || c == '\U{202F}' || c == '\U{205F}' || c == '\U{3000}'
  }

  /** Python's `str.lstrip()`: the longest suffix not starting with whitespace. */
  function StripLeft(s: string): (r: string)
    ensures |r| <= |s| && r == s[|s| - |r|..]
    ensures r == [] || !IsSpace(s[|s| - |r|])
    ensures forall i :: 0 <= i < |s| - |r| ==> IsSpace(s[i])
  {
    if |s| > 0 && IsSpace(s[0]) then StripLeft(s[1..]) else s
  }

  /** Python's `str.rstrip()`: the longest prefix not ending with whitespace. */
  function StripRight(s: string): (r: string)
    ensures |r| <= |s| && r == s[..|r|]
    ensures r == [] || !IsSpace(s[|r| - 1])
    ensures forall i :: |r| <= i < |s| ==> IsSpace(s[i])
  {
    if |s| > 0 && IsSpace(s[|s| - 1]) then StripRight(s[..|s| - 1]) else s
  }

  /** Python's `str.strip()`: empty, or starting and ending with a
      visible character. */
  function Strip(s: string): (r: string)
    ensures |r| <= |s|
    ensures r != [] ==> !IsSpace(r[0]) && !IsSpace(r[|r| - 1])
  {
    StripRight(StripLeft(s))
  }

  /** A line strips to nothing exactly when it is all whitespace. */
  lemma {:induction false} StripEmptyIffBlank(s: string)
    ensures Strip(s) == [] <==> forall i :: 0 <= i < |s| ==> IsSpace(s[i])
  {
    var l := StripLeft(s);
    if l != [] {
      assert s[|s| - |l|] == l[0];
    }
  }

  /** `strip()` removes exactly the leading and the trailing whitespace: its
      result is the slice `s[i..i + |Strip(s)|]`, and everything before and
      after that slice is whitespace. */
  lemma {:induction false} StripIsInfix(s: string) returns (i: nat)
    ensures i + |Strip(s)| <= |s| && Strip(s) == s[i..i + |Strip(s)|]
    ensures forall j :: 0 <= j < i ==> IsSpace(s[j])
    ensures forall j :: i + |Strip(s)| <= j < |s| ==> IsSpace(s[j])
  {
    var l := StripLeft(s);
    i := |s| - |l|;
    var r := StripRight(l);
    ShiftBlank(s, i, l, |r|);
    forall j | 0 <= j < |r|
      ensures r[j] == s[i + j]
    {
      assert r[j] == l[j];
    }
    assert r == s[i..i + |r|];
  }

  /** Whitespace at the end of a suffix `l == s[i..]` is whitespace of `s`. */
  lemma ShiftBlank(s: string, i: nat, l: string, a: nat)
    requires i <= |s| && l == s[i..]
    requires forall j :: a <= j < |l| ==> IsSpace(l[j])
    ensures forall j :: i + a <= j < |s| ==> IsSpace(s[j])
  {
    forall j | i + a <= j < |s|
      ensures IsSpace(s[j])
    {
      assert s[j] == l[j - i];
    }
  }

  /** Leading whitespace does not reach `lstrip()`'s result. */
  lemma {:induction false} StripLeftBlank(pre: string, rest: string)
    requires forall j :: 0 <= j < |pre| ==> IsSpace(pre[j])
    ensures StripLeft(pre + rest) == StripLeft(rest)
  {
    if |pre| > 0 {
      assert (pre + rest)[0] == pre[0];
      assert (pre + rest)[1..] == pre[1..] + rest;
      StripLeftBlank(pre[1..], rest);
    } else {
      assert pre + rest == rest;
    }
  }

  /** `strip()` of a visible text padded with whitespace on both sides gives
      back the text. */
  lemma {:induction false} StripPadded(pre: string, t: string, post: string)
    requires forall j :: 0 <= j < |pre| ==> IsSpace(pre[j])
    requires forall j :: 0 <= j < |post| ==> IsSpace(post[j])
    requires |t| > 0 && !IsSpace(t[0]) && !IsSpace(t[|t| - 1])
    ensures Strip(pre + t + post) == t
  {
    assert pre + t + post == pre + (t + post);
    StripLeftBlank(pre, t + post);
    assert (t + post)[0] == t[0];
    StripTerminated(t, post);
  }

  /** Stripping a line that starts and ends with visible characters and is
      followed only by whitespace (a line terminator) gives back the line. */
  lemma {:induction false} StripTerminated(line: string, tail: string)
    requires |line| > 0 && !IsSpace(line[0]) && !IsSpace(line[|line| - 1])
    requires forall i :: 0 <= i < |tail| ==> IsSpace(tail[i])
    ensures Strip(line + tail) == line
  {
    var s := line + tail;
    var l := StripLeft(s);
    assert s[0] == line[0];
    assert l == s;
    var r := StripRight(l);
    assert s[|line| - 1] == line[|line| - 1];
    assert |r| >= |line|;
    assert forall i :: |line| <= i < |s| ==> s[i] == tail[i - |line|];
    assert |r| == |line|;
    assert r == s[..|line|] == line;
  }
}
