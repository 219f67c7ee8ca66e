/** Character classes and string helpers with the meaning Python gives them. */
module Strings {

  /** The characters Python's `str.isspace()` accepts, and therefore the
      characters `str.strip()` and `str.lstrip()` remove. */
  predicate IsSpace(c: char) {
    || ('\t' <= c <= '\r')
    || ('\U{1C}' <= c <= '\U{1F}')
    || c == ' '
    || c == '\U{85}'
    || c == '\U{A0}'
    || c == '\U{1680}'
    || ('\U{2000}' <= c <= '\U{200A}')
    || c == '\U{2028}'
    || c == '\U{2029}'
    || c == '\U{202F}'
    || c == '\U{205F}'
    || c == '\U{3000}'
  }

  /** `[a-zA-Z]` */
  predicate IsAsciiLetter(c: char) {
    ('a' <= c <= 'z') || ('A' <= c <= 'Z')
  }

  /** `[0-9]` */
  predicate IsAsciiDigit(c: char) {
    '0' <= c <= '9'
  }

  /** `[a-zA-Z0-9]` */
  predicate IsAsciiAlnum(c: char) {
    IsAsciiLetter(c) || IsAsciiDigit(c)
  }

  /** `t` is a suffix of `s`. */
  predicate IsSuffix(t: string, s: string) {
    |t| <= |s| && s[|s| - |t|..] == t
  }

  /** A suffix of what is left after dropping `k` characters is a suffix of
      the whole. */
  lemma SuffixOfDrop(s: string, k: nat, r: string)
    requires k <= |s| && IsSuffix(r, s[k..])
    ensures IsSuffix(r, s) && |r| <= |s| - k
  {
    assert s[|s| - |r|..] == s[k..][|s| - k - |r|..];
  }

  /** Python's `s.endswith(t)`. */
  predicate EndsWith(s: string, t: string) {
    IsSuffix(t, s)
  }

  /** The length of the longest prefix of `s` made of ASCII letters and digits:
      the greedy `[a-zA-Z0-9]*` at the front of `s`. */
  function AlnumRun(s: string): (n: nat)
    ensures n <= |s|
    ensures forall i :: 0 <= i < n ==> IsAsciiAlnum(s[i])
    ensures n == |s| || !IsAsciiAlnum(s[n])
  {
    if |s| > 0 && IsAsciiAlnum(s[0]) then 1 + AlnumRun(s[1..]) else 0
  }

  /** The length of the longest prefix of `s` made of ASCII digits: the greedy
      `\d*` at the front of `s`, digits taken as ASCII. */
  function DigitRun(s: string): (n: nat)
    ensures n <= |s|
    ensures forall i :: 0 <= i < n ==> IsAsciiDigit(s[i])
    ensures n == |s| || !IsAsciiDigit(s[n])
  {
    if |s| > 0 && IsAsciiDigit(s[0]) then 1 + DigitRun(s[1..]) else 0
  }

  /** Python's `s.lstrip()`: drops the leading whitespace and nothing else. */
  function LStrip(s: string): (r: string)
    ensures IsSuffix(r, s)
    ensures forall i :: 0 <= i < |s| - |r| ==> IsSpace(s[i])
    ensures |r| > 0 ==> !IsSpace(r[0])
  {
    if |s| > 0 && IsSpace(s[0]) then LStrip(s[1..]) else s
  }

  lemma LStripNoSpace(s: string)
    requires |s| == 0 || !IsSpace(s[0])
    ensures LStrip(s) == s
  {
  }

  /** `lstrip` stops at the first character that is not whitespace, so that
      character and the one after it survive, moved left by what was
      dropped. */
  lemma LStripKeeps(s: string, q: nat) returns (q': nat)
    requires q + 1 < |s| && !IsSpace(s[q])
    ensures q' <= q && q' + 1 < |LStrip(s)|
    ensures LStrip(s)[q'] == s[q] && LStrip(s)[q' + 1] == s[q + 1]
  {
    var r := LStrip(s);
    var d := |s| - |r|;
    assert r == s[d..];
    q' := q - d;
  }

  /** Python's `s.rstrip()`: drops the trailing whitespace and nothing else. */
  function RStrip(s: string): (r: string)
    ensures |r| <= |s| && r == s[..|r|]
    ensures forall i :: |r| <= i < |s| ==> IsSpace(s[i])
    ensures |r| > 0 ==> !IsSpace(r[|r| - 1])
  {
    if |s| > 0 && IsSpace(s[|s| - 1]) then RStrip(s[..|s| - 1]) else s
  }

  /** Python's `s.strip()`. */
  function Strip(s: string): (r: string)
    ensures |r| > 0 ==> !IsSpace(r[0]) && !IsSpace(r[|r| - 1])
    ensures |r| <= |s|
    ensures r == "" <==> forall i :: 0 <= i < |s| ==> IsSpace(s[i])
    ensures exists i :: StrippedAt(s, i, r)
  {
    var t := RStrip(s);
    var r := LStrip(t);
    StripSlice(s, t, r);
    StrippedEmpty(s, |t| - |r|, r);
    r
  }

  lemma StripSlice(s: string, t: string, r: string)
    requires t == RStrip(s) && r == LStrip(t)
    ensures StrippedAt(s, |t| - |r|, r)
  {
    SliceBetweenSpaces(s, t, r);
  }

  /** A whitespace-led suffix `r` of a prefix `t` of `s`, with only whitespace
      after `t`, sits between whitespace in `s`. */
  lemma SliceBetweenSpaces(s: string, t: string, r: string)
    requires |t| <= |s| && t == s[..|t|]
    requires forall j :: |t| <= j < |s| ==> IsSpace(s[j])
    requires IsSuffix(r, t)
    requires forall j :: 0 <= j < |t| - |r| ==> IsSpace(t[j])
    ensures StrippedAt(s, |t| - |r|, r)
  {
    var i := |t| - |r|;
    assert r == t[i..];
    assert t[i..] == s[i..i + |r|];
    forall j | 0 <= j < i
      ensures IsSpace(s[j])
    {
      assert s[j] == t[j];
    }
  }

  /** What is left between whitespace is empty exactly when everything is
      whitespace, provided it does not itself start with whitespace. */
  lemma StrippedEmpty(s: string, i: nat, r: string)
    requires StrippedAt(s, i, r) && (|r| > 0 ==> !IsSpace(r[0]))
    ensures r == "" <==> forall j :: 0 <= j < |s| ==> IsSpace(s[j])
  {
    if |r| > 0 {
      assert r[0] == s[i];
    }
  }

  /** `r` sits at `i` in `s` with only whitespace on either side of it. */
  predicate StrippedAt(s: string, i: nat, r: string) {
    && i + |r| <= |s|
    && r == s[i..i + |r|]
    && (forall j :: 0 <= j < i ==> IsSpace(s[j]))
    && (forall j :: i + |r| <= j < |s| ==> IsSpace(s[j]))
  }

  lemma AppendAssoc(x: string, y: string, z: string)
    ensures x + (y + z) == (x + y) + z
  {
  }

  /** Python's `sep.join(ws)`. */
  function Join(ws: seq<string>, sep: string): string {
    if |ws| == 0 then ""
    else if |ws| == 1 then ws[0]
    else ws[0] + sep + Join(ws[1..], sep)
  }

  /** The elements of `s` in reverse order (Python's `list(reversed(s))`). */
  function Reverse<T>(s: seq<T>): (r: seq<T>)
    ensures |r| == |s|
    ensures forall i :: 0 <= i < |s| ==> r[i] == s[|s| - 1 - i]
  {
    if |s| == 0 then [] else Reverse(s[1..]) + [s[0]]
  }

  lemma {:induction false} ReverseReverse<T>(s: seq<T>)
    ensures Reverse(Reverse(s)) == s
  {
    var r := Reverse(Reverse(s));
    assert |r| == |s|;
    forall i | 0 <= i < |s|
      ensures r[i] == s[i]
    {
      assert r[i] == Reverse(s)[|s| - 1 - i];
    }
  }

  /** The decimal digit character for `d`. */
  function DigitChar(d: nat): (c: char)
    requires d < 10
    ensures IsAsciiDigit(c)
    ensures c as int - '0' as int == d
  {
    ('0' as int + d) as char
  }

  /** Python's `str(n)` for a non-negative integer. */
  function NatToString(n: nat): (s: string)
    ensures |s| > 0
    ensures forall i :: 0 <= i < |s| ==> IsAsciiDigit(s[i])
    ensures |s| > 1 ==> s[0] != '0'
    decreases n
  {
    if n < 10 then [DigitChar(n)] else NatToString(n / 10) + [DigitChar(n % 10)]
  }

  /** The number a string of decimal digits denotes (Python's `int(s)`). */
  function DecimalValue(s: string): nat
    requires forall i :: 0 <= i < |s| ==> IsAsciiDigit(s[i])
  {
    if |s| == 0 then 0
    else 10 * DecimalValue(s[..|s| - 1]) + DigitValue(s[|s| - 1])
  }

  /** The value of one decimal digit character. */
  function DigitValue(c: char): (d: nat)
    requires IsAsciiDigit(c)
    ensures d < 10
  {
    c as int - '0' as int
  }

  /** `str` and `int` are inverse on non-negative integers. */
  lemma {:induction false} DecimalRoundTrip(n: nat)
    ensures DecimalValue(NatToString(n)) == n
    decreases n
  {
    var s := NatToString(n);
    if n >= 10 {
      DecimalRoundTrip(n / 10);
      assert s[..|s| - 1] == NatToString(n / 10);
    }
  }
}
