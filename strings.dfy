/** The pieces of Python's `str` behaviour the core relies on: `isspace`/`strip`,
    `lower`, `in`, `split`, `join`, regex `\w` and IGNORECASE letter matching,
    and the `:.4f` format of a float. */
module Strings {
  import opened Wrappers

  /** The code point ranges past ASCII, both ends included, that `str.isspace()` accepts. */
  const WideSpaceRanges: seq<(char, char)> := [
    ('\U{85}', '\U{85}'), ('\U{A0}', '\U{A0}'), ('\U{1680}', '\U{1680}'), ('\U{2000}', '\U{200A}'),
    ('\U{2028}', '\U{2029}'), ('\U{202F}', '\U{202F}'), ('\U{205F}', '\U{205F}'), ('\U{3000}', '\U{3000}')]

  predicate InRanges(c: char, ranges: seq<(char, char)>) {
    ranges != [] && ((ranges[0].0 <= c <= ranges[0].1) || InRanges(c, ranges[1..]))
  }

  /** `str.isspace()` for one character; regex `\s` matches the same set. */
  predicate IsSpace(c: char) {
    c == ' ' || ('\t' <= c <= '\r') || ('\U{1C}' <= c <= '\U{1F}') || (c >= '\U{85}' && InRanges(c, WideSpaceRanges))
  }

  /** The whitespace characters written out. */
  lemma IsSpaceDef(c: char)
    ensures IsSpace(c) <==>
      c == ' ' || ('\t' <= c <= '\r') || ('\U{1C}' <= c <= '\U{1F}') || c == '\U{85}' || c == '\U{A0}'
      || c == '\U{1680}' || ('\U{2000}' <= c <= '\U{200A}') || c == '\U{2028}' || c == '\U{2029}'
      || c == '\U{202F}' || c == '\U{205F}' || c == '\U{3000}'
  {
    var r := WideSpaceRanges;
    assert r[8..] == [];
    assert r[7..][1..] == r[8..];
    assert InRanges(c, r[7..]) <==> c == '\U{3000}' || InRanges(c, r[8..]);
    assert r[6..][1..] == r[7..];
    assert InRanges(c, r[6..]) <==> c == '\U{205F}' || InRanges(c, r[7..]);
    assert r[5..][1..] == r[6..];
    assert InRanges(c, r[5..]) <==> c == '\U{202F}' || InRanges(c, r[6..]);
    assert r[4..][1..] == r[5..];
    assert InRanges(c, r[4..]) <==> ('\U{2028}' <= c <= '\U{2029}') || InRanges(c, r[5..]);
    assert r[3..][1..] == r[4..];
    assert InRanges(c, r[3..]) <==> ('\U{2000}' <= c <= '\U{200A}') || InRanges(c, r[4..]);
    assert r[2..][1..] == r[3..];
    assert InRanges(c, r[2..]) <==> c == '\U{1680}' || InRanges(c, r[3..]);
    assert r[1..][1..] == r[2..];
    assert InRanges(c, r[1..]) <==> c == '\U{A0}' || InRanges(c, r[2..]);
    assert r[0..][1..] == r[1..];
    assert InRanges(c, r[0..]) <==> c == '\U{85}' || InRanges(c, r[1..]);
    assert r[0..] == r;
  }

  predicate IsAsciiLetter(c: char) { ('a' <= c <= 'z') || ('A' <= c <= 'Z') }

  predicate IsAsciiDigit(c: char) { '0' <= c <= '9' }

  /** Regex `\w`: letters, digits and underscore.  Outside ASCII every
      non-whitespace character is taken to be a word character. */
  predicate IsWordChar(c: char) {
    IsAsciiLetter(c) || IsAsciiDigit(c) || c == '_' || (c >= '\U{80}' && !IsSpace(c))
  }

  function UpperChar(c: char): (u: char)
    ensures 'a' <= c <= 'z' ==> 'A' <= u <= 'Z'
  {
    if 'a' <= c <= 'z' then (c as int - 32) as char else c
  }

  function LowerChar(c: char): (l: char)
    ensures !('A' <= l <= 'Z')
    ensures !('A' <= c <= 'Z') ==> l == c
  {
    if 'A' <= c <= 'Z' then (c as int + 32) as char else c
  }

  /** `str.lower()` on ASCII letters. */
  function Lower(s: string): (r: string)
    ensures |r| == |s|
    ensures forall i :: 0 <= i < |s| ==> r[i] == LowerChar(s[i])
  {
    seq(|s|, i requires 0 <= i < |s| => LowerChar(s[i]))
  }

  /** Does input character `c` match the lower-case pattern letter `l` under
      `re.IGNORECASE`?  Besides the ASCII upper case, sre folds U+017F onto 's',
      U+0130 and U+0131 onto 'i', and U+212A onto 'k'. */
  predicate FoldEq(c: char, l: char) {
    c == l || c == UpperChar(l)
    || (l == 's' && c == '\U{17F}')
    || (l == 'i' && (c == '\U{130}' || c == '\U{131}'))
    || (l == 'k' && c == '\U{212A}')
  }

  lemma FoldEqIsWordChar(c: char, l: char)
    requires 'a' <= l <= 'z' && FoldEq(c, l)
    ensures IsWordChar(c) && !IsSpace(c) && c != '-' && c != ','
  {
    IsSpaceDef(c);
  }

  lemma LetterNotSpace(c: char)
    requires IsAsciiLetter(c)
    ensures !IsSpace(c)
  {
    IsSpaceDef(c);
  }

  predicate AllSpace(s: string) {
    forall i :: 0 <= i < |s| ==> IsSpace(s[i])
  }

  /** Neither end of `s` is whitespace. */
  predicate IsTrimmed(s: string) {
    s == [] || (!IsSpace(s[0]) && !IsSpace(s[|s| - 1]))
  }

  /** The number of whitespace characters `str.lstrip()` removes. */
  function LeadingSpaces(s: string): (n: nat)
    ensures n <= |s|
    ensures forall i :: 0 <= i < n ==> IsSpace(s[i])
    ensures n < |s| ==> !IsSpace(s[n])
  {
    if |s| == 0 || !IsSpace(s[0]) then 0 else 1 + LeadingSpaces(s[1..])
  }

  /** The length `str.rstrip()` keeps. */
  function TrailingStart(s: string): (m: nat)
    ensures m <= |s|
    ensures forall i :: m <= i < |s| ==> IsSpace(s[i])
    ensures m > 0 ==> !IsSpace(s[m - 1])
  {
    if |s| == 0 || !IsSpace(s[|s| - 1]) then |s| else TrailingStart(s[..|s| - 1])
  }

  /** `str.strip()`: whitespace removed from both ends.  The result is the
      slice of `s` starting at `LeadingSpaces(s)`, only whitespace follows it,
      and it is empty exactly when `s` is all whitespace. */
  function Strip(s: string): (r: string)
    ensures IsTrimmed(r)
    ensures LeadingSpaces(s) + |r| <= |s|
    ensures r == s[LeadingSpaces(s)..LeadingSpaces(s) + |r|]
    ensures forall i :: LeadingSpaces(s) + |r| <= i < |s| ==> IsSpace(s[i])
    ensures r == [] <==> AllSpace(s)
  {
    var t := s[LeadingSpaces(s)..];
    t[..TrailingStart(t)]
  }

  lemma StripTrimmed(s: string)
    requires IsTrimmed(s)
    ensures Strip(s) == s
  {
    if s != [] {
      assert LeadingSpaces(s) == 0;
      assert TrailingStart(s) == |s|;
    }
  }

  /** `str.lstrip(c)`: every leading `c` removed. */
  function LStripChar(s: string, c: char): (r: string)
    ensures r == [] || r[0] != c
    ensures |r| <= |s| && r == s[|s| - |r|..]
    ensures forall i :: 0 <= i < |s| - |r| ==> s[i] == c
  {
    if |s| > 0 && s[0] == c then LStripChar(s[1..], c) else s
  }

  predicate OccursAt(s: string, sub: string, i: nat) {
    i + |sub| <= |s| && s[i..i + |sub|] == sub
  }

  /** `s.find(sub, from)`: the first occurrence of `sub` at or after `from`. */
  function IndexOfFrom(s: string, sub: string, from: nat): (r: Option<nat>)
    ensures r.Some? ==> from <= r.value && OccursAt(s, sub, r.value)
    ensures r.Some? ==> forall j :: from <= j < r.value ==> !OccursAt(s, sub, j)
    ensures r.None? ==> forall j :: from <= j ==> !OccursAt(s, sub, j)
    decreases |s| - from
  {
    if from + |sub| > |s| then None
    else if OccursAt(s, sub, from) then Some(from)
    else IndexOfFrom(s, sub, from + 1)
  }

  /** Python's `sub in s`. */
  predicate Contains(s: string, sub: string) {
    IndexOfFrom(s, sub, 0).Some?
  }

  lemma ContainsAt(s: string, sub: string, i: nat)
    requires OccursAt(s, sub, i)
    ensures Contains(s, sub)
  {
  }

  /** The character `c` does not occur in `s`. */
  predicate Lacks(s: string, c: char) {
    forall i :: 0 <= i < |s| ==> s[i] != c
  }

  /** `s.split(c)[-1]` for a one-character separator `c`: the text after the
      last `c`, or all of `s` when it holds none.  It is a suffix free of `c`,
      preceded by `c` unless it is the whole string. */
  function LastPiece(s: string, c: char): (r: string)
    ensures |r| <= |s| && r == s[|s| - |r|..]
    ensures Lacks(r, c)
    ensures |r| < |s| ==> s[|s| - |r| - 1] == c
  {
    if s == [] || s[|s| - 1] == c then []
    else
      var r := LastPiece(s[..|s| - 1], c);
      assert s[..|s| - 1][|s| - 1 - |r|..] + [s[|s| - 1]] == s[|s| - 1 - |r|..];
      r + [s[|s| - 1]]
  }

  /** The total length of some strings. */
  function TotalLength(parts: seq<string>): nat {
    if parts == [] then 0 else |parts[0]| + TotalLength(parts[1..])
  }

  /** `sep.join(parts)`: no parts give "", one part is itself, and every
      further part adds one separator. */
  function Join(sep: string, parts: seq<string>): (r: string)
    ensures |parts| == 0 ==> r == ""
    ensures |parts| == 1 ==> r == parts[0]
    ensures |parts| > 0 ==> |r| == TotalLength(parts) + (|parts| - 1) * |sep|
  {
    if |parts| == 0 then "" else if |parts| == 1 then parts[0] else parts[0] + sep + Join(sep, parts[1..])
  }

  /** Joining one more part appends the separator and that part. */
  lemma {:induction false} JoinSnoc(sep: string, parts: seq<string>, p: string)
    requires |parts| > 0
    ensures Join(sep, parts + [p]) == Join(sep, parts) + sep + p
  {
    if |parts| > 1 {
      assert (parts + [p])[1..] == parts[1..] + [p];
      JoinSnoc(sep, parts[1..], p);
    }
  }

  /** The character of decimal digit `d`. */
  function DigitChar(d: nat): (c: char)
    requires d < 10
    ensures IsAsciiDigit(c) && DigitValue(c) == d
  {
    ('0' as int + d) as char
  }

  /** The value of a decimal digit character. */
  function DigitValue(c: char): int {
    c as int - '0' as int
  }

  /** The number a string of decimal digits denotes. */
  function DigitsValue(s: string): int {
    if s == [] then 0 else DigitsValue(s[..|s| - 1]) * 10 + DigitValue(s[|s| - 1])
  }

  /** The decimal digits of `n`, without leading zeros: they denote `n`. */
  function NatToString(n: nat): (r: string)
    ensures |r| > 0 && forall i :: 0 <= i < |r| ==> IsAsciiDigit(r[i])
    ensures DigitsValue(r) == n
    ensures r[0] == '0' ==> r == "0"
  {
    if n < 10 then [DigitChar(n)]
    else
      var r := NatToString(n / 10) + [DigitChar(n % 10)];
      assert r[..|r| - 1] == NatToString(n / 10);
      r
  }

  /** Exactly `k` decimal digits, with leading zeros, of a number below 10^k:
      they denote it. */
  function PadDigits(n: nat, k: nat): (r: string)
    requires n < Pow10(k)
    ensures |r| == k && forall i :: 0 <= i < k ==> IsAsciiDigit(r[i])
    ensures DigitsValue(r) == n
  {
    if k == 0 then []
    else
      var r := PadDigits(n / 10, k - 1) + [DigitChar(n % 10)];
      assert r[..|r| - 1] == PadDigits(n / 10, k - 1);
      r
  }

  function Pow10(k: nat): (p: nat)
    ensures p > 0
  {
    if k == 0 then 1 else 10 * Pow10(k - 1)
  }

  /** Exactly four decimal digits, with leading zeros. */
  function Pad4(n: nat): (r: string)
    requires n < 10000
    ensures |r| == 4 && forall i :: 0 <= i < 4 ==> IsAsciiDigit(r[i])
    ensures DigitsValue(r) == n
  {
    assert Pow10(4) == 10000;
    PadDigits(n, 4)
  }

  /** Round to the nearest integer, ties to even (the rounding of `format`). */
  function RoundHalfEven(x: real): (n: int)
    ensures x - 0.5 <= n as real <= x + 0.5
    ensures x >= 0.0 ==> n >= 0
  {
    var f := x.Floor;
    var frac := x - f as real;
    if frac > 0.5 then f + 1 else if frac < 0.5 then f else if f % 2 == 0 then f else f + 1
  }

  /** Python's `f"{x:.4f}"` on the exact value `x`: an optional minus sign, the
      integer part without leading zeros, a point and four digits, which
      together denote the magnitude of `x` times 10000 rounded half to even,
      so within 0.00005 of it. */
  function FormatFixed4(x: real): (r: string)
    ensures |r| >= 6 && r[|r| - 5] == '.'
    ensures forall i :: |r| - 4 <= i < |r| ==> IsAsciiDigit(r[i])
    ensures (r[0] == '-') <==> x < 0.0
    ensures var start := if x < 0.0 then 1 else 0;
      var magnitude := if x < 0.0 then -x else x;
      var units := DigitsValue(r[start..|r| - 5]) * 10000 + DigitsValue(r[|r| - 4..]);
      && start < |r| - 5
      && (forall i :: start <= i < |r| - 5 ==> IsAsciiDigit(r[i]))
      && (r[start] == '0' ==> start + 1 == |r| - 5)
      && units == RoundHalfEven(magnitude * 10000.0)
      && magnitude * 10000.0 - 0.5 <= units as real <= magnitude * 10000.0 + 0.5
  {
    var magnitude := if x < 0.0 then -x else x;
    var n := RoundHalfEven(magnitude * 10000.0);
    var units: nat := n;
    var sign := if x < 0.0 then "-" else "";
    var whole := NatToString(units / 10000);
    var frac := Pad4(units % 10000);
    var r := sign + whole + "." + frac;
    assert r[|sign|..|r| - 5] == whole;
    assert r[|r| - 4..] == frac;
    r
  }
}
