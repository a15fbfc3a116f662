/** The parts of `urllib.parse` the scrapers use: `urlsplit` (the split of
    section 3 of RFC 3986 into scheme, authority, path, query and fragment),
    `parse_qsl`/`parse_qs`, and `unquote` (percent-decoding as in section 2.1
    of RFC 3986, the decoded bytes read as UTF-8 per RFC 3629, with ill-formed
    bytes replaced). */
module Urls {
  import opened Wrappers
  import opened Strings

  type Byte = b: int | 0 <= b < 256

  // -------------------------------------------------------------------------
  // UTF-8

  const Replacement: char := '\U{FFFD}'

  predicate IsCont(b: Byte) {
    0x80 <= b <= 0xBF
  }

  /** The length of the sequence a lead byte opens, or 0 for a byte that
      opens none. */
  function SeqLength(b: Byte): nat {
    if b < 0x80 then 1
    else if 0xC2 <= b <= 0xDF then 2
    else if 0xE0 <= b <= 0xEF then 3
    else if 0xF0 <= b <= 0xF4 then 4
    else 0
  }

  /** The range the second byte of a sequence must lie in, which depends on
      the lead byte (this excludes overlong forms, surrogates and values
      beyond U+10FFFF). */
  predicate SecondOk(lead: Byte, b: Byte) {
    if lead == 0xE0 then 0xA0 <= b <= 0xBF
    else if lead == 0xED then 0x80 <= b <= 0x9F
    else if lead == 0xF0 then 0x90 <= b <= 0xBF
    else if lead == 0xF4 then 0x80 <= b <= 0x8F
    else IsCont(b)
  }

  /** How many bytes at the start of `bs` are a well-formed beginning of the
      sequence its lead byte opens. */
  function WellFormedPrefix(bs: seq<Byte>): (k: nat)
    requires |bs| > 0 && SeqLength(bs[0]) >= 2
    ensures 1 <= k <= SeqLength(bs[0]) && k <= |bs|
  {
    var n := SeqLength(bs[0]);
    if |bs| < 2 || !SecondOk(bs[0], bs[1]) then 1
    else if n == 2 || |bs| < 3 || !IsCont(bs[2]) then 2
    else if n == 3 || |bs| < 4 || !IsCont(bs[3]) then 3
    else 4
  }

  /** The character a complete multi-byte sequence encodes. */
  function ScalarOf(bs: seq<Byte>): char
    requires 2 <= |bs| <= 4 && SeqLength(bs[0]) == |bs| && WellFormedPrefix(bs) == |bs|
  {
    var b0: int, b1: int := bs[0], bs[1];
    if |bs| == 2 then ((b0 - 0xC0) * 64 + (b1 - 0x80)) as char
    else
      var b2: int := bs[2];
      if |bs| == 3 then ((b0 - 0xE0) * 4096 + (b1 - 0x80) * 64 + (b2 - 0x80)) as char
      else
        var b3: int := bs[3];
        ((b0 - 0xF0) * 262144 + (b1 - 0x80) * 4096 + (b2 - 0x80) * 64 + (b3 - 0x80)) as char
  }

  /** `bs.decode('utf-8', 'replace')`: well-formed sequences become their
      characters, and each maximal ill-formed part (a byte that opens no
      sequence, or the well-formed beginning of a sequence that breaks off)
      becomes one U+FFFD. */
  function Utf8Decode(bs: seq<Byte>): string
    decreases |bs|
  {
    if |bs| == 0 then []
    else if bs[0] < 0x80 then [bs[0] as char] + Utf8Decode(bs[1..])
    else if SeqLength(bs[0]) == 0 then [Replacement] + Utf8Decode(bs[1..])
    else
      var k := WellFormedPrefix(bs);
      if k == SeqLength(bs[0]) then [ScalarOf(bs[..k])] + Utf8Decode(bs[k..])
      else [Replacement] + Utf8Decode(bs[k..])
  }

  /** The UTF-8 encoding of one character: the code point's bits, six at a
      time, behind a lead byte that tells the length. */
  function EncodeChar(c: char): (bs: seq<Byte>)
    ensures 1 <= |bs| <= 4
  {
    var n := c as int;
    var n1 := n / 64;
    var n2 := n1 / 64;
    if n < 0x80 then [n]
    else if n < 0x800 then [0xC0 + n1, 0x80 + n % 64]
    else if n < 0x10000 then [0xE0 + n2, 0x80 + n1 % 64, 0x80 + n % 64]
    else [0xF0 + n2 / 64, 0x80 + n2 % 64, 0x80 + n1 % 64, 0x80 + n % 64]
  }

  /** `s.encode('utf-8')`. */
  function Utf8Encode(s: string): seq<Byte> {
    if s == [] then [] else EncodeChar(s[0]) + Utf8Encode(s[1..])
  }

  /** Decoding reads one encoded character back and goes on with the rest. */
  lemma DecodeEncodedChar(c: char, rest: seq<Byte>)
    ensures Utf8Decode(EncodeChar(c) + rest) == [c] + Utf8Decode(rest)
  {
    var bs := EncodeChar(c);
    var all := bs + rest;
    var n := c as int;
    if n < 0x80 {
      assert all[1..] == rest;
    } else if n < 0x800 {
      DecodeTwo(c, rest);
    } else if n < 0x10000 {
      DecodeThree(c, rest);
    } else {
      DecodeFour(c, rest);
    }
  }

  lemma DecodeTwo(c: char, rest: seq<Byte>)
    requires 0x80 <= c as int < 0x800
    ensures Utf8Decode(EncodeChar(c) + rest) == [c] + Utf8Decode(rest)
  {
    var n := c as int;
    var all := EncodeChar(c) + rest;
    assert all[..2] == EncodeChar(c) && all[2..] == rest;
    assert WellFormedPrefix(all) == 2;
  }

  lemma DecodeThree(c: char, rest: seq<Byte>)
    requires 0x800 <= c as int < 0x10000
    ensures Utf8Decode(EncodeChar(c) + rest) == [c] + Utf8Decode(rest)
  {
    var n := c as int;
    var n1, n2 := n / 64, n / 64 / 64;
    assert n == n1 * 64 + n % 64 && n1 == n2 * 64 + n1 % 64;
    var all := EncodeChar(c) + rest;
    assert all[..3] == EncodeChar(c) && all[3..] == rest;
    assert WellFormedPrefix(all) == 3;
  }

  lemma DecodeFour(c: char, rest: seq<Byte>)
    requires 0x10000 <= c as int
    ensures Utf8Decode(EncodeChar(c) + rest) == [c] + Utf8Decode(rest)
  {
    var n := c as int;
    var n1, n2 := n / 64, n / 64 / 64;
    var n3 := n2 / 64;
    assert n == n1 * 64 + n % 64 && n1 == n2 * 64 + n1 % 64 && n2 == n3 * 64 + n2 % 64;
    var all := EncodeChar(c) + rest;
    assert all[..4] == EncodeChar(c) && all[4..] == rest;
    assert WellFormedPrefix(all) == 4;
  }

  /** Decoding undoes encoding. */
  lemma {:induction false} Utf8RoundTrip(s: string)
    ensures Utf8Decode(Utf8Encode(s)) == s
  {
    if s != [] {
      Utf8RoundTrip(s[1..]);
      DecodeEncodedChar(s[0], Utf8Encode(s[1..]));
      assert s == [s[0]] + s[1..];
    }
  }

  // -------------------------------------------------------------------------
  // Percent-encoding

  predicate IsHexDigit(c: char) {
    ('0' <= c <= '9') || ('a' <= c <= 'f') || ('A' <= c <= 'F')
  }

  function HexValue(c: char): (v: nat)
    requires IsHexDigit(c)
    ensures v < 16
  {
    if '0' <= c <= '9' then c as int - '0' as int
    else if 'a' <= c <= 'f' then c as int - 'a' as int + 10
    else c as int - 'A' as int + 10
  }

  /** `unquote_to_bytes(s)`: `%` followed by two hex digits is the byte they
      spell; any other character, a `%` without two hex digits included,
      stands for its own UTF-8 bytes. */
  function PercentBytes(s: string): seq<Byte> {
    if s == [] then []
    else if s[0] == '%' && |s| >= 3 && IsHexDigit(s[1]) && IsHexDigit(s[2]) then
      [HexValue(s[1]) * 16 + HexValue(s[2])] + PercentBytes(s[3..])
    else EncodeChar(s[0]) + PercentBytes(s[1..])
  }

  predicate IsAscii(c: char) {
    c < '\U{80}'
  }

  /** The length of the run of ASCII characters `s` starts with. */
  function AsciiRun(s: string): (k: nat)
    ensures k <= |s|
    ensures forall i :: 0 <= i < k ==> IsAscii(s[i])
    ensures k < |s| ==> !IsAscii(s[k])
  {
    if s == [] || !IsAscii(s[0]) then 0 else 1 + AsciiRun(s[1..])
  }

  /** The slow path of `unquote`: each maximal run of ASCII characters is
      percent-decoded and its bytes read as UTF-8; other characters are kept. */
  function DecodeRuns(s: string): string
    decreases |s|
  {
    if s == [] then []
    else if !IsAscii(s[0]) then [s[0]] + DecodeRuns(s[1..])
    else
      var k := AsciiRun(s);
      Utf8Decode(PercentBytes(s[..k])) + DecodeRuns(s[k..])
  }

  /** `unquote(s)`: a string without `%` is returned as it is; otherwise
      the runs of ASCII characters are decoded. */
  function Unquote(s: string): string {
    if '%' !in s then s else DecodeRuns(s)
  }

  /** The characters RFC 3986 leaves unreserved (section 2.3), which
      `quote` never escapes. */
  predicate Unreserved(b: Byte) {
    ('A' as int <= b <= 'Z' as int) || ('a' as int <= b <= 'z' as int) || ('0' as int <= b <= '9' as int)
    || b == '-' as int || b == '.' as int || b == '_' as int || b == '~' as int
  }

  function HexDigitChar(v: nat): (c: char)
    requires v < 16
    ensures IsHexDigit(c) && HexValue(c) == v
  {
    "0123456789ABCDEF"[v]
  }

  /** Percent-encoding of bytes: unreserved bytes as their characters, every
      other byte as `%` and two upper-case hex digits. */
  function PercentEncodeBytes(bs: seq<Byte>): (s: string)
    ensures forall i :: 0 <= i < |s| ==> IsAscii(s[i])
  {
    if bs == [] then []
    else
      (if Unreserved(bs[0]) then [bs[0] as char] else ['%', HexDigitChar(bs[0] / 16), HexDigitChar(bs[0] % 16)])
      + PercentEncodeBytes(bs[1..])
  }

  /** `quote(s, safe='')`: the UTF-8 bytes of `s`, percent-encoded. */
  function Quote(s: string): string {
    PercentEncodeBytes(Utf8Encode(s))
  }

  /** Percent-decoding undoes percent-encoding. */
  lemma {:induction false} PercentBytesOfEncoding(bs: seq<Byte>)
    ensures PercentBytes(PercentEncodeBytes(bs)) == bs
  {
    if bs != [] {
      PercentBytesOfEncoding(bs[1..]);
      var rest := PercentEncodeBytes(bs[1..]);
      if Unreserved(bs[0]) {
        var t := [bs[0] as char] + rest;
        assert t[1..] == rest;
      } else {
        var t := ['%', HexDigitChar(bs[0] / 16), HexDigitChar(bs[0] % 16)] + rest;
        assert t[3..] == rest;
      }
    }
  }

  /** An ASCII string is one run. */
  lemma AsciiOneRun(s: string)
    requires s != [] && forall i :: 0 <= i < |s| ==> IsAscii(s[i])
    ensures DecodeRuns(s) == Utf8Decode(PercentBytes(s))
  {
    assert AsciiRun(s) == |s|;
    assert s[..|s|] == s;
    assert s[|s|..] == [];
  }

  /** ASCII text without `%` percent-decodes to its own character codes. */
  lemma {:induction false} PercentBytesPlain(s: string)
    requires forall i :: 0 <= i < |s| ==> IsAscii(s[i]) && s[i] != '%'
    ensures Utf8Decode(PercentBytes(s)) == s
  {
    if s != [] {
      PercentBytesPlain(s[1..]);
      var bs: seq<Byte> := [s[0] as int] + PercentBytes(s[1..]);
      assert PercentBytes(s) == bs;
      assert bs[1..] == PercentBytes(s[1..]);
      assert s == [s[0]] + s[1..];
    }
  }

  /** The fast path of `unquote` is only a shortcut: without `%` the slow
      path gives the string back too. */
  lemma {:induction false} DecodeRunsPlain(s: string)
    requires '%' !in s
    ensures DecodeRuns(s) == s
  {
    if s != [] {
      if !IsAscii(s[0]) {
        DecodeRunsPlain(s[1..]);
        assert s == [s[0]] + s[1..];
      } else {
        var k := AsciiRun(s);
        var run, rest := s[..k], s[k..];
        assert forall i :: 0 <= i < |run| ==> run[i] == s[i];
        PercentBytesPlain(run);
        assert forall i :: 0 <= i < |rest| ==> rest[i] == s[k + i];
        DecodeRunsPlain(rest);
        assert DecodeRuns(s) == run + rest;
        assert s == run + rest;
      }
    }
  }

  /** `unquote(quote(s)) == s`. */
  lemma UnquoteQuote(s: string)
    ensures Unquote(Quote(s)) == s
  {
    var q := Quote(s);
    Utf8RoundTrip(s);
    PercentBytesOfEncoding(Utf8Encode(s));
    if q == [] {
      assert Utf8Encode(s) == [];
    } else {
      AsciiOneRun(q);
      if '%' !in q {
        DecodeRunsPlain(q);
      }
    }
  }

  // -------------------------------------------------------------------------
  // urlsplit

  /** The first position of `c` in `s`. */
  function FindChar(s: string, c: char): (r: Option<nat>)
    ensures r.Some? ==> r.value < |s| && s[r.value] == c && c !in s[..r.value]
    ensures r.None? ==> c !in s
  {
    if s == [] then None
    else if s[0] == c then Some(0)
    else match FindChar(s[1..], c)
      case None => None
      case Some(i) =>
        assert s[..i + 1] == [s[0]] + s[1..][..i];
        Some(i + 1)
  }

  /** `s.split(c, 1)` for a `c` that occurs: the text before and after its
      first occurrence. */
  function SplitOnce(s: string, c: char): (r: (string, string))
    requires c in s
    ensures c !in r.0 && s == r.0 + [c] + r.1
  {
    var i := FindChar(s, c).value;
    assert s == s[..i] + [c] + s[i + 1..];
    (s[..i], s[i + 1..])
  }

  /** C0 control characters and the space, which `urlsplit` strips from the
      start of the URL. */
  predicate IsC0OrSpace(c: char) {
    c <= ' '
  }

  /** `url.lstrip(_WHATWG_C0_CONTROL_OR_SPACE)`. */
  function LStripC0(s: string): (r: string)
    ensures r == [] || !IsC0OrSpace(r[0])
  {
    if s != [] && IsC0OrSpace(s[0]) then LStripC0(s[1..]) else s
  }

  /** Every tab, carriage return and line feed removed. */
  function RemoveUnsafe(s: string): (r: string)
    ensures '\t' !in r && '\r' !in r && '\n' !in r
  {
    if s == [] then []
    else (if s[0] == '\t' || s[0] == '\r' || s[0] == '\n' then [] else [s[0]]) + RemoveUnsafe(s[1..])
  }

  predicate IsSchemeChar(c: char) {
    IsAsciiLetter(c) || IsAsciiDigit(c) || c == '+' || c == '-' || c == '.'
  }

  /** The scheme and the rest: a scheme is the text before the first `:`
      when it is non-empty, starts with an ASCII letter and consists of
      scheme characters; it is lower-cased. */
  function SplitScheme(url: string): (r: (string, string))
    ensures r.0 == "" ==> r.1 == url
    ensures r.0 != "" ==>
      |r.0| < |url| && url[|r.0|] == ':' && r.0 == Lower(url[..|r.0|]) && r.1 == url[|r.0| + 1..]
  {
    match FindChar(url, ':')
    case None => ("", url)
    case Some(i) =>
      if i > 0 && IsAsciiLetter(url[0]) && (forall j :: 0 <= j < i ==> IsSchemeChar(url[j]))
      then (Lower(url[..i]), url[i + 1..])
      else ("", url)
  }

  predicate IsNetlocEnd(c: char) {
    c == '/' || c == '?' || c == '#'
  }

  /** `_splitnetloc(url, 2)`'s end: the first `/`, `?` or `#` from `start` on. */
  function NetlocEnd(s: string, start: nat): (k: nat)
    requires start <= |s|
    ensures start <= k <= |s|
    ensures forall j :: start <= j < k ==> !IsNetlocEnd(s[j])
    ensures k < |s| ==> IsNetlocEnd(s[k])
    decreases |s| - start
  {
    if start == |s| || IsNetlocEnd(s[start]) then start else NetlocEnd(s, start + 1)
  }

  /** The result of `urlsplit`. */
  datatype SplitResult = SplitResult(scheme: string, netloc: string, path: string, query: string, fragment: string)

  const InvalidIpv6 := "Invalid IPv6 URL"

  /** `urlsplit(url)` (and the parts of `urlparse(url)` the scrapers read):
      leading C0 characters and spaces stripped and tabs and line breaks
      removed, then the scheme, then after `//` the authority up to the
      first `/`, `?` or `#`, then the fragment after the first `#`, then
      the query after the first `?`.  An authority with an unmatched square
      bracket raises. */
  function UrlSplit(url: string): (r: Try<SplitResult>)
    ensures r.Raised? ==> r.message == InvalidIpv6
    ensures r.Ok? ==> !(exists j :: 0 <= j < |r.value.netloc| && IsNetlocEnd(r.value.netloc[j]))
    ensures r.Ok? ==> '#' !in r.value.path && '?' !in r.value.path && '#' !in r.value.query
  {
    var cleaned := RemoveUnsafe(LStripC0(url));
    var (scheme, rest) := SplitScheme(cleaned);
    var (netloc, rest') := SplitAuthority(rest);
    if ('[' in netloc) != (']' in netloc) then Raised(InvalidIpv6)
    else
      var (beforeFragment, fragment) := CutFirst(rest', '#');
      var (path, query) := CutFirst(beforeFragment, '?');
      Ok(SplitResult(scheme, netloc, path, query, fragment))
  }

  /** After a `//`, the authority up to the first `/`, `?` or `#`, and what
      follows it; without a `//`, no authority. */
  function SplitAuthority(rest: string): (r: (string, string))
    ensures !(exists j :: 0 <= j < |r.0| && IsNetlocEnd(r.0[j]))
  {
    if |rest| >= 2 && rest[..2] == "//" then
      var k := NetlocEnd(rest, 2);
      (rest[2..k], rest[k..])
    else ("", rest)
  }

  /** The text before and after the first `c`, or all of `s` and nothing
      when `c` does not occur. */
  function CutFirst(s: string, c: char): (r: (string, string))
    ensures c !in r.0
  {
    if c in s then SplitOnce(s, c) else (s, "")
  }

  /** The parts of a split URL put back together give the cleaned URL
      after its scheme: the authority (with its `//`) when there was one,
      the path, the query after a `?` when there was one, and the fragment
      after a `#` when there was one.  Since the path holds no `?` or `#`
      and the query no `#`, the query is the text between the first `?`
      after the authority and the first `#`. */
  lemma UrlSplitRecomposes(url: string)
    ensures var r := UrlSplit(url);
      var rest := SplitScheme(RemoveUnsafe(LStripC0(url))).1;
      r.Ok? ==>
        exists a: string, q: string, f: string ::
          && rest == a + r.value.path + q + f
          && ((a == "" && r.value.netloc == "") || a == "//" + r.value.netloc)
          && ((q == "" && r.value.query == "") || q == "?" + r.value.query)
          && ((f == "" && r.value.fragment == "") || f == "#" + r.value.fragment)
  {
    var r := UrlSplit(url);
    var rest := SplitScheme(RemoveUnsafe(LStripC0(url))).1;
    if r.Ok? {
      UrlSplitParts(url);
      var a, q, f := Recompose(rest);
    }
  }

  /** The cuts of the text after the scheme put back together. */
  lemma Recompose(rest: string) returns (a: string, q: string, f: string)
    ensures var rest' := SplitAuthority(rest).1;
      var beforeFragment := CutFirst(rest', '#').0;
      && rest == a + CutFirst(beforeFragment, '?').0 + q + f
      && ((a == "" && SplitAuthority(rest).0 == "") || a == "//" + SplitAuthority(rest).0)
      && ((q == "" && CutFirst(beforeFragment, '?').1 == "") || q == "?" + CutFirst(beforeFragment, '?').1)
      && ((f == "" && CutFirst(rest', '#').1 == "") || f == "#" + CutFirst(rest', '#').1)
  {
    var rest' := SplitAuthority(rest).1;
    var beforeFragment := CutFirst(rest', '#').0;
    var path := CutFirst(beforeFragment, '?').0;
    a := AuthorityCut(rest);
    f := Cut(rest', '#');
    q := Cut(beforeFragment, '?');
    assert rest' == path + q + f by {
      assert rest' == beforeFragment + f && beforeFragment == path + q;
    }
    assert rest == a + path + q + f by {
      assert rest == a + rest';
      Associate(a, path, q, f);
    }
  }

  lemma Associate(a: string, b: string, c: string, d: string)
    ensures a + (b + c + d) == a + b + c + d
  {
  }

  /** The parts of a split URL are the cuts of the text after the scheme. */
  lemma UrlSplitParts(url: string)
    ensures var r := UrlSplit(url);
      var rest := SplitScheme(RemoveUnsafe(LStripC0(url))).1;
      var beforeFragment := CutFirst(SplitAuthority(rest).1, '#').0;
      var netloc := SplitAuthority(rest).0;
      && (r.Raised? <==> ('[' in netloc) != (']' in netloc))
      && (r.Ok? ==>
            && r.value.scheme == SplitScheme(RemoveUnsafe(LStripC0(url))).0
            && r.value.netloc == netloc
            && r.value.fragment == CutFirst(SplitAuthority(rest).1, '#').1
            && r.value.path == CutFirst(beforeFragment, '?').0
            && r.value.query == CutFirst(beforeFragment, '?').1)
  {
  }

  /** The authority part of the text after the scheme, with its `//`. */
  lemma AuthorityCut(rest: string) returns (a: string)
    ensures rest == a + SplitAuthority(rest).1
    ensures (a == "" && SplitAuthority(rest).0 == "") || a == "//" + SplitAuthority(rest).0
  {
    if |rest| >= 2 && rest[..2] == "//" {
      var k := NetlocEnd(rest, 2);
      a := rest[..k];
      assert rest == a + rest[k..];
      assert a == "//" + rest[2..k];
    } else {
      a := "";
      assert rest == a + rest;
    }
  }

  /** Splitting once at the first `c`, when there is one: the separator and
      what follows it. */
  lemma Cut(s: string, c: char) returns (tail: string)
    ensures s == CutFirst(s, c).0 + tail
    ensures (tail == "" && CutFirst(s, c).1 == "") || tail == [c] + CutFirst(s, c).1
  {
    if c in s {
      tail := [c] + CutFirst(s, c).1;
    } else {
      tail := "";
      assert s == s + tail;
    }
  }

  // -------------------------------------------------------------------------
  // parse_qs

  /** `s.split(c)`: the pieces between the occurrences of `c`, of which
      there is one more than there are occurrences. */
  function SplitAll(s: string, c: char): (pieces: seq<string>)
    ensures |pieces| >= 1
    ensures forall i :: 0 <= i < |pieces| ==> c !in pieces[i]
    decreases |s|
  {
    match FindChar(s, c)
    case None => [s]
    case Some(i) => [s[..i]] + SplitAll(s[i + 1..], c)
  }

  /** Every `+` read as a space. */
  function PlusToSpace(s: string): (r: string)
    ensures |r| == |s| && '+' !in r
  {
    seq(|s|, i requires 0 <= i < |s| => if s[i] == '+' then ' ' else s[i])
  }

  /** One field of a query string: nothing for a field without `=` or with
      an empty value; otherwise the name and the value, each with `+` read
      as a space and unquoted. */
  function Field(field: string): Option<(string, string)> {
    if '=' !in field then None
    else
      var (name, value) := SplitOnce(field, '=');
      if value == [] then None
      else Some((Unquote(PlusToSpace(name)), Unquote(PlusToSpace(value))))
  }

  /** `parse_qsl(qs)` with its defaults: the fields between the `&`s, empty
      ones and those `Field` drops left out. */
  function ParseQsl(qs: string): (pairs: seq<(string, string)>)
  {
    if qs == [] then [] else FieldsOf(SplitAll(qs, '&'))
  }

  function FieldsOf(fields: seq<string>): (pairs: seq<(string, string)>)
    ensures |pairs| <= |fields|
  {
    if fields == [] then []
    else
      var rest := FieldsOf(fields[1..]);
      if fields[0] == [] then rest
      else match Field(fields[0])
        case None => rest
        case Some(p) => [p] + rest
  }

  /** `parse_qs(qs).get(name, [default])[0]`: the value of the first pair
      named `name`, or the default. */
  function FirstValue(pairs: seq<(string, string)>, name: string, default: string): (v: string)
    ensures (exists i :: 0 <= i < |pairs| && pairs[i].0 == name) ==>
      exists i :: 0 <= i < |pairs| && pairs[i].0 == name && v == pairs[i].1
        && forall j :: 0 <= j < i ==> pairs[j].0 != name
    ensures (forall i :: 0 <= i < |pairs| ==> pairs[i].0 != name) ==> v == default
  {
    if pairs == [] then default
    else if pairs[0].0 == name then pairs[0].1
    else
      var v := FirstValue(pairs[1..], name, default);
      assert forall i :: 1 <= i < |pairs| ==> pairs[i] == pairs[1..][i - 1];
      v
  }
}
