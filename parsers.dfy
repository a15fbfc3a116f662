/** The string logic of the NDMA and NEOC page parsers: rewriting a
    secure-viewer link into a direct link, and taking the file name and
    file type of an entry from its link. */
module Parsers {
  import opened Wrappers
  import opened Strings
  import opened Urls

  const SecureViewerMarker := "secure-viewer?"
  const FileMarker := "?file="

  /** `parse_qs(query).get('file', [''])[0]`. */
  function FileParameter(query: string): string {
    FirstValue(ParseQsl(query), "file", "")
  }

  /** `convert_secure_url(url)`: a link without "secure-viewer?" is kept as
      it is; otherwise the link is split, the first `file` parameter of its
      query is decoded once more, and the result is the scheme, "://", the
      authority, one "/" and that path with its leading slashes dropped.  A
      link `urlsplit` rejects raises. */
  function ConvertSecureUrl(url: string): (r: Try<string>)
    ensures !Contains(url, SecureViewerMarker) ==> r == Ok(url)
    ensures Contains(url, SecureViewerMarker) ==> (r.Raised? <==> UrlSplit(url).Raised?)
    ensures Contains(url, SecureViewerMarker) && r.Ok? ==>
      var parts := UrlSplit(url).value;
      var host := parts.scheme + "://" + parts.netloc + "/";
      var file := Unquote(FileParameter(parts.query));
      && |host| <= |r.value| && r.value[..|host|] == host
      && (|r.value| == |host| || r.value[|host|] != '/')
      && |r.value| - |host| <= |file|
      && r.value[|host|..] == file[|file| - (|r.value| - |host|)..]
      && (forall i :: 0 <= i < |file| - (|r.value| - |host|) ==> file[i] == '/')
  {
    if !Contains(url, SecureViewerMarker) then Ok(url)
    else match UrlSplit(url)
      case Raised(e) => Raised(e)
      case Ok(parts) =>
        var decoded := LStripChar(Unquote(FileParameter(parts.query)), '/');
        var host := parts.scheme + "://" + parts.netloc + "/";
        assert (host + decoded)[..|host|] == host && (host + decoded)[|host|..] == decoded;
        Ok(host + decoded)
  }

  /** A secure-viewer link without a `file` parameter becomes the root of
      its host. */
  lemma MissingFileGivesRoot(url: string)
    requires Contains(url, SecureViewerMarker) && UrlSplit(url).Ok?
    requires var pairs := ParseQsl(UrlSplit(url).value.query);
      forall i :: 0 <= i < |pairs| ==> pairs[i].0 != "file"
    ensures var parts := UrlSplit(url).value;
      ConvertSecureUrl(url) == Ok(parts.scheme + "://" + parts.netloc + "/")
  {
    var parts := UrlSplit(url).value;
    assert FileParameter(parts.query) == "";
    assert Unquote("") == "";
    assert parts.scheme + "://" + parts.netloc + "/" + "" == parts.scheme + "://" + parts.netloc + "/";
  }

  /** `s.split(sep)[-1]` for a non-empty separator, scanning from `from`:
      Python's split takes occurrences left to right without overlap, and
      the last piece is what follows the last one taken. */
  function AfterLast(s: string, sep: string, from: nat): (r: string)
    requires |sep| > 0 && from <= |s|
    ensures |r| <= |s| - from && r == s[|s| - |r|..]
    ensures forall j :: |s| - |r| <= j ==> !OccursAt(s, sep, j)
    ensures |s| - |r| > from ==> |s| - |r| >= |sep| && OccursAt(s, sep, |s| - |r| - |sep|)
    decreases |s| - from
  {
    match IndexOfFrom(s, sep, from)
    case None => s[from..]
    case Some(i) => AfterLast(s, sep, i + |sep|)
  }

  /** The decoded text the parsers take a file name from: what follows the
      last "?file=" when the link holds one, else the whole link. */
  function NameSource(url: string): string {
    Unquote(if Contains(url, FileMarker) then AfterLast(url, FileMarker, 0) else url)
  }

  /** The file name with its extension: the last "/"-separated segment of
      the decoded text (`os.path.basename`, or `split("/")[-1]`). */
  function NameWithExt(url: string): (r: string)
    ensures var d := NameSource(url);
      && |r| <= |d| && r == d[|d| - |r|..]
      && Lacks(r, '/')
      && (|r| < |d| ==> d[|d| - |r| - 1] == '/')
  {
    LastPiece(NameSource(url), '/')
  }

  /** The position of the last `c` in `s`, or -1. */
  function LastIndexOf(s: string, c: char): (k: int)
    ensures -1 <= k < |s|
    ensures k >= 0 ==> s[k] == c
    ensures forall j :: k < j < |s| ==> s[j] != c
  {
    if s == [] then -1
    else if s[|s| - 1] == c then |s| - 1
    else LastIndexOf(s[..|s| - 1], c)
  }

  /** Something other than a dot comes before position `n` of `s`. */
  predicate HasNonDot(s: string, n: nat)
    requires n <= |s|
    ensures HasNonDot(s, n) <==> exists i :: 0 <= i < n && s[i] != '.'
  {
    n > 0 && (s[n - 1] != '.' || HasNonDot(s, n - 1))
  }

  /** The length of the extension of a path segment: it starts at the last
      "." of the segment, provided something other than a dot comes before
      that "."; otherwise it is empty, which happens exactly when every "."
      of the segment has only dots before it (no "." at all, or a hidden
      file such as ".bashrc"). */
  function ExtLength(seg: string): (k: nat)
    ensures k <= |seg|
    ensures k > 0 ==> && seg[|seg| - k] == '.'
                      && (forall i :: |seg| - k < i < |seg| ==> seg[i] != '.')
                      && (exists i :: 0 <= i < |seg| - k && seg[i] != '.')
    ensures k == 0 ==> forall i, j :: 0 <= i < j < |seg| && seg[j] == '.' ==> seg[i] == '.'
  {
    var dot := LastIndexOf(seg, '.');
    if dot >= 0 && HasNonDot(seg, dot) then |seg| - dot else 0
  }

  /** Where the extension of `p` starts: the extension of its last
      "/"-separated segment ends `p`. */
  function ExtStart(p: string): (at: nat)
    ensures at == |p| - ExtLength(LastPiece(p, '/'))
  {
    |p| - ExtLength(LastPiece(p, '/'))
  }

  /** `os.path.splitext(p)`: `p` cut where its extension starts. */
  function SplitExt(p: string): (r: (string, string))
    ensures r.0 == p[..ExtStart(p)] && r.1 == p[ExtStart(p)..]
  {
    (p[..ExtStart(p)], p[ExtStart(p)..])
  }

  /** The extension is the end of the last segment: one "." and then no
      "." and no "/". */
  lemma SplitExtSegment(p: string)
    ensures var ext := SplitExt(p).1;
      ext != [] ==> ext[0] == '.' && Lacks(ext[1..], '.') && Lacks(ext, '/')
  {
    ExtensionShape(p, LastPiece(p, '/'), ExtStart(p), SplitExt(p).1);
  }

  lemma ExtensionShape(p: string, seg: string, at: nat, ext: string)
    requires |seg| <= |p| && seg == p[|p| - |seg|..] && Lacks(seg, '/')
    requires at == |p| - ExtLength(seg) && ext == p[at..]
    ensures ext != [] ==> ext[0] == '.' && Lacks(ext[1..], '.') && Lacks(ext, '/')
  {
    var k := |ext|;
    forall i | 0 <= i < k ensures ext[i] == seg[|seg| - k + i] != '/' {
      assert ext[i] == p[|p| - k + i];
    }
    forall i | 0 <= i < k - 1 ensures ext[1..][i] != '.' {
      assert ext[1..][i] == seg[|seg| - k + 1 + i];
    }
  }

  /** The `filename` and `filetype` of an entry: the file name is the name
      up to where its extension starts; without an extension the type is
      empty, and otherwise the rest of the name is a dot followed by the type; the type holds no dot (so never
      begins with one) and no "/". */
  function EntryFile(url: string): (r: (string, string))
    ensures var name := NameWithExt(url);
      var at := ExtStart(name);
      && r.0 == name[..at]
      && (at == |name| ==> r.1 == "")
      && (at < |name| ==> name[at..] == "." + r.1)
      && Lacks(r.1, '.') && Lacks(r.1, '/')
  {
    var name := NameWithExt(url);
    var parts := SplitExt(name);
    SplitExtSegment(name);
    TypeOfExtension(parts.1);
    (parts.0, LStripChar(parts.1, '.'))
  }

  /** The type is the extension without its dot. */
  lemma TypeOfExtension(ext: string)
    requires ext != [] ==> ext[0] == '.' && Lacks(ext[1..], '.') && Lacks(ext, '/')
    ensures var filetype := LStripChar(ext, '.');
      && (ext == [] ==> filetype == [])
      && (ext != [] ==> ext == "." + filetype)
      && Lacks(filetype, '.') && Lacks(filetype, '/')
  {
    if ext != [] {
      var tail := ext[1..];
      assert LStripChar(ext, '.') == LStripChar(tail, '.');
      assert LStripChar(tail, '.') == tail by {
        if tail != [] {
          assert tail[0] != '.';
        }
      }
      assert ext == [ext[0]] + tail;
    }
  }
}
