/** The directional parser: it looks for the first direction word of a fixed
    priority list (compound directions first, central/middle last), removes
    every occurrence of it, and splits what is left on "and", "or" and commas
    into place names. */
module DirectionalParser {
  import opened Wrappers
  import opened Strings

  datatype Direction = North | South | East | West | Central
                     | NorthEast | NorthWest | SouthEast | SouthWest
  {
    /** The enum value. */
    function Value(): string {
      match this
      case North => "north"
      case South => "south"
      case East => "east"
      case West => "west"
      case Central => "central"
      case NorthEast => "north-eastern"
      case NorthWest => "north-western"
      case SouthEast => "south-eastern"
      case SouthWest => "south-western"
    }
  }

  /** `Direction.to_sql_value`: the enum value unchanged, and no two directions
      share it. */
  function ToSqlValue(d: Direction): (v: string)
    ensures v == d.Value()
    ensures forall e: Direction :: e.Value() == v ==> e == d
  {
    d.Value()
  }

  /** One position of a direction regex: a letter compared without regard to
      case, or the optional separator `[\s-]`. */
  datatype Atom = Letter(c: char) | SpaceOrHyphen

  type Phrase = seq<Atom>

  /** An entry of the pattern list: a direction and the phrases its regex
      accepts, in the order the regex engine tries them at one position. */
  datatype Pattern = Pattern(direction: Direction, phrases: seq<Phrase>)

  /** The letters of `w`, one atom each. */
  function Word(w: string): (p: Phrase)
    ensures |p| == |w|
    ensures forall k :: 0 <= k < |w| ==> p[k] == Letter(w[k])
  {
    seq(|w|, k requires 0 <= k < |w| => Letter(w[k]))
  }

  /** `\b(a[\s-]?b(?:ern)?)\b`: the separator is tried before its absence and
      "ern" before its absence. */
  function Compound(d: Direction, a: string, b: string): Pattern {
    Pattern(d, [Word(a) + [SpaceOrHyphen] + Word(b + "ern"), Word(a) + [SpaceOrHyphen] + Word(b),
                Word(a + b + "ern"), Word(a + b)])
  }

  /** `\b(w(?:ern)?)\b`. */
  function Simple(d: Direction, w: string): Pattern {
    Pattern(d, [Word(w + "ern"), Word(w)])
  }

  /** `_DIRECTION_PATTERNS`, in priority order. */
  const Patterns: seq<Pattern> := [
    Compound(NorthEast, "north", "east"), Compound(NorthWest, "north", "west"),
    Compound(SouthEast, "south", "east"), Compound(SouthWest, "south", "west"),
    Simple(North, "north"), Simple(South, "south"), Simple(East, "east"), Simple(West, "west"),
    Pattern(Central, [Word("central"), Word("middle")])
  ]

  // ---------------------------------------------------------------------------
  // Matching one pattern

  predicate AtomMatches(c: char, a: Atom) {
    match a
    case Letter(l) => FoldEq(c, l)
    case SpaceOrHyphen => IsSpace(c) || c == '-'
  }

  predicate PhraseAt(s: string, ph: Phrase, i: nat) {
    i + |ph| <= |s| && forall k :: 0 <= k < |ph| ==> AtomMatches(s[i + k], ph[k])
  }

  /** Regex `\b` in front of a match: the start, or a non-word character before. */
  predicate BoundaryBefore(s: string, i: nat)
    requires i <= |s|
  {
    i == 0 || !IsWordChar(s[i - 1])
  }

  /** Regex `\b` after a match: the end, or a non-word character next. */
  predicate BoundaryAfter(s: string, j: nat)
    requires j <= |s|
  {
    j == |s| || !IsWordChar(s[j])
  }

  /** `ph` matches at `i` between word boundaries. */
  predicate MatchesWith(s: string, ph: Phrase, i: nat) {
    PhraseAt(s, ph, i) && BoundaryBefore(s, i) && BoundaryAfter(s, i + |ph|)
  }

  /** The first of `phrases[from..]` that matches at `i`. */
  function FirstPhrase(s: string, phrases: seq<Phrase>, i: nat, from: nat): (r: Option<nat>)
    requires from <= |phrases|
    ensures r.Some? ==> from <= r.value < |phrases| && MatchesWith(s, phrases[r.value], i)
    ensures r.Some? ==> forall j :: from <= j < r.value ==> !MatchesWith(s, phrases[j], i)
    ensures r.None? ==> forall j :: from <= j < |phrases| ==> !MatchesWith(s, phrases[j], i)
    decreases |phrases| - from
  {
    if from == |phrases| then None
    else if MatchesWith(s, phrases[from], i) then Some(from)
    else FirstPhrase(s, phrases, i, from + 1)
  }

  /** The length of the match of `pat` at position `i`, if there is one: the
      first phrase that matches there between word boundaries decides. */
  function MatchAt(s: string, pat: Pattern, i: nat): Option<nat> {
    match FirstPhrase(s, pat.phrases, i, 0)
    case None => None
    case Some(k) => Some(|pat.phrases[k]|)
  }

  /** The pattern matches at `i` exactly when one of its phrases does there,
      and the length reported is that of a phrase that matches. */
  lemma MatchAtMeaning(s: string, pat: Pattern, i: nat)
    ensures MatchAt(s, pat, i).None? <==> forall k :: 0 <= k < |pat.phrases| ==> !MatchesWith(s, pat.phrases[k], i)
    ensures MatchAt(s, pat, i).Some? ==> exists k :: 0 <= k < |pat.phrases| && MatchesWith(s, pat.phrases[k], i) && MatchAt(s, pat, i).value == |pat.phrases[k]|
  {
  }

  /** `pattern.search(s)` succeeds. */
  predicate Found(s: string, pat: Pattern) {
    exists i :: 0 <= i < |s| && MatchAt(s, pat, i).Some?
  }

  /** A compiled pattern as a scan uses it: the length of the match that
      starts at a position, if one does. */
  type Matcher = (string, nat) -> Option<nat>

  /** Pattern `pat` as a matcher. */
  function PatternAt(pat: Pattern): Matcher {
    (t: string, j: nat) => MatchAt(t, pat, j)
  }

  /** Every match the matcher finds lies inside the text. */
  ghost predicate InText(m: Matcher) {
    forall s: string, i: nat {:trigger m(s, i)} :: m(s, i).Some? ==> i + m(s, i).value <= |s|
  }

  lemma PatternInText(pat: Pattern)
    ensures InText(PatternAt(pat))
  {
    forall s: string, i: nat | PatternAt(pat)(s, i).Some? ensures i + PatternAt(pat)(s, i).value <= |s| {
      assert PatternAt(pat)(s, i) == MatchAt(s, pat, i);
    }
  }

  /** `pattern.sub('', s)` from position `i` on: the scan drops each match it
      meets and resumes right after it; an empty match drops nothing. */
  function RemoveFrom(m: Matcher, s: string, i: nat): string
    requires InText(m) && i <= |s|
    decreases |s| - i
  {
    if i == |s| then []
    else match m(s, i)
      case Some(n) => if n == 0 then [s[i]] + RemoveFrom(m, s, i + 1) else RemoveFrom(m, s, i + n)
      case None => [s[i]] + RemoveFrom(m, s, i + 1)
  }

  function RemoveAll(s: string, pat: Pattern): string {
    PatternInText(pat);
    RemoveFrom(PatternAt(pat), s, 0)
  }

  // ---------------------------------------------------------------------------
  // Well-formed patterns

  predicate LowerWord(w: string) {
    |w| > 0 && forall k :: 0 <= k < |w| ==> 'a' <= w[k] <= 'z'
  }

  /** Starts and ends with a lower-case letter and never has two separators in a row. */
  predicate WellFormedPhrase(ph: Phrase) {
    && |ph| > 0 && ph[0].Letter? && ph[|ph| - 1].Letter?
    && (forall k :: 0 <= k < |ph| && ph[k].Letter? ==> 'a' <= ph[k].c <= 'z')
    && (forall k :: 0 <= k < |ph| - 1 ==> ph[k].Letter? || ph[k + 1].Letter?)
  }

  predicate WellFormed(pat: Pattern) {
    forall k :: 0 <= k < |pat.phrases| ==> WellFormedPhrase(pat.phrases[k])
  }

  lemma WordWellFormed(a: string, b: string)
    requires LowerWord(a) && LowerWord(b)
    ensures WellFormedPhrase(Word(a))
    ensures WellFormedPhrase(Word(a) + [SpaceOrHyphen] + Word(b))
  {
    var ph := Word(a) + [SpaceOrHyphen] + Word(b);
    assert ph[|ph| - 1] == Word(b)[|b| - 1];
  }

  lemma CompoundWellFormed(d: Direction, a: string, b: string)
    requires LowerWord(a) && LowerWord(b) && LowerWord(b + "ern") && LowerWord(a + b + "ern") && LowerWord(a + b)
    ensures WellFormed(Compound(d, a, b))
  {
    WordWellFormed(a, b + "ern");
    WordWellFormed(a, b);
    WordWellFormed(a + b + "ern", a);
    WordWellFormed(a + b, a);
  }

  lemma SimpleWellFormed(d: Direction, w: string)
    requires LowerWord(w) && LowerWord(w + "ern")
    ensures WellFormed(Simple(d, w))
  {
    WordWellFormed(w + "ern", w);
    WordWellFormed(w, w);
  }

  lemma CompoundsWellFormed()
    ensures forall k :: 0 <= k < 4 ==> WellFormed(Patterns[k])
  {
    CompoundWellFormed(NorthEast, "north", "east");
    CompoundWellFormed(NorthWest, "north", "west");
    CompoundWellFormed(SouthEast, "south", "east");
    CompoundWellFormed(SouthWest, "south", "west");
  }

  lemma SimplesWellFormed()
    ensures forall k :: 4 <= k < 8 ==> WellFormed(Patterns[k])
  {
    SimpleWellFormed(North, "north");
    SimpleWellFormed(South, "south");
    SimpleWellFormed(East, "east");
    SimpleWellFormed(West, "west");
  }

  /** Every entry of the pattern list is well formed. */
  lemma PatternsWellFormed()
    ensures forall k :: 0 <= k < |Patterns| ==> WellFormed(Patterns[k])
  {
    CompoundsWellFormed();
    SimplesWellFormed();
    WordWellFormed("central", "middle");
    WordWellFormed("middle", "central");
  }

  // ---------------------------------------------------------------------------
  // Removal leaves no match behind

  lemma SpaceNotWord(c: char)
    ensures IsSpace(c) ==> !IsWordChar(c)
  {
    IsSpaceDef(c);
  }

  /** In a well-formed phrase an atom matches a word character exactly when it
      is a letter. */
  lemma AtomWordness(c: char, ph: Phrase, k: nat)
    requires WellFormedPhrase(ph) && k < |ph| && AtomMatches(c, ph[k])
    ensures ph[k].Letter? <==> IsWordChar(c)
  {
    if ph[k].Letter? {
      FoldEqIsWordChar(c, ph[k].c);
    } else {
      SpaceNotWord(c);
    }
  }

  /** A match starts and ends on word characters and sits between word
      boundaries, so a direction word inside a longer word never matches. */
  lemma MatchFacts(s: string, pat: Pattern, i: nat)
    requires WellFormed(pat)
    ensures MatchAt(s, pat, i).Some? ==>
      var n := MatchAt(s, pat, i).value;
      && n >= 1 && i + n <= |s|
      && IsWordChar(s[i]) && IsWordChar(s[i + n - 1])
      && BoundaryBefore(s, i) && BoundaryAfter(s, i + n)
  {
    match FirstPhrase(s, pat.phrases, i, 0)
    case None =>
    case Some(k) =>
      var ph := pat.phrases[k];
      var n := |ph|;
      AtomWordness(s[i], ph, 0);
      AtomWordness(s[i + n - 1], ph, n - 1);
  }

  /** A match `r` found at `i` is non-empty, starts and ends on word
      characters and sits between word boundaries. */
  ghost predicate WordMatchAt(s: string, i: nat, r: Option<nat>) {
    r.Some? ==>
      && r.value >= 1 && i + r.value <= |s|
      && IsWordChar(s[i]) && IsWordChar(s[i + r.value - 1])
      && BoundaryBefore(s, i) && BoundaryAfter(s, i + r.value)
  }

  /** Every match the matcher finds is a word match. */
  ghost predicate WordMatches(m: Matcher) {
    && InText(m)
    && forall s: string, i: nat {:trigger m(s, i)} :: WordMatchAt(s, i, m(s, i))
  }

  lemma PatternWordMatches(pat: Pattern)
    requires WellFormed(pat)
    ensures WordMatches(PatternAt(pat))
  {
    PatternInText(pat);
    forall s: string, i: nat ensures WordMatchAt(s, i, PatternAt(pat)(s, i)) {
      MatchFacts(s, pat, i);
      assert PatternAt(pat)(s, i) == MatchAt(s, pat, i);
    }
  }

  /** The positions `pattern.sub` keeps, scanning from `i`. */
  ghost function KeptFrom(m: Matcher, s: string, i: nat): seq<nat>
    requires InText(m) && i <= |s|
    decreases |s| - i
  {
    if i == |s| then []
    else match m(s, i)
      case Some(n) => if n == 0 then [i] + KeptFrom(m, s, i + 1) else KeptFrom(m, s, i + n)
      case None => [i] + KeptFrom(m, s, i + 1)
  }

  ghost predicate InBounds(s: string, K: seq<nat>) {
    forall k :: 0 <= k < |K| ==> K[k] < |s|
  }

  ghost function Project(s: string, K: seq<nat>): (r: string)
    requires InBounds(s, K)
    ensures |r| == |K| && forall k :: 0 <= k < |K| ==> r[k] == s[K[k]]
  {
    seq(|K|, k requires 0 <= k < |K| => s[K[k]])
  }

  /** Where kept positions are not adjacent, a match was removed between
      them; the characters on both sides of a removed match are not word
      characters. */
  ghost predicate KeptShape(s: string, K: seq<nat>) {
    && InBounds(s, K)
    && (forall k :: 0 <= k < |K| - 1 ==> K[k] < K[k + 1])
    && (forall k :: 0 <= k < |K| - 1 && K[k] + 1 < K[k + 1] ==> !IsWordChar(s[K[k]]) && !IsWordChar(s[K[k + 1]]))
    && (|K| > 0 && K[0] > 0 ==> !IsWordChar(s[K[0]]))
    && (|K| > 0 && K[|K| - 1] + 1 < |s| ==> !IsWordChar(s[K[|K| - 1]]))
  }

  /** What the scan from `i` guarantees about the positions `K` it keeps. */
  ghost predicate KeptInv(m: Matcher, s: string, i: nat, K: seq<nat>)
    requires i <= |s|
  {
    && InBounds(s, K)
    && (forall k :: 0 <= k < |K| ==> i <= K[k] && m(s, K[k]).None?)
    && (forall k :: 0 <= k < |K| - 1 ==> K[k] < K[k + 1])
    && (forall k :: 0 <= k < |K| - 1 && K[k] + 1 < K[k + 1] ==> !IsWordChar(s[K[k]]) && !IsWordChar(s[K[k + 1]]))
    && (i < |s| && (|K| == 0 || K[0] > i) ==> m(s, i).Some?)
    && (|K| > 0 && K[0] > i ==> !IsWordChar(s[K[0]]))
    && (|K| > 0 && K[|K| - 1] + 1 < |s| ==> !IsWordChar(s[K[|K| - 1]]))
  }

  lemma StepOverMatch(m: Matcher, s: string, i: nat, n: nat, K: seq<nat>)
    requires WordMatches(m) && i < |s| && m(s, i) == Some(n)
    requires i + n <= |s| && KeptInv(m, s, i + n, K)
    ensures KeptInv(m, s, i, K)
  {
    if i + n < |s| {
      assert K[0] == i + n;
    }
  }

  lemma StepOverKept(m: Matcher, s: string, i: nat, K: seq<nat>)
    requires WordMatches(m) && i < |s| && m(s, i).None?
    requires KeptInv(m, s, i + 1, K)
    ensures KeptInv(m, s, i, [i] + K)
  {
  }

  lemma {:induction false} KeptFacts(m: Matcher, s: string, i: nat)
    requires i <= |s| && WordMatches(m)
    ensures KeptInv(m, s, i, KeptFrom(m, s, i))
    decreases |s| - i
  {
    if i < |s| {
      match m(s, i)
      case Some(n) =>
        var K := KeptFrom(m, s, i + n);
        assert KeptFrom(m, s, i) == K;
        KeptFacts(m, s, i + n);
        StepOverMatch(m, s, i, n, K);
      case None =>
        var K := KeptFrom(m, s, i + 1);
        assert KeptFrom(m, s, i) == [i] + K;
        KeptFacts(m, s, i + 1);
        StepOverKept(m, s, i, K);
    }
  }

  /** The text `pattern.sub` returns is the kept characters, in order. */
  lemma {:induction false} RemoveIsProjection(m: Matcher, s: string, i: nat)
    requires i <= |s| && InText(m)
    ensures InBounds(s, KeptFrom(m, s, i))
    ensures RemoveFrom(m, s, i) == Project(s, KeptFrom(m, s, i))
    decreases |s| - i
  {
    if i < |s| {
      var r := m(s, i);
      if r.Some? && r.value > 0 {
        RemoveIsProjection(m, s, i + r.value);
        SkipMatch(m, s, i, r.value);
      } else {
        RemoveIsProjection(m, s, i + 1);
        KeepChar(m, s, i);
        ProjectCons(s, i, KeptFrom(m, s, i + 1));
      }
    }
  }

  lemma SkipMatch(m: Matcher, s: string, i: nat, n: nat)
    requires InText(m) && i < |s| && m(s, i) == Some(n) && n > 0
    ensures KeptFrom(m, s, i) == KeptFrom(m, s, i + n)
    ensures RemoveFrom(m, s, i) == RemoveFrom(m, s, i + n)
  {
  }

  lemma KeepChar(m: Matcher, s: string, i: nat)
    requires InText(m) && i < |s| && (m(s, i).None? || m(s, i) == Some(0))
    ensures KeptFrom(m, s, i) == [i] + KeptFrom(m, s, i + 1)
    ensures RemoveFrom(m, s, i) == [s[i]] + RemoveFrom(m, s, i + 1)
  {
  }

  lemma ProjectCons(s: string, i: nat, K: seq<nat>)
    requires i < |s| && InBounds(s, K)
    ensures InBounds(s, [i] + K)
    ensures Project(s, [i] + K) == [s[i]] + Project(s, K)
  {
    assert Project(s, [i] + K) == [s[i]] + Project(s, K);
  }

  lemma RunIsContiguous(K: seq<nat>, lo: nat, hi: nat)
    requires lo <= hi < |K|
    requires forall m :: lo <= m < hi ==> K[m + 1] == K[m] + 1
    ensures forall t :: lo <= t <= hi ==> K[t] == K[lo] + (t - lo)
    decreases hi - lo
  {
    if lo < hi {
      RunIsContiguous(K, lo + 1, hi);
    }
  }

  /** Inside a match in the kept characters, consecutive kept positions are
      adjacent in `s`: a removed stretch is flanked by non-word characters,
      and no two neighbours in a phrase are both separators. */
  lemma KeptAdjacent(s: string, K: seq<nat>, ph: Phrase, p: nat, m: nat)
    requires KeptShape(s, K) && WellFormedPhrase(ph)
    requires MatchesWith(Project(s, K), ph, p) && p <= m && m + 1 < p + |ph|
    ensures K[m + 1] == K[m] + 1
  {
    var r := Project(s, K);
    AtomWordness(r[m], ph, m - p);
    AtomWordness(r[m + 1], ph, m + 1 - p);
  }

  /** A match in the kept characters is a match of the same phrase at the
      corresponding position of the original string. */
  lemma LiftMatch(s: string, K: seq<nat>, ph: Phrase, p: nat)
    requires KeptShape(s, K) && WellFormedPhrase(ph)
    ensures MatchesWith(Project(s, K), ph, p) ==> p < |K| && MatchesWith(s, ph, K[p])
  {
    var r := Project(s, K);
    if MatchesWith(r, ph, p) {
      var last := p + |ph| - 1;
      forall m | p <= m < last ensures K[m + 1] == K[m] + 1 {
        KeptAdjacent(s, K, ph, p, m);
      }
      RunIsContiguous(K, p, last);
      LiftPhrase(s, K, ph, p);
      LiftBoundaries(s, K, ph, p);
    }
  }

  /** The letters of a kept run of consecutive positions are those of `s`. */
  lemma LiftPhrase(s: string, K: seq<nat>, ph: Phrase, p: nat)
    requires InBounds(s, K) && |ph| > 0 && PhraseAt(Project(s, K), ph, p)
    requires forall t :: p <= t <= p + |ph| - 1 ==> K[t] == K[p] + (t - p)
    ensures PhraseAt(s, ph, K[p])
  {
    var r := Project(s, K);
    assert K[p + |ph| - 1] < |s|;
    forall k | 0 <= k < |ph| ensures AtomMatches(s[K[p] + k], ph[k]) {
      assert r[p + k] == s[K[p + k]];
    }
  }

  /** The kept characters around a match are the characters of `s` around it. */
  lemma LiftBoundaries(s: string, K: seq<nat>, ph: Phrase, p: nat)
    requires KeptShape(s, K) && WellFormedPhrase(ph) && MatchesWith(Project(s, K), ph, p)
    requires forall t :: p <= t <= p + |ph| - 1 ==> K[t] == K[p] + (t - p)
    ensures K[p] + |ph| <= |s| && BoundaryBefore(s, K[p]) && BoundaryAfter(s, K[p] + |ph|)
  {
    var r := Project(s, K);
    var last := p + |ph| - 1;
    assert K[last] < |s|;
    AtomWordness(r[p], ph, 0);
    AtomWordness(r[last], ph, |ph| - 1);
    if p > 0 {
      assert K[p - 1] + 1 == K[p];
    } else {
      assert K[p] == 0;
    }
    if last + 1 < |K| {
      assert K[last] + 1 == K[last + 1];
    } else {
      assert K[last] + 1 == |s|;
    }
  }

  /** Every occurrence is gone: after `pattern.sub('', s)` the pattern no longer
      matches anywhere in the result. */
  lemma NoMatchAfterRemoval(s: string, pat: Pattern)
    requires WellFormed(pat)
    ensures !Found(RemoveAll(s, pat), pat)
  {
    var m := PatternAt(pat);
    PatternWordMatches(pat);
    KeptFacts(m, s, 0);
    RemoveIsProjection(m, s, 0);
    var K := KeptFrom(m, s, 0);
    var r := RemoveAll(s, pat);
    assert r == Project(s, K);
    forall k | 0 <= k < |K| ensures MatchAt(s, pat, K[k]).None? {
      assert m(s, K[k]) == MatchAt(s, pat, K[k]);
    }
    forall p | 0 <= p < |r| ensures MatchAt(r, pat, p).None? {
      NoMatchAtKept(s, pat, K, p);
    }
  }

  /** A match in the kept characters would be a match at a kept position. */
  lemma NoMatchAtKept(s: string, pat: Pattern, K: seq<nat>, p: nat)
    requires WellFormed(pat) && KeptShape(s, K)
    requires forall k :: 0 <= k < |K| ==> MatchAt(s, pat, K[k]).None?
    ensures MatchAt(Project(s, K), pat, p).None?
  {
    forall k | 0 <= k < |pat.phrases| ensures !MatchesWith(Project(s, K), pat.phrases[k], p) {
      LiftMatch(s, K, pat.phrases[k], p);
      if p < |K| {
        MatchAtMeaning(s, pat, K[p]);
      }
    }
    MatchAtMeaning(Project(s, K), pat, p);
  }

  /** Every position the scan from `i` drops lies inside a match the scan
      took, one that starts at or after `i`. */
  lemma {:induction false} DroppedAreMatched(m: Matcher, s: string, i: nat)
    requires InText(m) && i <= |s|
    ensures forall p :: i <= p < |s| && p !in KeptFrom(m, s, i) ==>
      exists j :: i <= j <= p && m(s, j).Some? && p < j + m(s, j).value
    decreases |s| - i
  {
    if i < |s| {
      var r := m(s, i);
      if r.Some? && r.value > 0 {
        SkipMatch(m, s, i, r.value);
        DroppedAreMatched(m, s, i + r.value);
      } else {
        KeepChar(m, s, i);
        DroppedAreMatched(m, s, i + 1);
      }
    }
  }

  /** `pattern.sub('', s)` keeps exactly the characters outside the matches
      it removes: the result is the characters at the kept positions, in
      order; no match starts at a kept position; and a position that is not
      kept lies inside a match, so a character covered by no match is kept. */
  lemma RemovalKeepsUnmatched(s: string, pat: Pattern)
    requires WellFormed(pat)
    ensures var K := KeptFrom(PatternAt(pat), s, 0);
      && InBounds(s, K)
      && RemoveAll(s, pat) == Project(s, K)
      && (forall k :: 0 <= k < |K| - 1 ==> K[k] < K[k + 1])
      && (forall k :: 0 <= k < |K| ==> MatchAt(s, pat, K[k]).None?)
      && (forall p :: 0 <= p < |s| && p !in K ==>
            exists j :: 0 <= j <= p && MatchAt(s, pat, j).Some? && p < j + MatchAt(s, pat, j).value)
  {
    var m := PatternAt(pat);
    PatternWordMatches(pat);
    KeptFacts(m, s, 0);
    RemoveIsProjection(m, s, 0);
    DroppedAreMatched(m, s, 0);
    var K := KeptFrom(m, s, 0);
    forall k | 0 <= k < |K| ensures MatchAt(s, pat, K[k]).None? {
      assert m(s, K[k]) == MatchAt(s, pat, K[k]);
    }
    forall p | 0 <= p < |s| && p !in K
      ensures exists j :: 0 <= j <= p && MatchAt(s, pat, j).Some? && p < j + MatchAt(s, pat, j).value
    {
      var j :| 0 <= j <= p && m(s, j).Some? && p < j + m(s, j).value;
      assert m(s, j) == MatchAt(s, pat, j);
    }
  }

  // ---------------------------------------------------------------------------
  // Slices between non-word characters

  /** `s[a..b]` has the start or a non-word character on its left and the end
      or a non-word character on its right. */
  predicate Isolated(s: string, a: nat, b: nat) {
    a <= b <= |s| && (a == 0 || !IsWordChar(s[a - 1])) && (b == |s| || !IsWordChar(s[b]))
  }

  lemma SliceMatchLifts(s: string, a: nat, b: nat, ph: Phrase, p: nat)
    requires Isolated(s, a, b)
    ensures MatchesWith(s[a..b], ph, p) ==> MatchesWith(s, ph, a + p)
  {
    if MatchesWith(s[a..b], ph, p) {
      forall k | 0 <= k < |ph| ensures AtomMatches(s[a + p + k], ph[k]) {
        assert s[a..b][p + k] == s[a + p + k];
      }
    }
  }

  /** A slice between non-word characters has no match the whole string lacks. */
  lemma SliceKeepsNoMatch(s: string, a: nat, b: nat, pat: Pattern)
    requires Isolated(s, a, b) && !Found(s, pat)
    ensures !Found(s[a..b], pat)
  {
    forall p | 0 <= p < b - a ensures MatchAt(s[a..b], pat, p).None? {
      assert MatchAt(s, pat, a + p).None?;
      forall k | 0 <= k < |pat.phrases| ensures !MatchesWith(s[a..b], pat.phrases[k], p) {
        SliceMatchLifts(s, a, b, pat.phrases[k], p);
      }
    }
  }

  lemma StripKeepsNoMatch(s: string, pat: Pattern)
    requires !Found(s, pat)
    ensures !Found(Strip(s), pat)
  {
    var l := LeadingSpaces(s);
    var r := Strip(s);
    if l > 0 {
      SpaceNotWord(s[l - 1]);
    }
    if l + |r| < |s| {
      SpaceNotWord(s[l + |r|]);
    }
    SliceKeepsNoMatch(s, l, l + |r|, pat);
  }

  // ---------------------------------------------------------------------------
  // Splitting on conjunctions

  /** The number of whitespace characters starting at `i`. */
  function Spaces(s: string, i: nat): (n: nat)
    requires i <= |s|
    ensures i + n <= |s|
    ensures n > 0 ==> IsSpace(s[i + n - 1])
    ensures i + n < |s| ==> !IsSpace(s[i + n])
    decreases |s| - i
  {
    if i < |s| && IsSpace(s[i]) then 1 + Spaces(s, i + 1) else 0
  }

  /** The letters of `w` at `e`, ignoring case. */
  predicate KeywordAt(s: string, e: nat, w: string) {
    e + |w| <= |s| && forall k :: 0 <= k < |w| ==> FoldEq(s[e + k], w[k])
  }

  /** `\s+w\s+` at `i`: whitespace, the keyword, whitespace; the length matched. */
  function SpacedKeywordAt(s: string, i: nat, w: string): (r: Option<nat>)
    requires i < |s| && IsSpace(s[i])
    ensures r.Some? ==> r.value >= 1 && i + r.value <= |s| && IsSpace(s[i + r.value - 1])
  {
    var e := i + Spaces(s, i);
    if KeywordAt(s, e, w) && e + |w| < |s| && IsSpace(s[e + |w|]) then
      Some(e + |w| + Spaces(s, e + |w|) - i)
    else None
  }

  /** The first of the alternatives `\s+w\s+`, for `w` in `words`, that matches at `i`. */
  function SpacedKeywordsAt(s: string, i: nat, words: seq<string>): (r: Option<nat>)
    requires i < |s| && IsSpace(s[i])
    ensures r.Some? ==> r.value >= 1 && i + r.value <= |s| && IsSpace(s[i + r.value - 1])
  {
    if words == [] then None
    else match SpacedKeywordAt(s, i, words[0])
      case Some(n) => Some(n)
      case None => SpacedKeywordsAt(s, i, words[1..])
  }

  /** `_CONJUNCTION_PATTERN` (`\s+and\s+|\s+or\s+|,\s*`, ignoring case) at `i`:
      the length of the separator found there.  Every comma is a separator,
      and a separator begins and ends with whitespace or a comma. */
  function ConjunctionAt(s: string, i: nat): (r: Option<nat>)
    ensures r.Some? ==>
      && i < |s| && r.value >= 1 && i + r.value <= |s|
      && (s[i] == ',' || IsSpace(s[i]))
      && (s[i + r.value - 1] == ',' || IsSpace(s[i + r.value - 1]))
    ensures i < |s| && s[i] == ',' ==> r.Some?
  {
    if |s| <= i then None
    else if IsSpace(s[i]) then SpacedKeywordsAt(s, i, ["and", "or"])
    else if s[i] == ',' then Some(1 + Spaces(s, i + 1))
    else None
  }

  /** Every separator the matcher finds is non-empty and lies inside the text. */
  ghost predicate SeparatorBounds(sep: Matcher) {
    forall s: string, i: nat {:trigger sep(s, i)} :: sep(s, i).Some? ==>
      i < |s| && sep(s, i).value >= 1 && i + sep(s, i).value <= |s|
  }

  /** Besides, every separator begins and ends with whitespace or a comma. */
  ghost predicate SeparatorShape(sep: Matcher) {
    && SeparatorBounds(sep)
    && forall s: string, i: nat {:trigger sep(s, i)} :: sep(s, i).Some? && i < |s| && i + sep(s, i).value <= |s| ==>
      && sep(s, i).value >= 1
      && (s[i] == ',' || IsSpace(s[i]))
      && (s[i + sep(s, i).value - 1] == ',' || IsSpace(s[i + sep(s, i).value - 1]))
  }

  /** Every comma starts a separator. */
  ghost predicate CommaSeparates(sep: Matcher) {
    forall s: string, i: nat {:trigger sep(s, i)} :: i < |s| && s[i] == ',' ==> sep(s, i).Some?
  }

  lemma ConjunctionShape()
    ensures SeparatorShape(ConjunctionAt) && CommaSeparates(ConjunctionAt)
  {
    forall s: string, i: nat | ConjunctionAt(s, i).Some?
      ensures i < |s| && ConjunctionAt(s, i).value >= 1
    {
    }
  }

  /** `re.split(sep, s)`: the piece that began at `start`, continued by the
      scan at `i`, and the pieces after it. */
  function SplitFrom(sep: Matcher, s: string, start: nat, i: nat): (pieces: seq<string>)
    requires SeparatorBounds(sep) && start <= i <= |s|
    ensures |pieces| >= 1
    decreases |s| - i
  {
    if i == |s| then [s[start..]]
    else match sep(s, i)
      case Some(n) => [s[start..i]] + SplitFrom(sep, s, i + n, i + n)
      case None => SplitFrom(sep, s, start, i + 1)
  }

  /** `[p.strip() for p in parts if p and p.strip()]`. */
  function CleanPieces(parts: seq<string>): (names: seq<string>)
    ensures |names| <= |parts|
    ensures forall n :: n in names ==> n != [] && IsTrimmed(n)
  {
    if parts == [] then []
    else (if Strip(parts[0]) == [] then [] else [Strip(parts[0])]) + CleanPieces(parts[1..])
  }

  /** `_split_places`: blank text gives no names. */
  function SplitPlaces(text: string): (names: seq<string>)
    ensures AllSpace(text) ==> names == []
    ensures forall n :: n in names ==> n != [] && IsTrimmed(n)
  {
    if AllSpace(text) then []
    else
      ConjunctionShape();
      CleanPieces(SplitFrom(ConjunctionAt, text, 0, 0))
  }

  /** One step of the scan at a separator. */
  lemma SplitAt(sep: Matcher, s: string, start: nat, i: nat, n: nat)
    requires SeparatorShape(sep) && start <= i < |s| && sep(s, i) == Some(n)
    ensures i + n <= |s|
    ensures SplitFrom(sep, s, start, i) == [s[start..i]] + SplitFrom(sep, s, i + n, i + n)
  {
  }

  /** Positions without a separator leave the current piece open. */
  lemma {:induction false} SplitSkip(sep: Matcher, s: string, start: nat, i: nat, j: nat)
    requires SeparatorShape(sep) && start <= i <= j <= |s|
    requires forall m :: i <= m < j ==> sep(s, m).None?
    ensures SplitFrom(sep, s, start, i) == SplitFrom(sep, s, start, j)
    decreases j - i
  {
    if i < j {
      assert sep(s, i).None?;
      assert SplitFrom(sep, s, start, i) == SplitFrom(sep, s, start, i + 1);
      SplitSkip(sep, s, start, i + 1, j);
    }
  }

  /** No piece of the split holds a comma. */
  lemma {:induction false} SplitPiecesLackComma(sep: Matcher, s: string, start: nat, i: nat)
    requires SeparatorShape(sep) && CommaSeparates(sep) && start <= i <= |s|
    requires forall k :: start <= k < i ==> s[k] != ','
    ensures forall p :: p in SplitFrom(sep, s, start, i) ==> Lacks(p, ',')
    decreases |s| - i
  {
    if i == |s| {
      assert SplitFrom(sep, s, start, i) == [s[start..]];
      var piece := s[start..];
      assert Lacks(piece, ',') by {
        forall j | 0 <= j < |piece| ensures piece[j] != ',' {
          assert piece[j] == s[start + j];
        }
      }
    } else {
      match sep(s, i)
      case Some(n) =>
        SplitAt(sep, s, start, i, n);
        SplitPiecesLackComma(sep, s, i + n, i + n);
        var piece := s[start..i];
        assert Lacks(piece, ',') by {
          forall j | 0 <= j < |piece| ensures piece[j] != ',' {
            assert piece[j] == s[start + j];
          }
        }
      case None =>
        assert s[i] != ',';
        assert SplitFrom(sep, s, start, i) == SplitFrom(sep, s, start, i + 1);
        SplitPiecesLackComma(sep, s, start, i + 1);
    }
  }

  /** Each piece lies between non-word characters, so it holds no match that
      `s` lacks. */
  lemma {:induction false} SplitPiecesKeepNoMatch(sep: Matcher, s: string, start: nat, i: nat, pat: Pattern)
    requires SeparatorShape(sep) && start <= i <= |s| && !Found(s, pat)
    requires start == 0 || !IsWordChar(s[start - 1])
    ensures forall p :: p in SplitFrom(sep, s, start, i) ==> !Found(p, pat)
    decreases |s| - i
  {
    if i == |s| {
      SliceKeepsNoMatch(s, start, i, pat);
      assert s[start..] == s[start..i];
    } else {
      match sep(s, i)
      case Some(n) =>
        SplitAt(sep, s, start, i, n);
        SpaceNotWord(s[i]);
        SpaceNotWord(s[i + n - 1]);
        SliceKeepsNoMatch(s, start, i, pat);
        SplitPiecesKeepNoMatch(sep, s, i + n, i + n, pat);
      case None =>
        assert SplitFrom(sep, s, start, i) == SplitFrom(sep, s, start, i + 1);
        SplitPiecesKeepNoMatch(sep, s, start, i + 1, pat);
    }
  }

  lemma {:induction false} CleanPiecesLackComma(parts: seq<string>)
    requires forall p :: p in parts ==> Lacks(p, ',')
    ensures forall n :: n in CleanPieces(parts) ==> Lacks(n, ',')
  {
    if parts != [] {
      var p := parts[0];
      assert Lacks(p, ',') by { assert p in parts; }
      var r := Strip(p);
      assert Lacks(r, ',') by {
        forall k | 0 <= k < |r| ensures r[k] != ',' {
          assert r[k] == p[LeadingSpaces(p) + k];
        }
      }
      CleanPiecesLackComma(parts[1..]);
      assert CleanPieces(parts) == (if r == [] then [] else [r]) + CleanPieces(parts[1..]);
    }
  }

  lemma {:induction false} CleanPiecesKeepNoMatch(parts: seq<string>, pat: Pattern)
    requires forall p :: p in parts ==> !Found(p, pat)
    ensures forall n :: n in CleanPieces(parts) ==> !Found(n, pat)
  {
    if parts != [] {
      StripKeepsNoMatch(parts[0], pat);
      CleanPiecesKeepNoMatch(parts[1..], pat);
    }
  }

  /** No place name holds a comma: every comma separates names. */
  lemma SplitPlacesLackComma(text: string)
    ensures forall n :: n in SplitPlaces(text) ==> Lacks(n, ',')
  {
    if !AllSpace(text) {
      ConjunctionShape();
      SplitPiecesLackComma(ConjunctionAt, text, 0, 0);
      CleanPiecesLackComma(SplitFrom(ConjunctionAt, text, 0, 0));
    }
  }

  /** Splitting creates no match of a pattern the text did not contain. */
  lemma SplitPlacesKeepNoMatch(text: string, pat: Pattern)
    requires !Found(text, pat)
    ensures forall n :: n in SplitPlaces(text) ==> !Found(n, pat)
  {
    if !AllSpace(text) {
      ConjunctionShape();
      SplitPiecesKeepNoMatch(ConjunctionAt, text, 0, 0, pat);
      CleanPiecesKeepNoMatch(SplitFrom(ConjunctionAt, text, 0, 0), pat);
    }
  }

  /** The matcher reads the text only from the position it is asked about
      on: a suffix shows the same separators. */
  ghost predicate LooksAhead(sep: Matcher) {
    forall s: string, d: nat, j: nat {:trigger sep(s[d..], j)} :: d <= |s| ==> sep(s, d + j) == sep(s[d..], j)
  }

  lemma {:induction false} SpacesShift(s: string, d: nat, j: nat)
    requires d + j <= |s|
    ensures Spaces(s, d + j) == Spaces(s[d..], j)
    decreases |s| - d - j
  {
    if d + j < |s| {
      assert s[d..][j] == s[d + j];
      SpacesShift(s, d, j + 1);
    }
  }

  lemma KeywordShift(s: string, d: nat, e: nat, w: string)
    requires d <= |s|
    ensures KeywordAt(s, d + e, w) == KeywordAt(s[d..], e, w)
  {
    if d + e + |w| <= |s| {
      assert forall k :: 0 <= k < |w| ==> FoldEq(s[d..][e + k], w[k]) == FoldEq(s[d + e + k], w[k]);
    }
  }

  /** `SpacedKeywordAt` agrees at two places whose surroundings agree:
      the keywords at `e` and `f`, past the leading whitespace, and what follows them. */
  lemma SpacedKeywordTransfer(s: string, i: nat, e: nat, t: string, j: nat, f: nat, w: string)
    requires i < |s| && IsSpace(s[i]) && e == i + Spaces(s, i)
    requires j < |t| && IsSpace(t[j]) && f == j + Spaces(t, j)
    requires KeywordAt(s, e, w) == KeywordAt(t, f, w)
    requires e + |w| < |s| <==> f + |w| < |t|
    requires e + |w| < |s| ==> s[e + |w|] == t[f + |w|]
    requires e + |w| < |s| ==> Spaces(s, e + |w|) - i == Spaces(t, f + |w|) - j + f - e
    ensures SpacedKeywordAt(s, i, w) == SpacedKeywordAt(t, j, w)
  {
    if KeywordAt(s, e, w) && e + |w| < |s| && IsSpace(s[e + |w|]) {
      SpacedKeywordHit(s, i, w, e);
      SpacedKeywordHit(t, j, w, f);
    } else {
      SpacedKeywordFound(s, i, w);
      SpacedKeywordFound(t, j, w);
    }
  }

  lemma SpacedKeywordHit(s: string, i: nat, w: string, e: nat)
    requires i < |s| && IsSpace(s[i]) && e == i + Spaces(s, i)
    requires KeywordAt(s, e, w) && e + |w| < |s| && IsSpace(s[e + |w|])
    ensures SpacedKeywordAt(s, i, w) == Some(e + |w| + Spaces(s, e + |w|) - i)
  {
  }

  lemma SpacedKeywordFound(s: string, i: nat, w: string)
    requires i < |s| && IsSpace(s[i])
    ensures SpacedKeywordAt(s, i, w).Some? ==>
      var e := i + Spaces(s, i); KeywordAt(s, e, w) && e + |w| < |s| && IsSpace(s[e + |w|])
  {
  }

  /** Past the keyword `w` at `d + e`, the text and its suffix from `d` agree
      on the next character and on the whitespace run. */
  lemma AfterShift(s: string, d: nat, e: nat, w: string)
    requires d <= |s|
    ensures d + e + |w| < |s| <==> e + |w| < |s[d..]|
    ensures d + e + |w| < |s| ==>
      s[d + e + |w|] == s[d..][e + |w|] && Spaces(s, d + e + |w|) == Spaces(s[d..], e + |w|)
  {
    if d + e + |w| < |s| {
      assert s[d..][e + |w|] == s[d + e + |w|];
      SpacesShift(s, d, e + |w|);
    }
  }

  /** What `SpacedKeywordTransfer` needs to move from `d + j` in `s` to `j` in
      `s[d..]`, the keyword being looked for at `e`, past the whitespace. */
  lemma SpacedKeywordShiftFacts(s: string, d: nat, j: nat, e: nat, w: string)
    requires d + j < |s| && e == j + Spaces(s[d..], j)
    ensures j < |s[d..]| && s[d..][j] == s[d + j]
    ensures d + e == d + j + Spaces(s, d + j)
    ensures KeywordAt(s, d + e, w) == KeywordAt(s[d..], e, w)
    ensures d + e + |w| < |s| <==> e + |w| < |s[d..]|
    ensures d + e + |w| < |s| ==>
      s[d + e + |w|] == s[d..][e + |w|] && Spaces(s, d + e + |w|) == Spaces(s[d..], e + |w|)
  {
    assert s[d..][j] == s[d + j];
    SpacesShift(s, d, j);
    KeywordShift(s, d, e, w);
    AfterShift(s, d, e, w);
  }

  lemma SpacedKeywordShift(s: string, d: nat, j: nat, w: string)
    requires d + j < |s| && IsSpace(s[d + j])
    ensures s[d..][j] == s[d + j]
    ensures SpacedKeywordAt(s, d + j, w) == SpacedKeywordAt(s[d..], j, w)
  {
    var e := j + Spaces(s[d..], j);
    SpacedKeywordShiftFacts(s, d, j, e, w);
    SpacedKeywordTransfer(s, d + j, d + e, s[d..], j, e, w);
  }

  lemma {:induction false} SpacedKeywordsShift(s: string, d: nat, j: nat, words: seq<string>)
    requires d + j < |s| && IsSpace(s[d + j])
    ensures s[d..][j] == s[d + j]
    ensures SpacedKeywordsAt(s, d + j, words) == SpacedKeywordsAt(s[d..], j, words)
  {
    if words != [] {
      SpacedKeywordShift(s, d, j, words[0]);
      SpacedKeywordsShift(s, d, j, words[1..]);
    }
  }

  lemma ConjunctionShift(s: string, d: nat, j: nat)
    requires d <= |s|
    ensures ConjunctionAt(s, d + j) == ConjunctionAt(s[d..], j)
  {
    if d + j < |s| {
      assert s[d..][j] == s[d + j];
      if IsSpace(s[d + j]) {
        SpacedKeywordsShift(s, d, j, ["and", "or"]);
      } else if s[d + j] == ',' {
        SpacesShift(s, d, j + 1);
      }
    }
  }

  lemma ConjunctionLooksAhead()
    ensures LooksAhead(ConjunctionAt)
  {
    forall s: string, d: nat, j: nat | d <= |s| ensures ConjunctionAt(s, d + j) == ConjunctionAt(s[d..], j) {
      ConjunctionShift(s, d, j);
    }
  }

  lemma LookAt(sep: Matcher, s: string, d: nat, i: nat)
    requires LooksAhead(sep) && d <= i <= |s|
    ensures sep(s, i) == sep(s[d..], i - d)
  {
    assert sep(s, d + (i - d)) == sep(s[d..], i - d);
  }

  /** One step of `SplitShift` past a separator of length `n` at `i`. */
  lemma SplitShiftAt(sep: Matcher, s: string, d: nat, start: nat, i: nat, n: nat)
    requires SeparatorBounds(sep) && d <= start <= i < |s|
    requires sep(s, i) == Some(n) && sep(s[d..], i - d) == Some(n)
    requires SplitFrom(sep, s, i + n, i + n) == SplitFrom(sep, s[d..], i + n - d, i + n - d)
    ensures SplitFrom(sep, s, start, i) == SplitFrom(sep, s[d..], start - d, i - d)
  {
    var t := s[d..];
    assert s[start..i] == t[start - d..i - d];
    assert i + n - d == i - d + n;
  }

  /** One step of `SplitShift` past a position `i` where no separator starts. */
  lemma SplitShiftPast(sep: Matcher, s: string, d: nat, start: nat, i: nat)
    requires SeparatorBounds(sep) && d <= start <= i < |s|
    requires sep(s, i) == None && sep(s[d..], i - d) == None
    requires SplitFrom(sep, s, start, i + 1) == SplitFrom(sep, s[d..], start - d, i + 1 - d)
    ensures SplitFrom(sep, s, start, i) == SplitFrom(sep, s[d..], start - d, i - d)
  {
    assert i + 1 - d == i - d + 1;
  }

  /** `SplitShift` at the end of the text. */
  lemma SplitShiftEnd(sep: Matcher, s: string, d: nat, start: nat)
    requires SeparatorBounds(sep) && d <= start <= |s|
    ensures SplitFrom(sep, s, start, |s|) == SplitFrom(sep, s[d..], start - d, |s| - d)
  {
    assert s[start..] == s[d..][start - d..];
  }

  /** Splitting from `start` on sees only the text from `d` on. */
  lemma {:induction false} SplitShift(sep: Matcher, s: string, d: nat, start: nat, i: nat)
    requires SeparatorBounds(sep) && LooksAhead(sep) && d <= start <= i <= |s|
    ensures SplitFrom(sep, s, start, i) == SplitFrom(sep, s[d..], start - d, i - d)
    decreases |s| - i, 1
  {
    if i == |s| {
      SplitShiftEnd(sep, s, d, start);
    } else {
      LookAt(sep, s, d, i);
      match sep(s, i)
      case Some(n) =>
        SplitShiftSeparator(sep, s, d, start, i, n);
      case None =>
        SplitShiftGap(sep, s, d, start, i);
    }
  }

  lemma {:induction false} SplitShiftSeparator(sep: Matcher, s: string, d: nat, start: nat, i: nat, n: nat)
    requires SeparatorBounds(sep) && LooksAhead(sep) && d <= start <= i < |s|
    requires sep(s, i) == Some(n) && sep(s[d..], i - d) == Some(n)
    ensures SplitFrom(sep, s, start, i) == SplitFrom(sep, s[d..], start - d, i - d)
    decreases |s| - i, 0
  {
    SplitShift(sep, s, d, i + n, i + n);
    SplitShiftAt(sep, s, d, start, i, n);
  }

  lemma {:induction false} SplitShiftGap(sep: Matcher, s: string, d: nat, start: nat, i: nat)
    requires SeparatorBounds(sep) && LooksAhead(sep) && d <= start <= i < |s|
    requires sep(s, i) == None && sep(s[d..], i - d) == None
    ensures SplitFrom(sep, s, start, i) == SplitFrom(sep, s[d..], start - d, i - d)
    decreases |s| - i, 0
  {
    SplitShift(sep, s, d, start, i + 1);
    SplitShiftPast(sep, s, d, start, i);
  }

  /** The pieces of blank text are blank. */
  lemma {:induction false} SplitPiecesBlank(sep: Matcher, s: string, start: nat, i: nat)
    requires SeparatorShape(sep) && start <= i <= |s|
    requires forall k :: start <= k < |s| ==> IsSpace(s[k])
    ensures forall p :: p in SplitFrom(sep, s, start, i) ==> AllSpace(p)
    decreases |s| - i
  {
    if i == |s| {
      assert forall k :: 0 <= k < |s[start..]| ==> s[start..][k] == s[start + k];
    } else {
      match sep(s, i)
      case Some(n) =>
        SplitAt(sep, s, start, i, n);
        assert forall k :: 0 <= k < i - start ==> s[start..i][k] == s[start + k];
        SplitPiecesBlank(sep, s, i + n, i + n);
      case None =>
        SplitPiecesBlank(sep, s, start, i + 1);
    }
  }

  lemma {:induction false} CleanPiecesBlank(parts: seq<string>)
    requires forall p :: p in parts ==> AllSpace(p)
    ensures CleanPieces(parts) == []
  {
    if parts != [] {
      assert parts[0] in parts;
      CleanPiecesBlank(parts[1..]);
    }
  }

  lemma CleanPiecesCons(p: string, parts: seq<string>)
    ensures CleanPieces([p] + parts) == CleanPieces([p]) + CleanPieces(parts)
  {
    assert ([p] + parts)[1..] == parts;
    assert CleanPieces([p][1..]) == [];
  }

  /** Text without a separator is a single name: itself, trimmed. */
  lemma SplitPlacesWhole(text: string)
    requires !AllSpace(text)
    requires forall m :: 0 <= m < |text| ==> ConjunctionAt(text, m).None?
    ensures SplitPlaces(text) == [Strip(text)]
  {
    ConjunctionShape();
    SplitSkip(ConjunctionAt, text, 0, 0, |text|);
    assert text[0..] == text;
  }

  /** The pieces after a separator ending at `e` are the pieces of the text from `e` on. */
  lemma RestPieces(text: string, e: nat)
    requires e <= |text|
    ensures SeparatorBounds(ConjunctionAt)
    ensures SplitFrom(ConjunctionAt, text, e, e) == SplitFrom(ConjunctionAt, text[e..], 0, 0)
  {
    ConjunctionShape();
    ConjunctionLooksAhead();
    SplitShift(ConjunctionAt, text, e, e, e);
  }

  /** One piece, cleaned: nothing when blank, else the piece trimmed. */
  lemma CleanOne(p: string)
    ensures CleanPieces([p]) == if AllSpace(p) then [] else [Strip(p)]
  {
    assert [p][1..] == [];
  }

  /** Blank text is blank on both sides of a separator. */
  lemma BlankAround(text: string, i: nat, e: nat)
    requires AllSpace(text) && i <= e <= |text|
    ensures AllSpace(text[..i]) && AllSpace(text[e..])
  {
    assert forall k :: 0 <= k < i ==> text[..i][k] == text[k];
    assert forall k :: 0 <= k < |text[e..]| ==> text[e..][k] == text[e + k];
  }

  /** The scan meets the first separator at `i` and starts over after it. */
  lemma FirstPiece(text: string, i: nat, n: nat)
    requires ConjunctionAt(text, i) == Some(n)
    requires forall m :: 0 <= m < i ==> ConjunctionAt(text, m).None?
    ensures SeparatorBounds(ConjunctionAt) && i < |text| && i + n <= |text|
    ensures CleanPieces(SplitFrom(ConjunctionAt, text, 0, 0)) ==
      CleanPieces([text[..i]]) + CleanPieces(SplitFrom(ConjunctionAt, text, i + n, i + n))
  {
    ConjunctionShape();
    SplitSkip(ConjunctionAt, text, 0, 0, i);
    SplitAt(ConjunctionAt, text, 0, i, n);
    assert text[0..i] == text[..i];
    CleanPiecesCons(text[..i], SplitFrom(ConjunctionAt, text, i + n, i + n));
  }

  lemma SplitPlacesAround(text: string, i: nat, n: nat)
    requires !AllSpace(text)
    requires ConjunctionAt(text, i) == Some(n)
    requires forall m :: 0 <= m < i ==> ConjunctionAt(text, m).None?
    ensures SeparatorBounds(ConjunctionAt) && i < |text| && i + n <= |text|
    ensures SplitPlaces(text) ==
      CleanPieces([text[..i]]) + CleanPieces(SplitFrom(ConjunctionAt, text[i + n..], 0, 0))
  {
    FirstPiece(text, i, n);
    RestPieces(text, i + n);
    assert SplitPlaces(text) == CleanPieces(SplitFrom(ConjunctionAt, text, 0, 0));
    assert SplitFrom(ConjunctionAt, text, i + n, i + n) == SplitFrom(ConjunctionAt, text[i + n..], 0, 0);
    assert CleanPieces(SplitFrom(ConjunctionAt, text, i + n, i + n)) == CleanPieces(SplitFrom(ConjunctionAt, text[i + n..], 0, 0));
  }

  /** Across the first separator the names are those of the text before it
      (trimmed, if not blank) followed by the names of the text after it. */
  lemma SplitPlacesFirstSeparator(text: string, i: nat, n: nat)
    requires ConjunctionAt(text, i) == Some(n)
    requires forall m :: 0 <= m < i ==> ConjunctionAt(text, m).None?
    ensures i < |text| && i + n <= |text|
    ensures SplitPlaces(text) ==
      (if AllSpace(text[..i]) then [] else [Strip(text[..i])]) + SplitPlaces(text[i + n..])
  {
    var rest := text[i + n..];
    if AllSpace(text) {
      BlankAround(text, i, i + n);
    } else {
      SplitPlacesAround(text, i, n);
      var after := CleanPieces(SplitFrom(ConjunctionAt, rest, 0, 0));
      CleanOne(text[..i]);
      if AllSpace(rest) {
        ConjunctionShape();
        SplitPiecesBlank(ConjunctionAt, rest, 0, 0);
        CleanPiecesBlank(SplitFrom(ConjunctionAt, rest, 0, 0));
        assert after == [] == SplitPlaces(rest);
      } else {
        assert after == SplitPlaces(rest);
      }
    }
  }

  // ---------------------------------------------------------------------------
  // Parsing

  /** The index of the first pattern, from `k` on, that `t` contains. */
  function FirstHit(t: string, k: nat): (r: Option<nat>)
    requires k <= |Patterns|
    ensures r.Some? ==> k <= r.value < |Patterns| && Found(t, Patterns[r.value])
    ensures r.Some? ==> forall j :: k <= j < r.value ==> !Found(t, Patterns[j])
    ensures r.None? ==> forall j :: k <= j < |Patterns| ==> !Found(t, Patterns[j])
    decreases |Patterns| - k
  {
    if k == |Patterns| then None
    else if Found(t, Patterns[k]) then Some(k)
    else FirstHit(t, k + 1)
  }

  /** What `parse` returns for `s`: blank input gives no direction and no
      names; input without a direction word gives its trimmed self as the one
      name; otherwise the direction of the first pattern found and the names
      left once every occurrence of that pattern is removed. */
  function Parsed(s: string): (r: (Option<Direction>, seq<string>))
    ensures AllSpace(s) ==> r == (None, [])
    ensures !AllSpace(s) && r.0.None? ==>
      r.1 == [Strip(s)] && forall k :: 0 <= k < |Patterns| ==> !Found(Strip(s), Patterns[k])
    ensures forall n :: n in r.1 ==> n != [] && IsTrimmed(n)
  {
    if AllSpace(s) then (None, [])
    else
      var location := Strip(s);
      match FirstHit(location, 0)
      case None => (None, [location])
      case Some(k) => (Some(Patterns[k].direction), SplitPlaces(Strip(RemoveAll(location, Patterns[k]))))
  }

  /** `DirectionalParser.parse`: the pattern list is scanned in order and the
      scan stops at the first pattern the trimmed input contains. */
  method Parse(locationString: string) returns (direction: Option<Direction>, names: seq<string>)
    ensures (direction, names) == Parsed(locationString)
  {
    if |locationString| == 0 || AllSpace(locationString) {
      return None, [];
    }
    var location := Strip(locationString);
    direction := None;
    var cleaned := location;
    var k := 0;
    while k < |Patterns|
      invariant 0 <= k <= |Patterns|
      invariant FirstHit(location, k) == FirstHit(location, 0)
      invariant direction.None? && cleaned == location
    {
      var pat := Patterns[k];
      if Found(cleaned, pat) {
        direction := Some(pat.direction);
        cleaned := Strip(RemoveAll(cleaned, pat));
        break;
      }
      k := k + 1;
    }
    if direction.None? {
      return None, [location];
    }
    names := SplitPlaces(cleaned);
  }

  /** The direction of each entry of the pattern list; no two entries share one. */
  lemma PatternDirections()
    ensures Patterns[0].direction == NorthEast && Patterns[1].direction == NorthWest
    ensures Patterns[2].direction == SouthEast && Patterns[3].direction == SouthWest
    ensures Patterns[4].direction == North && Patterns[5].direction == South
    ensures Patterns[6].direction == East && Patterns[7].direction == West
    ensures Patterns[8].direction == Central
    ensures forall i, j :: 0 <= i < j < |Patterns| ==> Patterns[i].direction != Patterns[j].direction
  {
  }

  /** Priority: the direction reported is that of pattern `k` exactly when the
      trimmed input contains pattern `k` and none of the patterns before it. */
  lemma DirectionPriority(s: string, k: nat)
    requires k < |Patterns|
    ensures Parsed(s).0 == Some(Patterns[k].direction) <==>
      !AllSpace(s) && Found(Strip(s), Patterns[k]) && forall j :: 0 <= j < k ==> !Found(Strip(s), Patterns[j])
  {
    PatternDirections();
  }

  /** On the directional path the names hold no comma and no occurrence of the
      direction found; if nothing but whitespace remains once the direction is
      removed, there are no names. */
  lemma DirectionalNames(s: string, k: nat)
    requires k < |Patterns| && Parsed(s).0 == Some(Patterns[k].direction)
    ensures forall n :: n in Parsed(s).1 ==> Lacks(n, ',') && !Found(n, Patterns[k])
    ensures AllSpace(RemoveAll(Strip(s), Patterns[k])) ==> Parsed(s).1 == []
    ensures !AllSpace(s) && Found(Strip(s), Patterns[k])
    ensures Parsed(s).1 == SplitPlaces(Strip(RemoveAll(Strip(s), Patterns[k])))
  {
    DirectionPriority(s, k);
    PatternDirections();
    var location := Strip(s);
    assert FirstHit(location, 0) == Some(k);
    var pat := Patterns[k];
    PatternsWellFormed();
    NoMatchAfterRemoval(location, pat);
    StripKeepsNoMatch(RemoveAll(location, pat), pat);
    var cleaned := Strip(RemoveAll(location, pat));
    SplitPlacesLackComma(cleaned);
    SplitPlacesKeepNoMatch(cleaned, pat);
  }

  // ---------------------------------------------------------------------------
  // Case does not matter

  /** `s` and `t` differ at most in the case of ASCII letters. */
  predicate CaseEq(s: string, t: string) {
    |s| == |t| && forall k :: 0 <= k < |s| ==> LowerChar(s[k]) == LowerChar(t[k])
  }

  lemma CharCase(a: char, b: char, l: char)
    requires LowerChar(a) == LowerChar(b) && 'a' <= l <= 'z'
    ensures IsSpace(a) == IsSpace(b) && IsWordChar(a) == IsWordChar(b) && (a == '-') == (b == '-')
    ensures FoldEq(a, l) == FoldEq(b, l)
  {
    IsSpaceDef(a);
    IsSpaceDef(b);
  }

  lemma MatchesIgnoreCase(s: string, t: string, ph: Phrase, i: nat)
    requires CaseEq(s, t) && WellFormedPhrase(ph)
    ensures MatchesWith(s, ph, i) == MatchesWith(t, ph, i)
  {
    if i + |ph| <= |s| {
      forall k | 0 <= k < |ph| ensures AtomMatches(s[i + k], ph[k]) == AtomMatches(t[i + k], ph[k]) {
        CharCase(s[i + k], t[i + k], if ph[k].Letter? then ph[k].c else 'a');
      }
      if 0 < i {
        CharCase(s[i - 1], t[i - 1], 'a');
      }
      if i + |ph| < |s| {
        CharCase(s[i + |ph|], t[i + |ph|], 'a');
      }
    }
  }

  lemma {:induction false} FirstPhraseIgnoresCase(s: string, t: string, phrases: seq<Phrase>, i: nat, from: nat)
    requires CaseEq(s, t) && from <= |phrases|
    requires forall k :: 0 <= k < |phrases| ==> WellFormedPhrase(phrases[k])
    ensures FirstPhrase(s, phrases, i, from) == FirstPhrase(t, phrases, i, from)
    decreases |phrases| - from
  {
    if from < |phrases| {
      MatchesIgnoreCase(s, t, phrases[from], i);
      FirstPhraseIgnoresCase(s, t, phrases, i, from + 1);
    }
  }

  lemma FoundIgnoresCase(s: string, t: string, pat: Pattern)
    requires CaseEq(s, t) && WellFormed(pat)
    ensures Found(s, pat) == Found(t, pat)
  {
    forall i | 0 <= i < |s| ensures MatchAt(s, pat, i) == MatchAt(t, pat, i) {
      FirstPhraseIgnoresCase(s, t, pat.phrases, i, 0);
    }
  }

  lemma {:induction false} FirstHitIgnoresCase(s: string, t: string, k: nat)
    requires CaseEq(s, t) && k <= |Patterns|
    ensures FirstHit(s, k) == FirstHit(t, k)
    decreases |Patterns| - k
  {
    if k < |Patterns| {
      PatternsWellFormed();
      FoundIgnoresCase(s, t, Patterns[k]);
      FirstHitIgnoresCase(s, t, k + 1);
    }
  }

  /** `s` and `t` have whitespace at the same positions. */
  predicate SpaceEq(s: string, t: string) {
    |s| == |t| && forall k :: 0 <= k < |s| ==> IsSpace(s[k]) == IsSpace(t[k])
  }

  lemma {:induction false} LeadingSpacesAgree(s: string, t: string)
    requires SpaceEq(s, t)
    ensures LeadingSpaces(s) == LeadingSpaces(t)
    decreases |s|
  {
    if |s| > 0 && IsSpace(s[0]) {
      LeadingSpacesAgree(s[1..], t[1..]);
    }
  }

  lemma {:induction false} TrailingStartAgree(s: string, t: string)
    requires SpaceEq(s, t)
    ensures TrailingStart(s) == TrailingStart(t)
    decreases |s|
  {
    if |s| > 0 && IsSpace(s[|s| - 1]) {
      TrailingStartAgree(s[..|s| - 1], t[..|t| - 1]);
    }
  }

  lemma CaseEqSpaceEq(s: string, t: string)
    requires CaseEq(s, t)
    ensures SpaceEq(s, t)
  {
    forall k | 0 <= k < |s| ensures IsSpace(s[k]) == IsSpace(t[k]) {
      CharCase(s[k], t[k], 'a');
    }
  }

  lemma SpaceEqDrop(s: string, t: string, l: nat)
    requires SpaceEq(s, t) && l <= |s|
    ensures SpaceEq(s[l..], t[l..])
  {
    forall k | 0 <= k < |s| - l ensures IsSpace(s[l..][k]) == IsSpace(t[l..][k]) {
      assert s[l..][k] == s[l + k] && t[l..][k] == t[l + k];
    }
  }

  lemma StripIgnoresCase(s: string, t: string)
    requires CaseEq(s, t)
    ensures AllSpace(s) == AllSpace(t)
    ensures CaseEq(Strip(s), Strip(t))
  {
    CaseEqSpaceEq(s, t);
    LeadingSpacesAgree(s, t);
    var l := LeadingSpaces(s);
    SpaceEqDrop(s, t, l);
    TrailingStartAgree(s[l..], t[l..]);
    var m := TrailingStart(s[l..]);
    var a, b := Strip(s), Strip(t);
    assert a == s[l..][..m] && b == t[l..][..m];
    forall k | 0 <= k < m ensures LowerChar(a[k]) == LowerChar(b[k]) {
      assert a[k] == s[l + k] && b[k] == t[l + k];
    }
  }

  /** Matching ignores case: inputs that differ only in the case of their
      letters ("NORTHERN Sindh", "northern sindh") get the same direction. */
  lemma DirectionIgnoresCase(s: string, t: string)
    requires Lower(s) == Lower(t)
    ensures Parsed(s).0 == Parsed(t).0
  {
    assert CaseEq(s, t) by {
      forall k | 0 <= k < |s| ensures LowerChar(s[k]) == LowerChar(t[k]) {
        assert Lower(s)[k] == Lower(t)[k];
      }
    }
    StripIgnoresCase(s, t);
    if !AllSpace(s) {
      FirstHitIgnoresCase(Strip(s), Strip(t), 0);
    }
  }

  // ---------------------------------------------------------------------------
  // The examples of the `parse` documentation

  /** The two letters at `i` can begin a phrase of pattern `k`. */
  predicate CanStart(s: string, i: nat, k: nat) {
    i + 1 < |s| &&
    if k == 0 || k == 1 || k == 4 then FoldEq(s[i], 'n') && FoldEq(s[i + 1], 'o')
    else if k == 2 || k == 3 || k == 5 then FoldEq(s[i], 's') && FoldEq(s[i + 1], 'o')
    else if k == 6 then FoldEq(s[i], 'e') && FoldEq(s[i + 1], 'a')
    else if k == 7 then FoldEq(s[i], 'w') && FoldEq(s[i + 1], 'e')
    else (FoldEq(s[i], 'c') && FoldEq(s[i + 1], 'e')) || (FoldEq(s[i], 'm') && FoldEq(s[i + 1], 'i'))
  }

  lemma CompoundPrefix(d: Direction, a: string, b: string, j: nat)
    requires |a| >= 2 && j < 4
    ensures |Compound(d, a, b).phrases[j]| >= 2
    ensures Compound(d, a, b).phrases[j][0] == Letter(a[0]) && Compound(d, a, b).phrases[j][1] == Letter(a[1])
  {
    var ph := Compound(d, a, b).phrases[j];
    if j == 2 {
      assert ph == Word(a + b + "ern") && (a + b + "ern")[1] == a[1];
    } else if j == 3 {
      assert ph == Word(a + b) && (a + b)[1] == a[1];
    }
  }

  lemma SimplePrefix(d: Direction, w: string, j: nat)
    requires |w| >= 2 && j < 2
    ensures |Simple(d, w).phrases[j]| >= 2
    ensures Simple(d, w).phrases[j][0] == Letter(w[0]) && Simple(d, w).phrases[j][1] == Letter(w[1])
  {
    if j == 0 {
      assert Simple(d, w).phrases[j] == Word(w + "ern") && (w + "ern")[1] == w[1];
    }
  }

  lemma PatternsShape()
    ensures Patterns[0] == Compound(NorthEast, "north", "east") && Patterns[1] == Compound(NorthWest, "north", "west")
    ensures Patterns[2] == Compound(SouthEast, "south", "east") && Patterns[3] == Compound(SouthWest, "south", "west")
    ensures Patterns[4] == Simple(North, "north") && Patterns[5] == Simple(South, "south")
    ensures Patterns[6] == Simple(East, "east") && Patterns[7] == Simple(West, "west")
    ensures Patterns[8] == Pattern(Central, [Word("central"), Word("middle")])
  {
  }

  /** A phrase that begins with the letters `c0`, `c1` matches only at a word
      boundary, on characters that fold to them. */
  lemma PhraseStart(s: string, ph: Phrase, i: nat, c0: char, c1: char)
    requires MatchesWith(s, ph, i) && |ph| >= 2 && ph[0] == Letter(c0) && ph[1] == Letter(c1)
    ensures i + 1 < |s| && BoundaryBefore(s, i) && FoldEq(s[i], c0) && FoldEq(s[i + 1], c1)
  {
    assert AtomMatches(s[i], ph[0]);
    assert AtomMatches(s[i + 1], ph[1]);
  }

  /** A direction phrase starts at a word boundary, on the first two letters
      of its pattern's word. */
  lemma MatchStart(s: string, k: nat, i: nat)
    requires k < |Patterns|
    ensures MatchAt(s, Patterns[k], i).Some? ==> i < |s| && BoundaryBefore(s, i) && CanStart(s, i, k)
  {
    var pat := Patterns[k];
    match FirstPhrase(s, pat.phrases, i, 0)
    case None =>
    case Some(j) =>
      var ph := pat.phrases[j];
      PatternsShape();
      if k < 4 {
        var a := if k < 2 then "north" else "south";
        var b := if k % 2 == 0 then "east" else "west";
        CompoundPrefix(pat.direction, a, b, j);
        PhraseStart(s, ph, i, a[0], a[1]);
      } else if k < 8 {
        var w := if k == 4 then "north" else if k == 5 then "south" else if k == 6 then "east" else "west";
        SimplePrefix(pat.direction, w, j);
        PhraseStart(s, ph, i, w[0], w[1]);
      } else if j == 0 {
        PhraseStart(s, ph, i, 'c', 'e');
      } else {
        PhraseStart(s, ph, i, 'm', 'i');
      }
  }

  /** Pattern `k` matches nowhere from `from` on when no word there starts
      with the letters its phrases begin with. */
  lemma NoMatchFrom(s: string, k: nat, from: nat)
    requires k < |Patterns|
    requires forall i :: from <= i < |s| && BoundaryBefore(s, i) ==> !CanStart(s, i, k)
    ensures forall i :: from <= i < |s| ==> MatchAt(s, Patterns[k], i).None?
  {
    forall i | from <= i < |s| ensures MatchAt(s, Patterns[k], i).None? {
      MatchStart(s, k, i);
    }
  }

  /** No pattern before `k` is found when no word of `s` starts with the
      letters those patterns begin with. */
  lemma NoHitBefore(s: string, k: nat)
    requires k <= |Patterns|
    requires forall j, i :: 0 <= j < k && 0 <= i < |s| && BoundaryBefore(s, i) ==> !CanStart(s, i, j)
    ensures forall j :: 0 <= j < k ==> !Found(s, Patterns[j])
  {
    forall j | 0 <= j < k ensures !Found(s, Patterns[j]) {
      NoMatchFrom(s, j, 0);
    }
  }

  /** Two letters that begin no north, south, east or west word start no
      phrase of the first eight patterns. */
  lemma NotDirectionStart(s: string, i: nat)
    requires i + 1 < |s| ==>
      && !(FoldEq(s[i], 'n') && FoldEq(s[i + 1], 'o')) && !(FoldEq(s[i], 's') && FoldEq(s[i + 1], 'o'))
      && !(FoldEq(s[i], 'e') && FoldEq(s[i + 1], 'a')) && !(FoldEq(s[i], 'w') && FoldEq(s[i + 1], 'e'))
    ensures forall j :: 0 <= j < 8 ==> !CanStart(s, i, j)
  {
  }

  lemma {:induction false} RemoveNothing(m: Matcher, s: string, i: nat)
    requires InText(m) && i <= |s|
    requires forall j :: i <= j < |s| ==> m(s, j).None?
    ensures RemoveFrom(m, s, i) == s[i..]
    decreases |s| - i
  {
    if i < |s| {
      RemoveNothing(m, s, i + 1);
    }
  }

  /** "Islamabad" holds no direction word: (None, ("Islamabad",)). */
  lemma ExampleIslamabad()
    ensures Parsed("Islamabad") == (None, ["Islamabad"])
  {
    var s := "Islamabad";
    LetterNotSpace(s[0]);
    LetterNotSpace(s[|s| - 1]);
    StripTrimmed(s);
    assert forall i :: 0 <= i < |s| && BoundaryBefore(s, i) ==> i == 0;
    NoHitBefore(s, |Patterns|);
  }

  /** The first pattern found is `k` when `t` contains pattern `k` and none
      of the patterns before it. */
  lemma FirstHitIs(t: string, k: nat)
    requires k < |Patterns| && Found(t, Patterns[k])
    requires forall j :: 0 <= j < k ==> !Found(t, Patterns[j])
    ensures FirstHit(t, 0) == Some(k)
  {
  }

  lemma SouthEasternEarlier(s: string)
    requires s == "South-Eastern Punjab"
    ensures forall j :: 0 <= j < 2 ==> !Found(s, Patterns[j])
  {
    assert forall i :: 0 <= i < |s| && BoundaryBefore(s, i) ==> i == 0 || i == 6 || i == 14;
    NoHitBefore(s, 2);
  }

  lemma SouthEasternLeadFor(s: string)
    requires s == "South-Eastern Punjab"
    ensures MatchAt(s, Patterns[2], 0) == Some(13)
  {
    assert MatchesWith(s, Patterns[2].phrases[0], 0);
  }

  lemma SouthEasternHit()
    ensures FirstHit("South-Eastern Punjab", 0) == Some(2)
    ensures MatchAt("South-Eastern Punjab", Patterns[2], 0) == Some(13)
  {
    var s := "South-Eastern Punjab";
    SouthEasternEarlier(s);
    SouthEasternLeadFor(s);
    assert Found(s, Patterns[2]) by { assert MatchAt(s, Patterns[2], 0).Some?; }
    FirstHitIs(s, 2);
  }

  /** Stripping a single leading blank from an otherwise trimmed text. */
  lemma StripOneBlank(rest: string)
    requires |rest| >= 2 && IsSpace(rest[0]) && IsTrimmed(rest[1..])
    ensures Strip(rest) == rest[1..]
  {
    assert LeadingSpaces(rest) == 1 + LeadingSpaces(rest[1..]);
    assert !IsSpace(rest[1..][0]);
    StripTrimmed(rest[1..]);
  }

  /** A trimmed text without whitespace or commas is one name. */
  lemma SingleName(name: string)
    requires |name| > 0 && forall k :: 0 <= k < |name| ==> !IsSpace(name[k]) && name[k] != ','
    ensures SplitPlaces(name) == [name]
  {
    assert !IsSpace(name[0]);
    forall m | 0 <= m < |name| ensures ConjunctionAt(name, m).None? {
    }
    ConjunctionShape();
    SplitSkip(ConjunctionAt, name, 0, 0, |name|);
    StripTrimmed(name);
    assert CleanPieces([name]) == [name];
  }

  lemma ParsedTrimmed(s: string)
    requires s != [] && IsTrimmed(s)
    ensures Parsed(s) == match FirstHit(s, 0)
      case None => (None, [s])
      case Some(k) => (Some(Patterns[k].direction), SplitPlaces(Strip(RemoveAll(s, Patterns[k]))))
  {
    StripTrimmed(s);
  }

  lemma SouthEasternDirection()
    ensures Parsed("South-Eastern Punjab").0 == Some(SouthEast)
    ensures Parsed("South-Eastern Punjab").1 == SplitPlaces(Strip(RemoveAll("South-Eastern Punjab", Patterns[2])))
  {
    var s := "South-Eastern Punjab";
    assert IsTrimmed(s) by { LetterNotSpace(s[0]); LetterNotSpace(s[|s| - 1]); }
    ParsedTrimmed(s);
    SouthEasternHit();
    PatternDirections();
  }

  lemma SouthEasternTail()
    ensures forall i :: 13 <= i < 20 ==> MatchAt("South-Eastern Punjab", Patterns[2], i).None?
  {
    var s := "South-Eastern Punjab";
    assert forall i :: 13 <= i < |s| && BoundaryBefore(s, i) ==> i == 14;
    NoMatchFrom(s, 2, 13);
  }

  lemma SouthEasternRemovedFor(s: string)
    requires s == "South-Eastern Punjab"
    ensures RemoveAll(s, Patterns[2]) == s[13..]
  {
    var m := PatternAt(Patterns[2]);
    PatternInText(Patterns[2]);
    SouthEasternLeadFor(s);
    SouthEasternTail();
    assert m(s, 0) == Some(13);
    assert forall i :: 13 <= i < |s| ==> m(s, i).None?;
    RemoveLeading(m, s, 13);
  }

  lemma SouthEasternRemoved()
    ensures RemoveAll("South-Eastern Punjab", Patterns[2]) == " Punjab"
  {
    var s := "South-Eastern Punjab";
    SouthEasternRemovedFor(s);
    assert s[13..] == " Punjab";
  }

  lemma PunjabName()
    ensures SplitPlaces(Strip(" Punjab")) == ["Punjab"]
  {
    var name := "Punjab";
    assert " Punjab"[1..] == name;
    IsSpaceDef(' ');
    assert IsSpace(" Punjab"[0]);
    assert IsTrimmed(name) by { LetterNotSpace(name[0]); LetterNotSpace(name[|name| - 1]); }
    StripOneBlank(" Punjab");
    SingleName(name);
  }

  /** "South-Eastern Punjab" gives SOUTHEAST, not SOUTH, and ("Punjab",). */
  lemma ExampleSouthEastern()
    ensures Parsed("South-Eastern Punjab") == (Some(SouthEast), ["Punjab"])
  {
    SouthEasternDirection();
    SouthEasternRemoved();
    PunjabName();
  }

  lemma CentralEarlier(s: string)
    requires s == "Central Sindh and Balochistan"
    ensures forall j :: 0 <= j < 8 ==> !Found(s, Patterns[j])
  {
    assert forall i :: 0 <= i < |s| && BoundaryBefore(s, i) ==> i == 0 || i == 8 || i == 14 || i == 18;
    NotDirectionStart(s, 0);
    NotDirectionStart(s, 8);
    NotDirectionStart(s, 14);
    NotDirectionStart(s, 18);
    NoHitBefore(s, 8);
  }

  lemma CentralLeadFor(s: string)
    requires s == "Central Sindh and Balochistan"
    ensures MatchAt(s, Patterns[8], 0) == Some(7)
  {
    PatternsShape();
    assert MatchesWith(s, Patterns[8].phrases[0], 0);
  }

  lemma CentralHit()
    ensures FirstHit("Central Sindh and Balochistan", 0) == Some(8)
    ensures MatchAt("Central Sindh and Balochistan", Patterns[8], 0) == Some(7)
  {
    var s := "Central Sindh and Balochistan";
    CentralEarlier(s);
    CentralLeadFor(s);
    assert Found(s, Patterns[8]) by { assert MatchAt(s, Patterns[8], 0).Some?; }
    FirstHitIs(s, 8);
  }

  lemma CentralDirection()
    ensures Parsed("Central Sindh and Balochistan").0 == Some(Central)
    ensures Parsed("Central Sindh and Balochistan").1 ==
      SplitPlaces(Strip(RemoveAll("Central Sindh and Balochistan", Patterns[8])))
  {
    var s := "Central Sindh and Balochistan";
    assert IsTrimmed(s) by { LetterNotSpace(s[0]); LetterNotSpace(s[|s| - 1]); }
    ParsedTrimmed(s);
    CentralHit();
    PatternDirections();
  }

  lemma CentralTail()
    ensures forall i :: 7 <= i < 29 ==> MatchAt("Central Sindh and Balochistan", Patterns[8], i).None?
  {
    var s := "Central Sindh and Balochistan";
    assert forall i :: 7 <= i < |s| && BoundaryBefore(s, i) ==> i == 8 || i == 14 || i == 18;
    NoMatchFrom(s, 8, 7);
  }

  /** A text whose only match is a leading one loses exactly that prefix. */
  lemma RemoveLeading(m: Matcher, s: string, n: nat)
    requires InText(m) && 0 < n <= |s| && m(s, 0) == Some(n)
    requires forall i :: n <= i < |s| ==> m(s, i).None?
    ensures RemoveFrom(m, s, 0) == s[n..]
  {
    RemoveNothing(m, s, n);
  }

  /** Letters start no separator. */
  lemma NoSeparators(text: string, a: nat, b: nat)
    requires a <= b <= |text|
    requires forall m :: a <= m < b ==> IsAsciiLetter(text[m])
    ensures forall m :: a <= m < b ==> ConjunctionAt(text, m).None?
  {
    forall m | a <= m < b {
      LetterNotSpace(text[m]);
    }
  }

  lemma CentralRemovedFor(s: string)
    requires s == "Central Sindh and Balochistan"
    ensures RemoveAll(s, Patterns[8]) == s[7..]
  {
    var m := PatternAt(Patterns[8]);
    PatternInText(Patterns[8]);
    CentralLeadFor(s);
    CentralTail();
    assert m(s, 0) == Some(7);
    assert forall i :: 7 <= i < |s| ==> m(s, i).None?;
    RemoveLeading(m, s, 7);
  }

  /** A spaced "and" at `i` is the separator there. */
  lemma AndAt(s: string, i: nat, n: nat)
    requires i < |s| && IsSpace(s[i]) && SpacedKeywordAt(s, i, "and") == Some(n)
    ensures ConjunctionAt(s, i) == Some(n)
  {
    assert ["and", "or"][0] == "and";
  }

  /** A single blank at `i` is a run of one whitespace character. */
  lemma OneSpace(s: string, i: nat)
    requires i + 1 < |s| && IsSpace(s[i]) && !IsSpace(s[i + 1])
    ensures Spaces(s, i) == 1
  {
    assert Spaces(s, i + 1) == 0;
  }

  lemma AndKeyword(text: string)
    requires text == "Sindh and Balochistan"
    ensures IsSpace(text[5]) && SpacedKeywordAt(text, 5, "and") == Some(5)
  {
    IsSpaceDef(' ');
    LetterNotSpace(text[6]);
    LetterNotSpace(text[10]);
    OneSpace(text, 5);
    OneSpace(text, 9);
    assert KeywordAt(text, 6, "and");
  }

  /** A text with one separator splits into the two pieces around it. */
  lemma SplitOnce(sep: Matcher, text: string, i: nat, n: nat)
    requires SeparatorShape(sep) && i < |text| && sep(text, i) == Some(n)
    requires forall m :: 0 <= m < i ==> sep(text, m).None?
    requires forall m :: i + n <= m < |text| ==> sep(text, m).None?
    ensures SplitFrom(sep, text, 0, 0) == [text[0..i]] + [text[i + n..]]
  {
    var k := i + n;
    SplitSkip(sep, text, k, k, |text|);
    assert SplitFrom(sep, text, k, |text|) == [text[k..]];
    SplitAt(sep, text, 0, i, n);
    SplitSkip(sep, text, 0, 0, i);
  }

  lemma SindhLetters(text: string)
    requires text == "Sindh and Balochistan"
    ensures forall m :: 0 <= m < 5 ==> IsAsciiLetter(text[m])
    ensures forall m :: 10 <= m < |text| ==> IsAsciiLetter(text[m])
  {
  }

  lemma SindhPieces(text: string)
    requires text == "Sindh and Balochistan"
    ensures SplitFrom(ConjunctionAt, text, 0, 0) == [text[0..5]] + [text[10..]]
  {
    AndKeyword(text);
    AndAt(text, 5, 5);
    SindhLetters(text);
    NoSeparators(text, 0, 5);
    NoSeparators(text, 10, |text|);
    ConjunctionShape();
    SplitOnce(ConjunctionAt, text, 5, 5);
  }

  /** Two non-empty trimmed pieces survive cleaning unchanged. */
  lemma CleanTwo(a: string, b: string)
    requires a != [] && IsTrimmed(a) && b != [] && IsTrimmed(b)
    ensures CleanPieces([a, b]) == [a, b]
  {
    StripTrimmed(a);
    StripTrimmed(b);
    assert [a, b][1..] == [b];
  }

  lemma SindhShape(text: string)
    requires text == "Sindh and Balochistan"
    ensures IsTrimmed(text) && !AllSpace(text)
    ensures text[0..5] == "Sindh" && text[10..] == "Balochistan"
  {
    LetterNotSpace(text[0]); LetterNotSpace(text[|text| - 1]);
  }

  lemma SindhSplit(text: string)
    requires text == "Sindh and Balochistan"
    ensures SplitPlaces(text) == ["Sindh", "Balochistan"]
  {
    SindhShape(text);
    SindhPieces(text);
    LetterNotSpace('S');
    LetterNotSpace('h');
    LetterNotSpace('B');
    LetterNotSpace('n');
    CleanTwo("Sindh", "Balochistan");
    assert [text[0..5]] + [text[10..]] == ["Sindh", "Balochistan"];
  }

  lemma SindhNames(rest: string)
    requires rest == " Sindh and Balochistan"
    ensures SplitPlaces(Strip(rest)) == ["Sindh", "Balochistan"]
  {
    var text := rest[1..];
    assert text == "Sindh and Balochistan";
    SindhShape(text);
    StripOneBlank(rest);
    SindhSplit(text);
  }

  lemma CentralNames(s: string)
    requires s == "Central Sindh and Balochistan"
    ensures SplitPlaces(Strip(RemoveAll(s, Patterns[8]))) == ["Sindh", "Balochistan"]
  {
    CentralRemovedFor(s);
    SindhNames(s[7..]);
  }

  /** "Central Sindh and Balochistan" gives CENTRAL and ("Sindh", "Balochistan"). */
  lemma ExampleCentralSindh()
    ensures Parsed("Central Sindh and Balochistan") == (Some(Central), ["Sindh", "Balochistan"])
  {
    CentralDirection();
    CentralNames("Central Sindh and Balochistan");
  }
}
