/** The name matcher: a location string is resolved against the fuzzy-name
    search of the places repository, and among several candidates one is
    chosen by similarity score and, optionally, by hierarchy level. */
module NameMatcher {
  import opened Wrappers
  import opened Strings
  import opened Ordering
  import opened Places
  import opened Models

  /** The matcher's settings, with the constructor's defaults. */
  datatype MatcherConfig = MatcherConfig(
    threshold: real := 0.85,
    preferLowerLevels: bool := true,
    similarityTolerance: real := 0.05)

  /** What `match` returns for a hit. */
  datatype MatchResult = MatchResult(
    id: string,
    name: string,
    hierarchyLevel: int,
    matchMethod: MatchMethod,
    confidence: real)

  /** `c.get('similarity_score', 0)`: the key used for ranking. */
  function Score(c: Row): real {
    c.similarityScore.GetOr(0.0)
  }

  /** `c.get('hierarchy_level', 0)`: the key used to prefer specific places. */
  function Level(c: Row): real {
    c.hierarchyLevel.GetOr(0) as real
  }

  /** The text of the `ValueError` that `max` raises on an empty sequence. */
  const EmptyMaxMessage := "max() iterable argument is empty"

  /** `max(c.get('similarity_score', 0) for c in candidates)`. */
  function BestScore(cs: seq<Row>): (best: real)
    requires |cs| > 0
    ensures forall j :: 0 <= j < |cs| ==> Score(cs[j]) <= best
    ensures exists j :: 0 <= j < |cs| && Score(cs[j]) == best
  {
    Score(cs[ArgMaxIndex(cs, Score)])
  }

  /** The filter of the preferring rule: the score lies within the tolerance
      of the best score. */
  function WithinTolerance(cfg: MatcherConfig, best: real): Row -> bool {
    c => best - Score(c) <= cfg.similarityTolerance
  }

  /** Every candidate is accepted. */
  function AnyRow(): Row -> bool {
    c => true
  }

  /** `_select_best_candidate`.  A single candidate is returned as it is.
      Otherwise, without the preference for lower levels, the result is the
      first candidate of greatest score.  With it, the result is the first
      candidate of greatest hierarchy level among those whose score lies
      within the tolerance of the best; a negative tolerance leaves no such
      candidate, and `max` raises. */
  function SelectBestCandidate(cfg: MatcherConfig, cs: seq<Row>): (r: Try<Row>)
    requires |cs| > 0
    ensures |cs| == 1 ==> r == Ok(cs[0])
    ensures r.Ok? ==> r.value in cs
    ensures |cs| > 1 && !cfg.preferLowerLevels ==>
      r.Ok? && exists k :: FirstBest(cs, AnyRow(), Score, k) && r.value == cs[k]
    ensures |cs| > 1 && cfg.preferLowerLevels ==>
      && (r.Ok? <==> cfg.similarityTolerance >= 0.0)
      && (r.Ok? ==> exists k :: FirstBest(cs, WithinTolerance(cfg, BestScore(cs)), Level, k) && r.value == cs[k])
      && (r.Raised? ==> r.message == EmptyMaxMessage)
  {
    if |cs| == 1 then Ok(cs[0])
    else if !cfg.preferLowerLevels then
      var k := ArgMaxIndex(cs, Score);
      assert FirstBest(cs, AnyRow(), Score, k);
      Ok(cs[k])
    else
      var p := WithinTolerance(cfg, BestScore(cs));
      var top := Filter(cs, p);
      if top == [] then
        assert cfg.similarityTolerance < 0.0 by {
          var j :| 0 <= j < |cs| && Score(cs[j]) == BestScore(cs);
          assert !p(cs[j]);
        }
        Raised(EmptyMaxMessage)
      else
        assert cfg.similarityTolerance >= 0.0 by {
          assert p(top[0]) && top[0] in cs;
        }
        MaxOfFilter(cs, p, Level);
        Ok(top[ArgMaxIndex(top, Level)])
  }

  /** `match`: blank input gives no match without a query; otherwise the
      stripped input is searched with the configured threshold, no candidate
      gives no match, and the selected candidate is returned with its score as
      the confidence (a missing score reads as 1.0 here) and the method
      `exact_name` exactly when that score is at least 0.99.  A failing
      selection, or a selected row lacking `id`, `name` or `hierarchy_level`,
      raises. */
  function Match(cfg: MatcherConfig, search: FuzzySearch, location: string): (r: Try<Option<MatchResult>>)
    ensures AllSpace(location) ==> r == Ok(None)
    ensures !AllSpace(location) && search(Strip(location), cfg.threshold) == [] ==> r == Ok(None)
    ensures !AllSpace(location) && search(Strip(location), cfg.threshold) != [] ==>
      var sel := SelectBestCandidate(cfg, search(Strip(location), cfg.threshold));
      && (sel.Raised? ==> r == Raised(sel.message))
      && (sel.Ok? && sel.value.id.None? ==> r == Raised(KeyErrorText("id")))
      && (sel.Ok? && sel.value.id.Some? && sel.value.name.None? ==> r == Raised(KeyErrorText("name")))
      && (sel.Ok? && sel.value.id.Some? && sel.value.name.Some? && sel.value.hierarchyLevel.None? ==>
            r == Raised(KeyErrorText("hierarchy_level")))
      && (sel.Ok? && sel.value.id.Some? && sel.value.name.Some? && sel.value.hierarchyLevel.Some? ==>
            r.Ok? && r.value.Some?)
      && (r.Ok? ==>
            && r.value.Some? && sel.Ok?
            && Some(r.value.value.id) == sel.value.id
            && Some(r.value.value.name) == sel.value.name
            && Some(r.value.value.hierarchyLevel) == sel.value.hierarchyLevel
            && r.value.value.confidence == sel.value.similarityScore.GetOr(1.0))
    ensures r.Ok? && r.value.Some? ==>
      && (r.value.value.matchMethod == ExactName || r.value.value.matchMethod == FuzzyName)
      && (r.value.value.matchMethod == ExactName <==> r.value.value.confidence >= 0.99)
  {
    if AllSpace(location) then Ok(None)
    else
      var candidates := search(Strip(location), cfg.threshold);
      if candidates == [] then Ok(None)
      else
        match SelectBestCandidate(cfg, candidates)
        case Raised(e) => Raised(e)
        case Ok(best) =>
          var similarity := best.similarityScore.GetOr(1.0);
          var how := if similarity >= 0.99 then ExactName else FuzzyName;
          match Require(best.id, "id")
          case Raised(e) => Raised(e)
          case Ok(id) =>
            match Require(best.name, "name")
            case Raised(e) => Raised(e)
            case Ok(name) =>
              match Require(best.hierarchyLevel, "hierarchy_level")
              case Raised(e) => Raised(e)
              case Ok(level) => Ok(Some(MatchResult(id, name, level, how, similarity)))
  }

  /** `get_closest_suggestions`: the candidates sorted by descending score
      (stably), cut to `limit`. */
  function GetClosestSuggestions(cs: seq<Row>, limit: int := 3): (r: seq<Row>)
    ensures SortedDesc(r, Score)
    ensures multiset(r) <= multiset(cs)
    ensures limit >= 0 ==> |r| == if limit < |cs| then limit else |cs|
    ensures forall y, x :: y in multiset(cs) - multiset(r) && x in r ==> Score(y) <= Score(x)
  {
    TopOfSorted(cs, Score, limit);
    SliceTo(SortDesc(cs, Score), limit)
  }

  /** The results dict `match_multiple` builds for `locations`, or the first
      exception a `match` call raises. */
  function MatchAll(cfg: MatcherConfig, search: FuzzySearch, locations: seq<string>): Try<map<string, Option<MatchResult>>>
  {
    if |locations| == 0 then Ok(map[])
    else
      var last := locations[|locations| - 1];
      match MatchAll(cfg, search, locations[..|locations| - 1])
      case Raised(e) => Raised(e)
      case Ok(m) =>
        match Match(cfg, search, last)
        case Raised(e) => Raised(e)
        case Ok(v) => Ok(m[last := v])
  }

  /** `match_multiple`: every location is matched in turn and its result
      recorded under it; an exception from `match` propagates. */
  method MatchMultiple(cfg: MatcherConfig, search: FuzzySearch, locations: seq<string>)
    returns (r: Try<map<string, Option<MatchResult>>>)
    ensures r == MatchAll(cfg, search, locations)
  {
    var results: map<string, Option<MatchResult>> := map[];
    for i := 0 to |locations|
      invariant MatchAll(cfg, search, locations[..i]) == Ok(results)
    {
      assert locations[..i + 1][..i] == locations[..i];
      var m := Match(cfg, search, locations[i]);
      if m.Raised? {
        MatchAllStops(cfg, search, locations, i + 1);
        return Raised(m.message);
      }
      results := results[locations[i] := m.value];
    }
    assert locations[..|locations|] == locations;
    return Ok(results);
  }

  /** Once a prefix of the locations raises, the rest is never matched. */
  lemma {:induction false} MatchAllStops(cfg: MatcherConfig, search: FuzzySearch, locations: seq<string>, n: nat)
    requires n <= |locations| && MatchAll(cfg, search, locations[..n]).Raised?
    ensures MatchAll(cfg, search, locations) == MatchAll(cfg, search, locations[..n])
  {
    if n < |locations| {
      var init := locations[..|locations| - 1];
      assert init[..n] == locations[..n];
      MatchAllStops(cfg, search, init, n);
    } else {
      assert locations[..n] == locations;
    }
  }

  /** When every location matches without raising, the results dict has
      exactly the locations as keys, each mapped to its own match. */
  lemma {:induction false} MatchAllKeys(cfg: MatcherConfig, search: FuzzySearch, locations: seq<string>)
    requires forall i :: 0 <= i < |locations| ==> Match(cfg, search, locations[i]).Ok?
    ensures MatchAll(cfg, search, locations).Ok?
    ensures var m := MatchAll(cfg, search, locations).value;
      && (forall l :: l in m <==> l in locations)
      && (forall l :: l in m ==> m[l] == Match(cfg, search, l).value)
  {
    if |locations| > 0 {
      var init := locations[..|locations| - 1];
      assert forall i :: 0 <= i < |init| ==> init[i] == locations[i];
      MatchAllKeys(cfg, search, init);
      assert locations == init + [locations[|locations| - 1]];
    }
  }

  /** When some location raises, `match_multiple` raises the exception of the
      first such location. */
  lemma {:induction false} MatchAllRaises(cfg: MatcherConfig, search: FuzzySearch, locations: seq<string>, k: nat)
    requires k < |locations| && Match(cfg, search, locations[k]).Raised?
    requires forall i :: 0 <= i < k ==> Match(cfg, search, locations[i]).Ok?
    ensures MatchAll(cfg, search, locations) == Raised(Match(cfg, search, locations[k]).message)
  {
    var init := locations[..|locations| - 1];
    if k == |locations| - 1 {
      MatchAllKeys(cfg, search, init);
    } else {
      MatchAllRaises(cfg, search, init, k);
    }
  }
}
