/** The geocoding service: each location string is parsed for a direction
    and resolved either along the directional path (base places, the region
    query, aggregation) or along the simple path (name match, else external
    geocoding and a point-in-polygon lookup).  Exceptions become results with
    an error. */
module GeocodingService {
  import opened Wrappers
  import opened Strings
  import opened Ordering
  import opened Places
  import opened Models
  import opened Aggregation
  import NM = NameMatcher
  import EG = ExternalGeocoder
  import DP = DirectionalParser

  /** What the service consults: the repository queries, the matcher's
      settings, and the external geocoder's settings and service. */
  datatype Backend = Backend(
    search: FuzzySearch,
    pointLookup: CoordinateLookup,
    directional: DirectionalSearch,
    matcher: NM.MatcherConfig,
    cacheTtl: int,
    maxCacheSize: int,
    http: EG.HttpOracle)

  const FailurePrefix := "Geocoding failed: "
  const NoExternalMatch := "No match found in database or external geocoding service"
  const NoPlaceNames := "No place names found after parsing direction"

  /** The error for coordinates outside every known place, with both
      coordinates to four decimals. */
  function OutsideMessage(c: EG.Coord): string {
    "Coordinates (" + FormatFixed4(c.lon) + ", " + FormatFixed4(c.lat) + ") not within Pakistan administrative boundaries"
  }

  /** The error for base names none of which matched; it lists all of them. */
  function NoBaseMessage(names: seq<string>): string {
    "Could not match any base places: " + Join(", ", names)
  }

  /** The error for an empty directional region. */
  function EmptyRegionMessage(d: DP.Direction): string {
    "No places found in " + d.Value() + " region"
  }

  /** A result with no places and the given error. */
  function Failure(input: string, message: string): (r: GeocodeResult)
    ensures r.input == input && r.matchedPlaces == [] && r.error == Some(message)
    ensures r.regionsProcessed.None? && r.direction.None?
  {
    GeocodeResult(input, [], error := Some(message))
  }

  // -------------------------------------------------------------------------
  // Rows to places

  /** `MatchedPlace(id=row['id'], name=row['name'],
      hierarchy_level=row['hierarchy_level'], match_method=how,
      confidence=None)`: the first missing key raises. */
  function ToPlace(row: Row, how: MatchMethod): (r: Try<MatchedPlace>)
    ensures r.Ok? <==> row.id.Some? && row.name.Some? && row.hierarchyLevel.Some?
    ensures r.Ok? ==>
      && Some(r.value.id) == row.id && Some(r.value.name) == row.name
      && Some(r.value.hierarchyLevel) == row.hierarchyLevel
      && r.value.matchMethod == how && r.value.confidence.None?
    ensures row.id.None? ==> r == Raised(KeyErrorText("id"))
    ensures row.id.Some? && row.name.None? ==> r == Raised(KeyErrorText("name"))
    ensures row.id.Some? && row.name.Some? && row.hierarchyLevel.None? ==> r == Raised(KeyErrorText("hierarchy_level"))
  {
    match Require(row.id, "id")
    case Raised(e) => Raised(e)
    case Ok(id) =>
      match Require(row.name, "name")
      case Raised(e) => Raised(e)
      case Ok(name) =>
        match Require(row.hierarchyLevel, "hierarchy_level")
        case Raised(e) => Raised(e)
        case Ok(level) => Ok(MatchedPlace(id, name, level, how))
  }

  /** The list comprehension over rows: one place per row, in order, or the
      exception of the first row that cannot be converted. */
  function ToPlaces(rows: seq<Row>, how: MatchMethod): (r: Try<seq<MatchedPlace>>)
    ensures r.Ok? <==> forall i :: 0 <= i < |rows| ==> ToPlace(rows[i], how).Ok?
    ensures r.Ok? ==> |r.value| == |rows| && forall i :: 0 <= i < |rows| ==> r.value[i] == ToPlace(rows[i], how).value
    ensures r.Raised? ==>
      exists i :: (0 <= i < |rows| && ToPlace(rows[i], how).Raised?
        && r.message == ToPlace(rows[i], how).message && forall j :: 0 <= j < i ==> ToPlace(rows[j], how).Ok?)
  {
    if |rows| == 0 then Ok([])
    else
      var prev := ToPlaces(rows[..|rows| - 1], how);
      var last := ToPlace(rows[|rows| - 1], how);
      var r := match prev
        case Raised(e) => Raised(e)
        case Ok(ps) =>
          match last
          case Raised(e) => Raised(e)
          case Ok(p) => Ok(ps + [p]);
      ToPlacesSnoc(rows, how, prev, r);
      r
  }

  /** The step of `ToPlaces`: converting all rows but the last as promised,
      then the last row, converts all rows as promised. */
  lemma ToPlacesSnoc(rows: seq<Row>, how: MatchMethod, prev: Try<seq<MatchedPlace>>, r: Try<seq<MatchedPlace>>)
    requires |rows| > 0
    requires var init := rows[..|rows| - 1];
      && (prev.Ok? <==> forall i :: 0 <= i < |init| ==> ToPlace(init[i], how).Ok?)
      && (prev.Ok? ==> |prev.value| == |init| && forall i :: 0 <= i < |init| ==> prev.value[i] == ToPlace(init[i], how).value)
      && (prev.Raised? ==>
            exists i :: (0 <= i < |init| && ToPlace(init[i], how).Raised?
              && prev.message == ToPlace(init[i], how).message && forall j :: 0 <= j < i ==> ToPlace(init[j], how).Ok?))
    requires r == match prev
      case Raised(e) => Raised(e)
      case Ok(ps) =>
        match ToPlace(rows[|rows| - 1], how)
        case Raised(e) => Raised(e)
        case Ok(p) => Ok(ps + [p])
    ensures r.Ok? <==> forall i :: 0 <= i < |rows| ==> ToPlace(rows[i], how).Ok?
    ensures r.Ok? ==> |r.value| == |rows| && forall i :: 0 <= i < |rows| ==> r.value[i] == ToPlace(rows[i], how).value
    ensures r.Raised? ==>
      exists i :: (0 <= i < |rows| && ToPlace(rows[i], how).Raised?
        && r.message == ToPlace(rows[i], how).message && forall j :: 0 <= j < i ==> ToPlace(rows[j], how).Ok?)
  {
    var init := rows[..|rows| - 1];
    assert forall i :: 0 <= i < |init| ==> init[i] == rows[i];
  }

  // -------------------------------------------------------------------------
  // The simple path

  /** The coordinate the point-in-polygon lookup uses: the first one, unless
      there are several and a context, in which case the candidate closest to
      the centroid of the context. */
  function Selected(coords: seq<EG.Coord>, ctx: seq<EG.Coord>): (c: EG.Coord)
    requires |coords| > 0
    ensures c in coords
    ensures |coords| == 1 || ctx == [] ==> c == coords[0]
    ensures |coords| > 1 && ctx != [] ==>
      forall j :: 0 <= j < |coords| ==>
        EG.SquaredDistance(c, EG.Centroid(ctx)) <= EG.SquaredDistance(coords[j], EG.Centroid(ctx))
  {
    if |coords| > 1 && ctx != [] then EG.DisambiguateByCentroid(coords, ctx).value else coords[0]
  }

  /** The result for the selected coordinate: the containing place with the
      method `point_in_polygon` and no confidence, or the boundary error. */
  function Located(b: Backend, input: string, c: EG.Coord): (r: Try<GeocodeResult>)
    ensures b.pointLookup(c.lon, c.lat).None? ==> r == Ok(Failure(input, OutsideMessage(c)))
    ensures b.pointLookup(c.lon, c.lat).Some? ==>
      var place := ToPlace(b.pointLookup(c.lon, c.lat).value, PointInPolygon);
      && (place.Raised? ==> r == Raised(place.message))
      && (place.Ok? ==> r == Ok(GeocodeResult(input, [place.value])))
  {
    match b.pointLookup(c.lon, c.lat)
    case None => Ok(Failure(input, OutsideMessage(c)))
    case Some(row) =>
      match ToPlace(row, PointInPolygon)
      case Raised(e) => Raised(e)
      case Ok(p) => Ok(GeocodeResult(input, [p]))
  }

  /** The place a matcher hit becomes; its confidence is kept only when the
      options ask for confidence scores. */
  function HitPlace(m: NM.MatchResult, options: GeocodeOptions): (p: MatchedPlace)
    ensures p.id == m.id && p.name == m.name && p.hierarchyLevel == m.hierarchyLevel
    ensures p.matchMethod == m.matchMethod
    ensures p.confidence.Some? <==> options.includeConfidenceScores
    ensures p.confidence.Some? ==> p.confidence.value == m.confidence
  {
    MatchedPlace(m.id, m.name, m.hierarchyLevel, m.matchMethod,
                 if options.includeConfidenceScores then Some(m.confidence) else None)
  }

  /** `_process_simple` on cache `cache` at time `now`: the outcome (or the
      exception) and the cache afterwards. */
  function SimpleStep(b: Backend, cache: seq<EG.CacheItem>, input: string, placeName: string,
                      options: GeocodeOptions, ctx: seq<EG.Coord>, now: int): (r: (Try<GeocodeResult>, seq<EG.CacheItem>))
    ensures NM.Match(b.matcher, b.search, placeName).Raised? ==>
      r == (Raised(NM.Match(b.matcher, b.search, placeName).message), cache)
    ensures var m := NM.Match(b.matcher, b.search, placeName);
      m.Ok? && m.value.Some? ==> r == (Ok(GeocodeResult(input, [HitPlace(m.value.value, options)])), cache)
    ensures var m := NM.Match(b.matcher, b.search, placeName);
      var g := EG.GeocodeStep(cache, b.cacheTtl, b.maxCacheSize, b.http, placeName, "pk", now);
      m.Ok? && m.value.None? ==>
        && r.1 == g.1
        && (g.0 == [] ==> r.0 == Ok(Failure(input, NoExternalMatch)))
        && (g.0 != [] ==> r.0 == Located(b, input, Selected(g.0, ctx)))
  {
    match NM.Match(b.matcher, b.search, placeName)
    case Raised(e) => (Raised(e), cache)
    case Ok(hit) =>
      if hit.Some? then (Ok(GeocodeResult(input, [HitPlace(hit.value, options)])), cache)
      else
        var (coords, cache') := EG.GeocodeStep(cache, b.cacheTtl, b.maxCacheSize, b.http, placeName, "pk", now);
        if coords == [] then (Ok(Failure(input, NoExternalMatch)), cache')
        else (Located(b, input, Selected(coords, ctx)), cache')
  }

  /** On the simple path a result is either one place and no error, or no
      place and an error; it never carries regions or a direction. */
  lemma SimpleShape(b: Backend, cache: seq<EG.CacheItem>, input: string, placeName: string,
                    options: GeocodeOptions, ctx: seq<EG.Coord>, now: int)
    ensures var r := SimpleStep(b, cache, input, placeName, options, ctx, now).0;
      r.Ok? ==>
        && r.value.input == input
        && r.value.regionsProcessed.None? && r.value.direction.None?
        && |r.value.matchedPlaces| <= 1
        && (r.value.matchedPlaces == [] <==> r.value.error.Some?)
  {
  }

  /** Without a context the simple path never consults the centroid: the
      point-in-polygon lookup uses the first coordinate the geocoder returns. */
  lemma NoContextFirstCoordinate(b: Backend, cache: seq<EG.CacheItem>, input: string, placeName: string,
                                 options: GeocodeOptions, now: int)
    requires NM.Match(b.matcher, b.search, placeName) == Ok(None)
    requires EG.GeocodeStep(cache, b.cacheTtl, b.maxCacheSize, b.http, placeName, "pk", now).0 != []
    ensures var coords := EG.GeocodeStep(cache, b.cacheTtl, b.maxCacheSize, b.http, placeName, "pk", now).0;
      SimpleStep(b, cache, input, placeName, options, [], now).0 == Located(b, input, coords[0])
  {
  }

  // -------------------------------------------------------------------------
  // The directional path

  /** The outcome of `match` for each name, in order. */
  function Outcomes(b: Backend, names: seq<string>): (os: seq<Try<Option<NM.MatchResult>>>)
    ensures |os| == |names|
  {
    seq(|names|, i requires 0 <= i < |names| => NM.Match(b.matcher, b.search, names[i]))
  }

  /** The outcome is a match. */
  predicate IsHit(o: Try<Option<NM.MatchResult>>) {
    o.Ok? && o.value.Some?
  }

  /** The loop over the base names: the matches taken in turn, skipping
      names without one, or the exception of the first outcome that raised. */
  function Collect(os: seq<Try<Option<NM.MatchResult>>>): (r: Try<seq<NM.MatchResult>>)
    ensures r.Ok? ==> |r.value| <= |os|
  {
    if |os| == 0 then Ok([])
    else
      match Collect(os[..|os| - 1])
      case Raised(e) => Raised(e)
      case Ok(hits) =>
        match os[|os| - 1]
        case Raised(e) => Raised(e)
        case Ok(m) => if m.Some? then Ok(hits + [m.value]) else Ok(hits)
  }

  /** The positions of the outcomes that are matches, in increasing order. */
  function HitPositions(os: seq<Try<Option<NM.MatchResult>>>): (idx: seq<int>)
    ensures forall j :: 0 <= j < |idx| ==> 0 <= idx[j] < |os| && IsHit(os[idx[j]])
    ensures forall j, k :: 0 <= j < k < |idx| ==> idx[j] < idx[k]
    ensures forall i :: 0 <= i < |os| && IsHit(os[i]) ==> i in idx
  {
    if |os| == 0 then []
    else
      var init := os[..|os| - 1];
      assert forall i :: 0 <= i < |init| ==> init[i] == os[i];
      HitPositions(init) + (if IsHit(os[|os| - 1]) then [|os| - 1] else [])
  }

  /** When no outcome raised, the collected matches are exactly those of the
      names that have one, in the order of the names. */
  lemma {:induction false} CollectInOrder(os: seq<Try<Option<NM.MatchResult>>>)
    requires Collect(os).Ok?
    ensures var hits := Collect(os).value; var idx := HitPositions(os);
      && |hits| == |idx|
      && forall j :: 0 <= j < |hits| ==> hits[j] == os[idx[j]].value.value
  {
    if |os| > 0 {
      CollectInOrder(os[..|os| - 1]);
    }
  }

  /** Collecting raises exactly when some outcome raised, and then with the
      exception of the first one. */
  lemma {:induction false} CollectRaises(os: seq<Try<Option<NM.MatchResult>>>)
    ensures Collect(os).Raised? <==> exists i :: 0 <= i < |os| && os[i].Raised?
    ensures Collect(os).Raised? ==>
      exists i :: (0 <= i < |os| && os[i].Raised? && Collect(os).message == os[i].message
        && forall j :: 0 <= j < i ==> os[j].Ok?)
  {
    if |os| > 0 {
      var init := os[..|os| - 1];
      assert forall i :: 0 <= i < |init| ==> init[i] == os[i];
      CollectRaises(init);
    }
  }

  /** One more outcome that is not an exception extends the collected hits. */
  lemma CollectNext(os: seq<Try<Option<NM.MatchResult>>>, i: nat, hits: seq<NM.MatchResult>)
    requires i < |os| && Collect(os[..i]) == Ok(hits) && os[i].Ok?
    ensures Collect(os[..i + 1]) == Ok(if os[i].value.Some? then hits + [os[i].value.value] else hits)
  {
    assert os[..i + 1][..i] == os[..i];
  }

  /** One more outcome that is an exception ends the loop with it. */
  lemma CollectNextRaises(os: seq<Try<Option<NM.MatchResult>>>, i: nat, hits: seq<NM.MatchResult>)
    requires i < |os| && Collect(os[..i]) == Ok(hits) && os[i].Raised?
    ensures Collect(os) == Raised(os[i].message)
  {
    assert os[..i + 1][..i] == os[..i];
    CollectStops(os, i + 1);
  }

  lemma HitsAppend(hits: seq<NM.MatchResult>, m: NM.MatchResult)
    ensures HitIds(hits + [m]) == HitIds(hits) + [m.id]
    ensures HitNames(hits + [m]) == HitNames(hits) + [m.name]
  {
  }

  /** The base matching of the directional path. */
  function BaseHits(b: Backend, names: seq<string>): Try<seq<NM.MatchResult>> {
    Collect(Outcomes(b, names))
  }

  /** `[UUID(m['id']) for m in hits]` and `[m['name'] for m in hits]`. */
  function HitIds(hits: seq<NM.MatchResult>): (ids: seq<string>)
    ensures |ids| == |hits| && forall i :: 0 <= i < |hits| ==> ids[i] == hits[i].id
  {
    seq(|hits|, i requires 0 <= i < |hits| => hits[i].id)
  }

  function HitNames(hits: seq<NM.MatchResult>): (ns: seq<string>)
    ensures |ns| == |hits| && forall i :: 0 <= i < |hits| ==> ns[i] == hits[i].name
  {
    seq(|hits|, i requires 0 <= i < |hits| => hits[i].name)
  }

  /** The last steps of `_process_directional`, once base places matched:
      the region query, the aggregation and the conversion of the places. */
  function RegionResult(b: Backend, input: string, d: DP.Direction, hits: seq<NM.MatchResult>): (r: Try<GeocodeResult>)
    ensures r.Ok? ==> r.value.input == input
    ensures r.Ok? ==> r.value.regionsProcessed == Some(HitNames(hits)) && r.value.direction == Some(d.Value())
    ensures var region := b.directional(HitIds(hits), d.Value());
      region == [] ==> r == Ok(GeocodeResult(input, [], Some(HitNames(hits)), Some(d.Value()), Some(EmptyRegionMessage(d))))
    ensures var region := b.directional(HitIds(hits), d.Value());
      region != [] && r.Ok? ==>
        && r.value.error.None?
        && |r.value.matchedPlaces| == |region|
        && forall p :: p in r.value.matchedPlaces ==> p.matchMethod == DirectionalIntersection && p.confidence.None?
    ensures var region := b.directional(HitIds(hits), d.Value());
      region != [] ==>
        var agg := Aggregated(region);
        && (agg.Raised? ==> r == Raised(agg.message))
        && (agg.Ok? ==>
              var ps := ToPlaces(agg.value, DirectionalIntersection);
              && (ps.Raised? ==> r == Raised(ps.message))
              && (ps.Ok? ==> r.Ok? && r.value.matchedPlaces == ps.value))
  {
    var region := b.directional(HitIds(hits), d.Value());
    if region == [] then Ok(GeocodeResult(input, [], Some(HitNames(hits)), Some(d.Value()), Some(EmptyRegionMessage(d))))
    else
      match Aggregated(region)
      case Raised(e) => Raised(e)
      case Ok(places) =>
        AggregatePermutes(region);
        assert |places| == |region| by {
          assert |multiset(places)| == |multiset(region)|;
        }
        match ToPlaces(places, DirectionalIntersection)
        case Raised(e) => Raised(e)
        case Ok(ps) => Ok(GeocodeResult(input, ps, Some(HitNames(hits)), Some(d.Value())))
  }

  /** An element of a permutation sits at some position of the original. */
  lemma PositionIn(rows: seq<Row>, places: seq<Row>, i: nat) returns (j: nat)
    requires multiset(places) == multiset(rows) && i < |places|
    ensures j < |rows| && rows[j] == places[i]
  {
    assert places[i] in multiset(rows);
    j :| 0 <= j < |rows| && rows[j] == places[i];
  }

  /** Converting a permutation of some rows fails exactly when one of the
      rows cannot be converted. */
  lemma PermutationRaises(rows: seq<Row>, places: seq<Row>, how: MatchMethod)
    requires multiset(places) == multiset(rows)
    ensures ToPlaces(places, how).Raised? <==> exists j :: 0 <= j < |rows| && ToPlace(rows[j], how).Raised?
  {
    if ToPlaces(places, how).Raised? {
      var i :| 0 <= i < |places| && ToPlace(places[i], how).Raised?;
      var j := PositionIn(rows, places, i);
    } else {
      forall j | 0 <= j < |rows| ensures ToPlace(rows[j], how).Ok? {
        var i := PositionIn(places, rows, j);
      }
    }
  }

  /** Each place converted from a permutation of some rows is one of the
      rows converted. */
  lemma PlacesFromRows(rows: seq<Row>, places: seq<Row>, how: MatchMethod)
    requires multiset(places) == multiset(rows) && ToPlaces(places, how).Ok?
    ensures var ps := ToPlaces(places, how).value;
      forall i :: 0 <= i < |ps| ==> exists j :: 0 <= j < |rows| && ToPlace(rows[j], how) == Ok(ps[i])
  {
    var ps := ToPlaces(places, how).value;
    forall i | 0 <= i < |ps| ensures exists j :: 0 <= j < |rows| && ToPlace(rows[j], how) == Ok(ps[i]) {
      var j := PositionIn(rows, places, i);
    }
  }

  /** Each row of which a permutation was converted gives one of the places. */
  lemma RowsGivePlaces(rows: seq<Row>, places: seq<Row>, how: MatchMethod)
    requires multiset(places) == multiset(rows) && ToPlaces(places, how).Ok?
    ensures var ps := ToPlaces(places, how).value;
      forall j :: 0 <= j < |rows| ==> exists i :: 0 <= i < |ps| && ToPlace(rows[j], how) == Ok(ps[i])
  {
    var ps := ToPlaces(places, how).value;
    forall j | 0 <= j < |rows| ensures exists i :: 0 <= i < |ps| && ToPlace(rows[j], how) == Ok(ps[i]) {
      var i := PositionIn(places, rows, j);
    }
  }

  /** A non-empty region raises exactly when one of its rows lacks `id`,
      `name` or `hierarchy_level`. */
  lemma RegionRaises(b: Backend, input: string, d: DP.Direction, hits: seq<NM.MatchResult>)
    requires b.directional(HitIds(hits), d.Value()) != []
    ensures var region := b.directional(HitIds(hits), d.Value());
      RegionResult(b, input, d, hits).Raised? <==>
        exists j :: 0 <= j < |region| && ToPlace(region[j], DirectionalIntersection).Raised?
  {
    var region := b.directional(HitIds(hits), d.Value());
    if MissingId(region) {
      var j :| 0 <= j < |region| && region[j].id.None?;
      assert ToPlace(region[j], DirectionalIntersection).Raised?;
    } else {
      AggregatePermutes(region);
      PermutationRaises(region, Aggregated(region).value, DirectionalIntersection);
    }
  }

  /** The places of a non-empty region are its rows, each converted with the
      method `directional_intersection`: every place comes from a row and
      every row gives a place. */
  lemma RegionPlacesAreRegionRows(b: Backend, input: string, d: DP.Direction, hits: seq<NM.MatchResult>)
    requires b.directional(HitIds(hits), d.Value()) != []
    ensures var region := b.directional(HitIds(hits), d.Value());
      var r := RegionResult(b, input, d, hits);
      r.Ok? ==>
        && (forall i :: 0 <= i < |r.value.matchedPlaces| ==>
              exists j :: 0 <= j < |region| && ToPlace(region[j], DirectionalIntersection) == Ok(r.value.matchedPlaces[i]))
        && (forall j :: 0 <= j < |region| ==>
              exists i :: 0 <= i < |r.value.matchedPlaces| && ToPlace(region[j], DirectionalIntersection) == Ok(r.value.matchedPlaces[i]))
  {
    var region := b.directional(HitIds(hits), d.Value());
    var r := RegionResult(b, input, d, hits);
    if r.Ok? {
      var places := Aggregated(region).value;
      AggregatePermutes(region);
      assert r.value.matchedPlaces == ToPlaces(places, DirectionalIntersection).value;
      PlacesFromRows(region, places, DirectionalIntersection);
      RowsGivePlaces(region, places, DirectionalIntersection);
    }
  }

  /** `_process_directional`. */
  function DirectionalStep(b: Backend, input: string, d: DP.Direction, names: seq<string>): (r: Try<GeocodeResult>)
    ensures names == [] ==> r == Ok(Failure(input, NoPlaceNames))
    ensures names != [] ==> (BaseHits(b, names).Raised? ==> r == Raised(BaseHits(b, names).message))
    ensures names != [] && BaseHits(b, names) == Ok([]) ==> r == Ok(Failure(input, NoBaseMessage(names)))
    ensures names != [] && BaseHits(b, names).Ok? && BaseHits(b, names).value != [] ==>
      r == RegionResult(b, input, d, BaseHits(b, names).value)
  {
    if names == [] then Ok(Failure(input, NoPlaceNames))
    else
      match BaseHits(b, names)
      case Raised(e) => Raised(e)
      case Ok(hits) =>
        if hits == [] then Ok(Failure(input, NoBaseMessage(names)))
        else RegionResult(b, input, d, hits)
  }

  /** On the directional path a result has either places and no error, or no
      places and an error; the regions and the direction are set whenever
      some base name matched. */
  lemma DirectionalShape(b: Backend, input: string, d: DP.Direction, names: seq<string>)
    ensures var r := DirectionalStep(b, input, d, names);
      r.Ok? ==>
        && r.value.input == input
        && (r.value.matchedPlaces == [] <==> r.value.error.Some?)
        && (r.value.regionsProcessed.Some? <==> r.value.direction.Some?)
        && (r.value.regionsProcessed.Some? ==> r.value.direction == Some(d.Value()))
  {
  }

  // -------------------------------------------------------------------------
  // One location, a batch, and suggestions

  /** The `except` clause of `geocode_location`: an exception becomes a
      result for the input with no places and the exception's text after
      "Geocoding failed: ". */
  function Reported(location: string, outcome: Try<GeocodeResult>): (r: GeocodeResult)
    ensures outcome.Ok? ==> r == outcome.value
    ensures outcome.Raised? ==> r == Failure(location, FailurePrefix + outcome.message)
  {
    match outcome
    case Ok(result) => result
    case Raised(e) => Failure(location, FailurePrefix + e)
  }

  /** `geocode_location` on cache `cache` at time `now`: the result and the
      cache afterwards.  An exception from either path becomes a result with
      no places and an error starting with "Geocoding failed: ". */
  function LocationStep(b: Backend, cache: seq<EG.CacheItem>, location: string, options: GeocodeOptions,
                        ctx: seq<EG.Coord>, now: int): (r: (GeocodeResult, seq<EG.CacheItem>))
    ensures r.0.input == location
    ensures r.0.matchedPlaces == [] <==> r.0.error.Some?
  {
    var (direction, names) := DP.Parsed(location);
    var placeName := if names != [] then names[0] else location;
    if direction.Some? then
      DirectionalShape(b, location, direction.value, names);
      (Reported(location, DirectionalStep(b, location, direction.value, names)), cache)
    else
      SimpleShape(b, cache, location, placeName, options, ctx, now);
      var step := SimpleStep(b, cache, location, placeName, options, ctx, now);
      (Reported(location, step.0), step.1)
  }

  /** How `geocode_location` resolves `location`: with a direction along the
      directional path, leaving the cache alone; otherwise along the simple
      path with the trimmed input (the raw input when it is blank). */
  lemma LocationRouting(b: Backend, cache: seq<EG.CacheItem>, location: string, options: GeocodeOptions,
                        ctx: seq<EG.Coord>, now: int)
    ensures var r := LocationStep(b, cache, location, options, ctx, now);
      var (direction, names) := DP.Parsed(location);
      direction.Some? ==> r == (Reported(location, DirectionalStep(b, location, direction.value, names)), cache)
    ensures var r := LocationStep(b, cache, location, options, ctx, now);
      var placeName := if AllSpace(location) then location else Strip(location);
      var step := SimpleStep(b, cache, location, placeName, options, ctx, now);
      DP.Parsed(location).0.None? ==> r == (Reported(location, step.0), step.1)
  {
  }

  /** One location resolved on a cache: the result and the cache afterwards. */
  type Step = (seq<EG.CacheItem>, string) -> (GeocodeResult, seq<EG.CacheItem>)

  /** The loop of `geocode_batch` for a given step: each location in turn,
      each one seeing the cache the previous ones left. */
  function RunAll(step: Step, cache: seq<EG.CacheItem>, locations: seq<string>): (r: (seq<GeocodeResult>, seq<EG.CacheItem>))
    ensures |r.0| == |locations|
  {
    if |locations| == 0 then ([], cache)
    else
      var previous := RunAll(step, cache, locations[..|locations| - 1]);
      var last := step(previous.1, locations[|locations| - 1]);
      (previous.0 + [last.0], last.1)
  }

  /** The i-th result is the step of the i-th location on the cache the
      first i locations left. */
  lemma {:induction false} RunAllEach(step: Step, cache: seq<EG.CacheItem>, locations: seq<string>, i: nat)
    requires i < |locations|
    ensures RunAll(step, cache, locations).0[i] == step(RunAll(step, cache, locations[..i]).1, locations[i]).0
  {
    var init := locations[..|locations| - 1];
    if i < |locations| - 1 {
      RunAllEach(step, cache, init, i);
      assert init[..i] == locations[..i];
    } else {
      assert init == locations[..i];
    }
  }

  /** `geocode_location(location, options, None)` as a step. */
  function NoContextStep(b: Backend, options: GeocodeOptions, now: int): Step {
    (c, location) => LocationStep(b, c, location, options, [], now)
  }

  /** `geocode_batch`: no locations give no results; otherwise each location
      in turn is resolved with no context. */
  function BatchStep(b: Backend, cache: seq<EG.CacheItem>, locations: seq<string>, options: GeocodeOptions,
                     now: int): (r: (seq<GeocodeResult>, seq<EG.CacheItem>))
  {
    if locations == [] then ([], cache) else RunAll(NoContextStep(b, options, now), cache, locations)
  }

  /** A batch gives exactly one result per location, in order, each for its
      own input and each resolved with no context on the cache the earlier
      locations left. */
  lemma BatchResults(b: Backend, cache: seq<EG.CacheItem>, locations: seq<string>, options: GeocodeOptions, now: int)
    ensures locations == [] ==> BatchStep(b, cache, locations, options, now) == ([], cache)
    ensures |BatchStep(b, cache, locations, options, now).0| == |locations|
    ensures forall i :: 0 <= i < |locations| ==>
      BatchStep(b, cache, locations, options, now).0[i]
        == LocationStep(b, BatchStep(b, cache, locations[..i], options, now).1, locations[i], options, [], now).0
    ensures forall i :: 0 <= i < |locations| ==> BatchStep(b, cache, locations, options, now).0[i].input == locations[i]
  {
    var step := NoContextStep(b, options, now);
    forall i | 0 <= i < |locations|
      ensures BatchStep(b, cache, locations, options, now).0[i]
        == LocationStep(b, BatchStep(b, cache, locations[..i], options, now).1, locations[i], options, [], now).0
    {
      RunAllEach(step, cache, locations, i);
      if i == 0 {
        assert locations[..i] == [];
      }
    }
  }

  /** `suggest_alternatives`: the candidates of a search with threshold 0.5,
      best score first, at most `limit` of them. */
  function SuggestAlternatives(b: Backend, location: string, limit: int := 3): (r: seq<Row>)
    ensures SortedDesc(r, NM.Score)
    ensures multiset(r) <= multiset(b.search(location, 0.5))
    ensures limit >= 0 ==> |r| == if limit < |b.search(location, 0.5)| then limit else |b.search(location, 0.5)|
    ensures forall y, x :: y in multiset(b.search(location, 0.5)) - multiset(r) && x in r ==> NM.Score(y) <= NM.Score(x)
  {
    var candidates := b.search(location, 0.5);
    if candidates == [] then [] else NM.GetClosestSuggestions(candidates, limit)
  }

  // -------------------------------------------------------------------------
  // The service object

  /** Once an outcome raised, the later ones are never looked at. */
  lemma {:induction false} CollectStops(os: seq<Try<Option<NM.MatchResult>>>, n: nat)
    requires n <= |os| && Collect(os[..n]).Raised?
    ensures Collect(os) == Collect(os[..n])
  {
    if n < |os| {
      var init := os[..|os| - 1];
      assert init[..n] == os[..n];
      CollectStops(init, n);
    } else {
      assert os[..n] == os;
    }
  }

  /** The service with its collaborators; only the external geocoder's cache
      changes. */
  class GeocodingService {
    const search: FuzzySearch
    const pointLookup: CoordinateLookup
    const directional: DirectionalSearch
    const matcher: NM.MatcherConfig
    const geocoder: EG.Geocoder

    constructor(search: FuzzySearch, pointLookup: CoordinateLookup, directional: DirectionalSearch,
                matcher: NM.MatcherConfig, geocoder: EG.Geocoder)
      ensures this.search == search && this.pointLookup == pointLookup && this.directional == directional
      ensures this.matcher == matcher && this.geocoder == geocoder
    {
      this.search := search;
      this.pointLookup := pointLookup;
      this.directional := directional;
      this.matcher := matcher;
      this.geocoder := geocoder;
    }

    /** What the service consults, as a value. */
    function Env(): Backend {
      Backend(search, pointLookup, directional, matcher, geocoder.cacheTtl, geocoder.maxCacheSize, geocoder.http)
    }

    ghost predicate Valid()
      reads geocoder
    {
      geocoder.Valid()
    }

    /** `_process_simple`. */
    method ProcessSimple(input: string, placeName: string, options: GeocodeOptions, ctx: seq<EG.Coord>, now: int)
      returns (r: Try<GeocodeResult>)
      requires Valid()
      modifies geocoder
      ensures Valid()
      ensures (r, geocoder.items) == SimpleStep(Env(), old(geocoder.items), input, placeName, options, ctx, now)
    {
      var m := NM.Match(matcher, search, placeName);
      if m.Raised? {
        return Raised(m.message);
      }
      if m.value.Some? {
        return Ok(GeocodeResult(input, [HitPlace(m.value.value, options)]));
      }
      var coords := geocoder.Geocode(placeName, now, "pk");
      if coords == [] {
        return Ok(Failure(input, NoExternalMatch));
      }
      var selected: EG.Coord;
      if |coords| > 1 && ctx != [] {
        selected := EG.DisambiguateByCentroid(coords, ctx).value;
      } else {
        selected := coords[0];
      }
      var place := pointLookup(selected.lon, selected.lat);
      if place.None? {
        return Ok(Failure(input, OutsideMessage(selected)));
      }
      var converted := ToPlace(place.value, PointInPolygon);
      if converted.Raised? {
        return Raised(converted.message);
      }
      return Ok(GeocodeResult(input, [converted.value]));
    }

    /** The first loop of `_process_directional`: the ids and names of the
        base places matched so far. */
    method MatchBaseNames(names: seq<string>) returns (r: Try<(seq<string>, seq<string>)>, ghost hits: seq<NM.MatchResult>)
      ensures r.Raised? <==> BaseHits(Env(), names).Raised?
      ensures r.Raised? ==> r.message == BaseHits(Env(), names).message
      ensures r.Ok? ==> BaseHits(Env(), names) == Ok(hits) && r.value == (HitIds(hits), HitNames(hits))
    {
      ghost var os := Outcomes(Env(), names);
      var ids: seq<string> := [];
      var matched: seq<string> := [];
      hits := [];
      for i := 0 to |names|
        invariant Collect(os[..i]) == Ok(hits)
        invariant ids == HitIds(hits) && matched == HitNames(hits)
      {
        var m := NM.Match(matcher, search, names[i]);
        assert m == os[i];
        if m.Raised? {
          CollectNextRaises(os, i, hits);
          return Raised(m.message), hits;
        }
        CollectNext(os, i, hits);
        if m.value.Some? {
          HitsAppend(hits, m.value.value);
          hits := hits + [m.value.value];
          ids := ids + [m.value.value.id];
          matched := matched + [m.value.value.name];
        }
      }
      assert os[..|names|] == os;
      return Ok((ids, matched)), hits;
    }

    /** `_process_directional`. */
    method ProcessDirectional(input: string, d: DP.Direction, names: seq<string>) returns (r: Try<GeocodeResult>)
      ensures r == DirectionalStep(Env(), input, d, names)
    {
      if names == [] {
        return Ok(Failure(input, NoPlaceNames));
      }
      var base, hits := MatchBaseNames(names);
      if base.Raised? {
        return Raised(base.message);
      }
      var (ids, matched) := base.value;
      if ids == [] {
        return Ok(Failure(input, NoBaseMessage(names)));
      }
      var region := directional(ids, d.Value());
      if region == [] {
        return Ok(GeocodeResult(input, [], Some(matched), Some(d.Value()), Some(EmptyRegionMessage(d))));
      }
      var aggregated := AggregateHierarchy(region);
      if aggregated.Raised? {
        return Raised(aggregated.message);
      }
      var places := ToPlaces(aggregated.value, DirectionalIntersection);
      if places.Raised? {
        return Raised(places.message);
      }
      return Ok(GeocodeResult(input, places.value, Some(matched), Some(d.Value())));
    }

    /** `geocode_location`. */
    method GeocodeLocation(location: string, options: GeocodeOptions, ctx: seq<EG.Coord>, now: int)
      returns (r: GeocodeResult)
      requires Valid()
      modifies geocoder
      ensures Valid()
      ensures (r, geocoder.items) == LocationStep(Env(), old(geocoder.items), location, options, ctx, now)
    {
      var direction, names := DP.Parse(location);
      var outcome: Try<GeocodeResult>;
      if direction.Some? {
        outcome := ProcessDirectional(location, direction.value, names);
      } else {
        outcome := ProcessSimple(location, if names != [] then names[0] else location, options, ctx, now);
      }
      r := Reported(location, outcome);
    }

    /** `geocode_batch`. */
    method GeocodeBatch(locations: seq<string>, options: GeocodeOptions, now: int) returns (results: seq<GeocodeResult>)
      requires Valid()
      modifies geocoder
      ensures Valid()
      ensures (results, geocoder.items) == BatchStep(Env(), old(geocoder.items), locations, options, now)
    {
      if locations == [] {
        return [];
      }
      ghost var start := geocoder.items;
      results := [];
      for i := 0 to |locations|
        invariant Valid()
        invariant (results, geocoder.items) == RunAll(NoContextStep(Env(), options, now), start, locations[..i])
      {
        assert locations[..i + 1][..i] == locations[..i];
        var result := GeocodeLocation(locations[i], options, [], now);
        results := results + [result];
      }
      assert locations[..|locations|] == locations;
    }
  }
}
