/** The request and response records of the geocoding API. */
module Models {
  import opened Wrappers

  /** `GeocodeOptions`, with its defaults. */
  datatype GeocodeOptions = GeocodeOptions(
    preferLowerAdminLevels: bool := true,
    includeConfidenceScores: bool := false)

  /** `GeocodeRequest`: the list of location strings to geocode. */
  datatype GeocodeRequest = GeocodeRequest(locations: seq<string>, options: GeocodeOptions := GeocodeOptions())

  /** Validation of a `GeocodeRequest`: the locations list needs at least one string. */
  function NewGeocodeRequest(locations: seq<string>, options: GeocodeOptions): (r: Option<GeocodeRequest>)
    ensures r.Some? <==> |locations| >= 1
    ensures r.Some? ==> r.value.locations == locations && r.value.options == options
  {
    if |locations| == 0 then None else Some(GeocodeRequest(locations, options))
  }

  /** The four values the `match_method` literal admits. */
  datatype MatchMethod = ExactName | FuzzyName | PointInPolygon | DirectionalIntersection
  {
    function Label(): string {
      match this
      case ExactName => "exact_name"
      case FuzzyName => "fuzzy_name"
      case PointInPolygon => "point_in_polygon"
      case DirectionalIntersection => "directional_intersection"
    }
  }

  /** Validation of a `match_method` string: it is accepted exactly when it is
      one of the four labels, and it is read back as the method it labels. */
  function ParseMatchMethod(s: string): (r: Option<MatchMethod>)
    ensures r.Some? ==> r.value.Label() == s
    ensures r.None? ==> forall m: MatchMethod :: m.Label() != s
  {
    if s == "exact_name" then Some(ExactName)
    else if s == "fuzzy_name" then Some(FuzzyName)
    else if s == "point_in_polygon" then Some(PointInPolygon)
    else if s == "directional_intersection" then Some(DirectionalIntersection)
    else None
  }

  /** Each label is read back as the method it came from. */
  lemma ParseLabel(m: MatchMethod)
    ensures ParseMatchMethod(m.Label()) == Some(m)
  {
  }

  /** `MatchedPlace`; the confidence is absent unless given. */
  datatype MatchedPlace = MatchedPlace(
    id: string,
    name: string,
    hierarchyLevel: int,
    matchMethod: MatchMethod,
    confidence: Option<real> := None)

  /** `GeocodeResult`; the optional fields are absent unless given. */
  datatype GeocodeResult = GeocodeResult(
    input: string,
    matchedPlaces: seq<MatchedPlace>,
    regionsProcessed: Option<seq<string>> := None,
    direction: Option<string> := None,
    error: Option<string> := None)

  /** `GeocodeResponse`; the error list is empty unless given. */
  datatype GeocodeResponse = GeocodeResponse(results: seq<GeocodeResult>, errors: seq<string> := [])

  /** The defaults: lower administrative levels preferred, confidence scores
      left out, and every optional field of a place or a result absent. */
  lemma ModelDefaults(id: string, name: string, level: int, m: MatchMethod, input: string, places: seq<MatchedPlace>)
    ensures GeocodeOptions().preferLowerAdminLevels && !GeocodeOptions().includeConfidenceScores
    ensures MatchedPlace(id, name, level, m).confidence.None?
    ensures var r := GeocodeResult(input, places); r.regionsProcessed.None? && r.direction.None? && r.error.None?
    ensures GeocodeResponse([GeocodeResult(input, places)]).errors == []
  {
  }
}
