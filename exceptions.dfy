/** The messages of the geocoding exceptions. */
module Exceptions {
  import opened Wrappers
  import opened Strings
  import opened Places

  /** `PlaceNotFoundError`: the location, every suggestion passed, and the message. */
  datatype PlaceNotFoundError = PlaceNotFoundError(location: string, suggestions: seq<Row>, message: string)

  /** The names of the suggestions, each looked up as `s['name']`; the first
      missing one raises its `KeyError`. */
  function SuggestionNames(suggestions: seq<Row>): (r: Try<seq<string>>)
    ensures r.Ok? <==> forall k :: 0 <= k < |suggestions| ==> suggestions[k].name.Some?
    ensures r.Ok? ==> |r.value| == |suggestions| && forall k :: 0 <= k < |suggestions| ==> r.value[k] == suggestions[k].name.value
    ensures r.Raised? ==> r.message == KeyErrorText("name")
  {
    if suggestions == [] then Ok([])
    else match Require(suggestions[0].name, "name")
      case Raised(e) => Raised(e)
      case Ok(n) =>
        match SuggestionNames(suggestions[1..])
        case Raised(e) => Raised(e)
        case Ok(ns) => Ok([n] + ns)
  }

  const PlaceNotFoundPrefix := "Place not found: "
  const DidYouMean := ". Did you mean: "

  /** `suggestions[:3]`. */
  function FirstThree(suggestions: seq<Row>): (r: seq<Row>)
    ensures |r| == if |suggestions| < 3 then |suggestions| else 3
    ensures r == suggestions[..|r|]
  {
    if |suggestions| <= 3 then suggestions else suggestions[..3]
  }

  /** `PlaceNotFoundError(location, suggestions)`.  No suggestions (`None` or
      an empty list) give the bare message; otherwise the names of at most
      the first three follow, joined by ", ", and the error keeps all of the
      suggestions. */
  function NewPlaceNotFoundError(location: string, suggestions: Option<seq<Row>>): (r: Try<PlaceNotFoundError>)
    ensures r.Ok? ==> r.value.location == location && r.value.suggestions == suggestions.GetOr([])
    ensures r.Ok? ==>
      && |r.value.message| >= |PlaceNotFoundPrefix| + |location|
      && r.value.message[..|PlaceNotFoundPrefix| + |location|] == PlaceNotFoundPrefix + location
    ensures suggestions.None? || suggestions == Some([]) ==> r.Ok? && r.value.message == PlaceNotFoundPrefix + location
    ensures suggestions.Some? && suggestions.value != [] ==>
      var names := SuggestionNames(FirstThree(suggestions.value));
      && (r.Ok? <==> names.Ok?)
      && (r.Raised? ==> r.message == names.message)
      && (r.Ok? ==> r.value.message == PlaceNotFoundPrefix + location + DidYouMean + Join(", ", names.value) + "?")
  {
    var all := suggestions.GetOr([]);
    var message := PlaceNotFoundPrefix + location;
    if all == [] then Ok(PlaceNotFoundError(location, all, message))
    else
      var shown := FirstThree(all);
      match SuggestionNames(shown)
      case Raised(e) => Raised(e)
      case Ok(names) => Ok(PlaceNotFoundError(location, all, message + DidYouMean + Join(", ", names) + "?"))
  }

  /** Only the first three suggestions reach the message: lists that agree on
      them (and are both non-empty) give the same message. */
  lemma MessageShowsFirstThree(location: string, s: seq<Row>, t: seq<Row>)
    requires |s| >= 3 && |t| >= 3 && s[..3] == t[..3]
    ensures NewPlaceNotFoundError(location, Some(s)).Raised? == NewPlaceNotFoundError(location, Some(t)).Raised?
    ensures NewPlaceNotFoundError(location, Some(s)).Ok? ==>
      NewPlaceNotFoundError(location, Some(s)).value.message == NewPlaceNotFoundError(location, Some(t)).value.message
  {
    assert (if |s| <= 3 then s else s[..3]) == s[..3];
    assert (if |t| <= 3 then t else t[..3]) == t[..3];
  }

  /** With suggestions whose first three all have names, the message is the
      bare message, the "Did you mean" clause with those names joined by
      ", ", and "?".  With one suggestion named n this is
      "Place not found: <location>. Did you mean: n?", and each further name
      adds ", " and the name. */
  lemma MessageWithSuggestions(location: string, s: seq<Row>)
    requires |s| > 0 && forall k :: 0 <= k < |s| && k < 3 ==> s[k].name.Some?
    ensures NewPlaceNotFoundError(location, Some(s)).Ok?
    ensures var names := SuggestionNames(FirstThree(s));
      && names.Ok? && |names.value| == |FirstThree(s)|
      && (forall k :: 0 <= k < |names.value| ==> Some(names.value[k]) == s[k].name)
      && NewPlaceNotFoundError(location, Some(s)).value.message
         == PlaceNotFoundPrefix + location + DidYouMean + Join(", ", names.value) + "?"
  {
    var shown := FirstThree(s);
    assert forall k :: 0 <= k < |shown| ==> shown[k] == s[k];
  }

  /** The message for two named suggestions. */
  lemma MessageTwoNames(location: string, a: Row, b: Row)
    requires a.name.Some? && b.name.Some?
    ensures NewPlaceNotFoundError(location, Some([a, b])) ==
      Ok(PlaceNotFoundError(location, [a, b],
        PlaceNotFoundPrefix + location + DidYouMean + a.name.value + ", " + b.name.value + "?"))
  {
    var names := SuggestionNames([a, b]);
    assert names.Ok? && |names.value| == 2;
    assert names.value == [a.name.value, b.name.value] by {
      assert names.value[0] == a.name.value && names.value[1] == b.name.value;
    }
    assert FirstThree([a, b]) == [a, b];
    assert [a.name.value, b.name.value] == [a.name.value] + [b.name.value];
    JoinSnoc(", ", [a.name.value], b.name.value);
    assert Join(", ", names.value) == a.name.value + ", " + b.name.value;
    var r := NewPlaceNotFoundError(location, Some([a, b]));
    assert r.Ok? && r.value.message == PlaceNotFoundPrefix + location + DidYouMean + (a.name.value + ", " + b.name.value) + "?";
    assert r.value.location == location && r.value.suggestions == [a, b];
    assert PlaceNotFoundPrefix + location + DidYouMean + (a.name.value + ", " + b.name.value) + "?"
      == PlaceNotFoundPrefix + location + DidYouMean + a.name.value + ", " + b.name.value + "?";
  }

  /** `ExternalGeocodingError(location, reason)`. */
  datatype ExternalGeocodingError = ExternalGeocodingError(location: string, reason: string, message: string)

  function NewExternalGeocodingError(location: string, reason: string): (r: ExternalGeocodingError)
    ensures r.location == location && r.reason == reason
    ensures var head := "External geocoding failed for '";
      && |r.message| == |head| + |location| + 3 + |reason|
      && r.message[..|head|] == head
      && r.message[|head|..|head| + |location|] == location
      && r.message[|head| + |location|..|head| + |location| + 3] == "': "
      && r.message[|head| + |location| + 3..] == reason
  {
    ExternalGeocodingError(location, reason, "External geocoding failed for '" + location + "': " + reason)
  }

  /** `DatabaseError(operation, details)`. */
  datatype DatabaseError = DatabaseError(operation: string, details: string, message: string)

  function NewDatabaseError(operation: string, details: string): (r: DatabaseError)
    ensures r.operation == operation && r.details == details
    ensures var head := "Database error during ";
      && |r.message| == |head| + |operation| + 2 + |details|
      && r.message[..|head|] == head
      && r.message[|head|..|head| + |operation|] == operation
      && r.message[|head| + |operation|..|head| + |operation| + 2] == ": "
      && r.message[|head| + |operation| + 2..] == details
  {
    DatabaseError(operation, details, "Database error during " + operation + ": " + details)
  }
}
