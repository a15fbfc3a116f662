/** The rows the places repository hands back and the repository queries the
    geocoding core calls.  The queries themselves (database procedures) are
    outside the model: each is a function parameter. */
module Places {
  import opened Wrappers

  /** A place row as a Python dict.  `None` stands for a key the row lacks
      (for `parent_id`, a lacking key and a null value read the same). */
  datatype Row = Row(
    id: Option<string>,
    name: Option<string>,
    hierarchyLevel: Option<int>,
    parentId: Option<string>,
    similarityScore: Option<real>)

  /** `row[key]` for a key that may be missing: the value, or the `KeyError`. */
  function Require<T>(v: Option<T>, key: string): (r: Try<T>)
    ensures r.Ok? <==> v.Some?
    ensures r.Ok? ==> r.value == v.value
    ensures r.Raised? ==> r.message == KeyErrorText(key)
  {
    match v
    case Some(x) => Ok(x)
    case None => Raised(KeyErrorText(key))
  }

  /** `search_by_fuzzy_name(name, threshold)`: the rows whose similarity to
      `name` reaches `threshold`, each carrying its `similarity_score`. */
  type FuzzySearch = (string, real) -> seq<Row>

  /** `find_by_coordinates(lon, lat)`: the place containing the point, if any. */
  type CoordinateLookup = (real, real) -> Option<Row>

  /** `find_places_in_direction(base_place_ids, direction)`. */
  type DirectionalSearch = (seq<string>, string) -> seq<Row>
}
