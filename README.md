# Geocoding engine and scraper link logic, modelled in Dafny

This project models two parts of a Pakistani disaster-advisory backend.

**The geocoding microservice.** It turns free-text location strings ("Central Sindh and
Balochistan", "Islamabad") into administrative places. The model covers:

- the directional parser: nine compound-first regular expressions, removal of the direction word, and splitting on "and", "or" and commas;
- the name matcher: fuzzy candidates from the places store, and best-candidate selection with a tolerance and a preference for specific levels;
- the external geocoder: its time-to-live cache with size-bounded eviction, response decoding, and centroid disambiguation;
- the orchestration service: the simple path, the directional path, `_aggregate_hierarchy`, single and batch geocoding, and suggestions;
- the pydantic models and the custom exceptions.

**The document scrapers.** The model covers:

- the rewriting of NDMA "secure-viewer" links into direct links;
- how a scraped link yields an entry's `filename` and `filetype`;
- `filter_new`, which asks the database which file names it does not yet hold;
- `run`, which lets an exception of the parse step escape and otherwise returns the count of rows upserted.

The model follows the code's structure:

- The objects that keep state become classes:
  - `ExternalGeocoder.Geocoder`, whose cache dict is an insertion-ordered sequence of entries with distinct keys;
  - `GeocodingService.GeocodingService`.
- The parser, the matcher, the aggregation and the scraper functions are functions over values.
- Every loop in the source is a method, proved equal to a specification function. The lemmas state the source's promises about that function.

Outside collaborators become function-valued parameters or constant fields:

- the Supabase places repository (fuzzy search, point-in-polygon lookup, directional search);
- the HTTP geocoding API;
- the documents table and its `filter_new_documents` procedure.

The current time is a parameter.

Python's `urllib.parse` is written out in `urls.dfy`, in the parts the scrapers use:

- `urlsplit`;
- `parse_qsl`;
- `unquote`, with UTF-8 decoding in `'replace'` mode;
- the inverse `quote(s, safe='')`, which the round-trip lemma needs.

A missing dictionary key raises `KeyError` in the source. The model carries this as a
`Try` value whose message is Python's `str(KeyError(k))`.

Some behaviour of the code that the model keeps:

- After removing the direction word, `parse` splits what remains on "and", "or" and commas.
- The best candidate is the one of highest `hierarchy_level` among those within the similarity tolerance of the best score. Exact and fuzzy matches are not ranked apart, and level 2 gets no special preference.
- `_aggregate_hierarchy` only regroups the places by parent. It never replaces a complete group by its parent.
- A row without `id`, `name` or `hierarchy_level` raises `KeyError`. `geocode_location` turns that into a result with the error "Geocoding failed: ...", so such rows are never skipped.
- `geocode_batch` passes no disambiguation context to any location.
- The service never reads `GeocodeOptions.prefer_lower_admin_levels`. The matcher's own flag decides.

## Model

| member | source | states |
|---|---|---|
| DirectionalParser.ToSqlValue | Backend/geocoding/services/directional_parser.py:6-21 | the SQL value is the enum value, and no two directions share one |
| DirectionalParser.PatternDirections | Backend/geocoding/services/directional_parser.py:36-46 | the pattern list holds the compound directions first, then the simple ones, then central; each direction occurs once |
| DirectionalParser.MatchAtMeaning | Backend/geocoding/services/directional_parser.py:37-45 | a direction pattern matches at a position exactly when one of its alternatives (with `\b` on both sides) matches there, with that alternative's length |
| DirectionalParser.NoMatchAfterRemoval | Backend/geocoding/services/directional_parser.py:85 | after `pattern.sub('', s)` the pattern matches nowhere in the result |
| DirectionalParser.ConjunctionAt | Backend/geocoding/services/directional_parser.py:49 | a separator starts and ends with whitespace or a comma, and every comma is a separator |
| DirectionalParser.SplitPlaces | Backend/geocoding/services/directional_parser.py:97-116 | blank text gives no names; every name is non-empty and stripped |
| DirectionalParser.SplitPlacesWhole | Backend/geocoding/services/directional_parser.py:97-116 | text that is not blank and holds no separator gives one name, the text stripped |
| DirectionalParser.SplitPlacesFirstSeparator | Backend/geocoding/services/directional_parser.py:97-116 | at the first separator, the names are the text before it (stripped, none when blank) followed by the names of the text after it |
| DirectionalParser.SplitPlacesLackComma | Backend/geocoding/services/directional_parser.py:113-116 | no name holds a comma |
| DirectionalParser.SplitPlacesKeepNoMatch | Backend/geocoding/services/directional_parser.py:113-116 | splitting creates no occurrence of a direction the text did not hold |
| DirectionalParser.Parsed | Backend/geocoding/services/directional_parser.py:52-95 | blank input gives (None, ()); input without a direction gives its stripped self as the only name, and no pattern matches it; all names are non-empty and stripped |
| DirectionalParser.Parse | Backend/geocoding/services/directional_parser.py:71-95 | the loop over the pattern list with its early `break` computes `Parsed` |
| DirectionalParser.DirectionPriority | Backend/geocoding/services/directional_parser.py:80-86 | the direction reported is pattern k's exactly when the stripped input matches pattern k and none before it |
| DirectionalParser.DirectionalNames | Backend/geocoding/services/directional_parser.py:80-95 | when pattern k gave the direction, the stripped input matches pattern k, the names are exactly the split of the stripped input with every match of pattern k removed, and they hold no comma and no occurrence of the direction |
| DirectionalParser.RemovalKeepsUnmatched | Backend/geocoding/services/directional_parser.py:85 | `pattern.sub('', s)` is the characters at the kept positions, in order; no match starts at a kept position, and every dropped position lies inside a match |
| DirectionalParser.DirectionIgnoresCase | Backend/geocoding/services/directional_parser.py:37-45 | inputs equal up to letter case get the same direction |
| DirectionalParser.ExampleIslamabad | Backend/geocoding/services/directional_parser.py:69 | "Islamabad" gives (None, ("Islamabad",)) |
| DirectionalParser.ExampleSouthEastern | Backend/geocoding/services/directional_parser.py:35-39 | "South-Eastern Punjab" gives SOUTHEAST (the compound wins over SOUTH) and ("Punjab",) |
| DirectionalParser.ExampleCentralSindh | Backend/geocoding/services/directional_parser.py:67 | "Central Sindh and Balochistan" gives CENTRAL and ("Sindh", "Balochistan") |
| Models.NewGeocodeRequest | Backend/geocoding/models.py:10-13 | a request exists exactly when it has at least one location, and it keeps its fields |
| Models.ParseMatchMethod | Backend/geocoding/models.py:19-20 | a match-method literal parses to the method with that label, and nothing else parses |
| Models.ParseLabel | Backend/geocoding/models.py:19-20 | every method's label parses back to it |
| Models.ModelDefaults | Backend/geocoding/models.py:5-32 | the field defaults: prefer lower levels, no confidence scores, no confidence, no regions, no direction, no error, no response errors |
| Exceptions.SuggestionNames | Backend/geocoding/exceptions.py:21 | the names of the suggestions in order, or `KeyError('name')` when one lacks a name |
| Exceptions.NewPlaceNotFoundError | Backend/geocoding/exceptions.py:16-22 | keeps the location and the suggestions (none read as []); without suggestions the message is "Place not found: " and the location; with suggestions it raises exactly when one of the first three lacks a name, and otherwise the message adds ". Did you mean: ", their names joined by ", ", and "?" |
| Exceptions.MessageShowsFirstThree | Backend/geocoding/exceptions.py:21 | only the first three suggestions affect the message |
| Exceptions.MessageWithSuggestions | Backend/geocoding/exceptions.py:19-21 | with suggestions whose first three have names, construction succeeds, the names listed are those of the first three suggestions in order, and the message is the bare message, then ". Did you mean: " and those names joined by ", ", then "?" |
| Exceptions.MessageTwoNames | Backend/geocoding/exceptions.py:19-21 | two named suggestions a and b give the message "Place not found: <location>. Did you mean: a, b?" |
| Exceptions.NewExternalGeocodingError | Backend/geocoding/exceptions.py:33-36 | keeps location and reason; the message quotes the location and ends with the reason |
| Exceptions.NewDatabaseError | Backend/geocoding/exceptions.py:42-45 | keeps operation and details; the message names the operation and ends with the details |
| Places.Require | Backend/geocoding/services/geocoding_service.py:156-158 | reading a row key gives its value, or `KeyError` with the key's name when it is missing |
| NameMatcher.BestScore | Backend/geocoding/services/name_matcher.py:140 | the greatest similarity score, read as 0 when absent, and it is attained |
| NameMatcher.SelectBestCandidate | Backend/geocoding/services/name_matcher.py:131-149 | one candidate is returned as is; without the level preference, the first candidate of greatest score; with it, the first candidate of greatest level among those within the tolerance of the best score, and `max` raises exactly when the tolerance is negative |
| NameMatcher.Match | Backend/geocoding/services/name_matcher.py:55-86 | blank input and no candidates give None; otherwise a raising selection propagates, a selected candidate lacking id, name or level raises `KeyError` for the first missing key, and one with all three gives its id, name and level, its score (1.0 when absent) as confidence, and "exact_name" exactly when that is at least 0.99 |
| NameMatcher.GetClosestSuggestions | Backend/geocoding/services/name_matcher.py:166-171 | sorted by descending score, a sub-multiset of the candidates of length min(limit, count), and no left-out candidate scores above a kept one |
| NameMatcher.MatchMultiple | Backend/geocoding/services/name_matcher.py:104-107 | the loop computes `MatchAll` |
| NameMatcher.MatchAllKeys | Backend/geocoding/services/name_matcher.py:104-107 | when no match raises, the dict has exactly the locations as keys, each mapped to its match |
| NameMatcher.MatchAllRaises | Backend/geocoding/services/name_matcher.py:104-107 | the first location whose match raises decides the exception |
| NameMatcher.MatchAllStops | Backend/geocoding/services/name_matcher.py:104-107 | once a prefix of the locations raises, the later ones change nothing |
| ExternalGeocoder.Centroid | Backend/geocoding/services/external_geocoder.py:191-192 | the centroid times the number of context points is the sum of their coordinates |
| ExternalGeocoder.DisambiguateByCentroid | Backend/geocoding/services/external_geocoder.py:184-199 | no candidates raise "No candidates to disambiguate"; one candidate or no context gives the first; otherwise the first candidate of least squared distance to the centroid |
| ExternalGeocoder.DisambiguateExample | Backend/geocoding/services/external_geocoder.py:184-199 | candidates (0,0) and (10,10) with context (1,1) give (0,0) |
| ExternalGeocoder.ExtractCoords | Backend/geocoding/services/external_geocoder.py:115 | decoding fails exactly when a record has both fields and `float` rejects one; otherwise the coordinates are those of exactly the records that have both fields, in order |
| ExternalGeocoder.CacheKeyIgnoresCase | Backend/geocoding/services/external_geocoder.py:40-44 | for one country, two locations share a cache key exactly when they are equal once lower-cased |
| ExternalGeocoder.Find | Backend/geocoding/services/external_geocoder.py:85-86 | the position of the entry with the key, or none when no entry has it |
| ExternalGeocoder.Store | Backend/geocoding/services/external_geocoder.py:118 | keys stay distinct, the new entry is present, other keys' entries are kept, nothing else is added, and the size grows only for a new key |
| ExternalGeocoder.Unexpired | Backend/geocoding/services/external_geocoder.py:51-54 | only fresh entries remain, taken from the cache |
| ExternalGeocoder.FreshKept | Backend/geocoding/services/external_geocoder.py:51-54 | every fresh entry remains |
| ExternalGeocoder.ExpiredKeysAbsent | Backend/geocoding/services/external_geocoder.py:51-54 | only keys present in the cache are listed as expired |
| ExternalGeocoder.DeleteExpired | Backend/geocoding/services/external_geocoder.py:51-56 | with distinct keys, deleting the expired keys leaves exactly the fresh entries |
| ExternalGeocoder.EvictedFresh | Backend/geocoding/services/external_geocoder.py:46-66 | no expired entry survives eviction |
| ExternalGeocoder.EvictedSub | Backend/geocoding/services/external_geocoder.py:46-66 | survivors are entries the cache held, and keys stay distinct |
| ExternalGeocoder.EvictedNewest | Backend/geocoding/services/external_geocoder.py:59-66 | at most `max_cache_size` entries remain; all fresh entries remain when they fit; a dropped fresh entry is no newer than any survivor |
| ExternalGeocoder.NewestSurvives | Backend/geocoding/services/external_geocoder.py:59-66 | the entry just stored survives eviction when it is strictly newest, the time to live is positive and the size is at least 1 |
| ExternalGeocoder.CacheHit | Backend/geocoding/services/external_geocoder.py:84-89 | a fresh entry is returned, the cache is unchanged, and the service is not consulted |
| ExternalGeocoder.FailureStoresNothing | Backend/geocoding/services/external_geocoder.py:107-112 | status errors, transport errors, undecodable or empty bodies and rejected records give [] and leave the cache alone |
| ExternalGeocoder.SuccessStores | Backend/geocoding/services/external_geocoder.py:115-124 | a non-empty body returns its coordinates, stores them at the current time, and evicts only above 1.2 times the maximum size |
| ExternalGeocoder.Geocoder.constructor | Backend/geocoding/services/external_geocoder.py:21-27 | an empty cache, the time to live converted from days, the given maximum size |
| ExternalGeocoder.Geocoder.CollectExpiredKeys | Backend/geocoding/services/external_geocoder.py:51-54 | the comprehension gives the keys of the expired entries in cache order |
| ExternalGeocoder.Geocoder.DeleteKeys | Backend/geocoding/services/external_geocoder.py:55-56 | the cache afterwards is the old cache without those keys |
| ExternalGeocoder.Geocoder.EvictOldCacheEntries | Backend/geocoding/services/external_geocoder.py:46-66 | keeps distinct keys and leaves the cache equal to `Evicted` of the old one |
| ExternalGeocoder.Geocoder.Geocode | Backend/geocoding/services/external_geocoder.py:68-139 | keeps distinct keys, and the coordinates and the new cache are those of `GeocodeStep` |
| Aggregation.ParentOrder | Backend/geocoding/services/geocoding_service.py:329-332 | the keys of `by_parent` are distinct and cover every place's parent |
| Aggregation.Aggregated | Backend/geocoding/services/geocoding_service.py:325-364 | no places give none; it raises `KeyError('id')` exactly when a place lacks an id |
| Aggregation.AggregatePermutes | Backend/geocoding/services/geocoding_service.py:338-364 | aggregation adds and drops nothing: the result is a permutation of the input |
| Aggregation.GroupedStructure | Backend/geocoding/services/geocoding_service.py:338-364 | the result has the same parent order and the same group for every parent as the input |
| Aggregation.GroupedIdempotent | Backend/geocoding/services/geocoding_service.py:338-364 | aggregating an aggregated list changes nothing |
| Aggregation.GroupByParent | Backend/geocoding/services/geocoding_service.py:329-332 | the loop builds `by_parent`, with keys in first-appearance order and each group in input order |
| Aggregation.ExtendByGroups | Backend/geocoding/services/geocoding_service.py:338-362 | the loop concatenates the groups in key order |
| Aggregation.AllHaveIds | Backend/geocoding/services/geocoding_service.py:335 | building `place_lookup` succeeds exactly when every place has an id |
| Aggregation.AggregateHierarchy | Backend/geocoding/services/geocoding_service.py:325-364 | `_aggregate_hierarchy` computes `Aggregated` |
| GeocodingService.Failure | Backend/geocoding/services/geocoding_service.py:174-178 | an error result has no places, the error, and no regions or direction |
| GeocodingService.ToPlace | Backend/geocoding/services/geocoding_service.py:198-204 | a row becomes a place exactly when it has id, name and level; the first missing key raises |
| GeocodingService.ToPlaces | Backend/geocoding/services/geocoding_service.py:286-295 | all rows convert in order, or the first failing row's exception |
| GeocodingService.Selected | Backend/geocoding/services/geocoding_service.py:181-184 | the first coordinate without context or with one coordinate; otherwise one closest to the centroid |
| GeocodingService.Located | Backend/geocoding/services/geocoding_service.py:187-209 | outside every boundary gives the error with both coordinates to four decimals; otherwise one `point_in_polygon` place |
| GeocodingService.HitPlace | Backend/geocoding/services/geocoding_service.py:155-161 | a name match becomes a place with its fields; confidence exactly when scores are requested |
| GeocodingService.SimpleStep | Backend/geocoding/services/geocoding_service.py:152-209 | a match wins without touching the cache; otherwise the external geocoder's cache step, then "No match found ..." or the located place |
| GeocodingService.SimpleShape | Backend/geocoding/services/geocoding_service.py:152-209 | the simple path yields at most one place, and no place exactly when it reports an error |
| GeocodingService.NoContextFirstCoordinate | Backend/geocoding/services/geocoding_service.py:181-184 | without context the first external coordinate is located |
| GeocodingService.Collect | Backend/geocoding/services/geocoding_service.py:252-258 | the base-name loop keeps at most one hit per name |
| GeocodingService.HitPositions | Backend/geocoding/services/geocoding_service.py:252-258 | the positions of the hits, increasing, covering every hit |
| GeocodingService.CollectInOrder | Backend/geocoding/services/geocoding_service.py:252-258 | the hits are those of the matched names, in name order |
| GeocodingService.CollectRaises | Backend/geocoding/services/geocoding_service.py:252-258 | the loop raises exactly when a match raises, with the first such exception |
| GeocodingService.CollectStops | Backend/geocoding/services/geocoding_service.py:252-258 | once a prefix raises, the later names change nothing |
| GeocodingService.HitIds | Backend/geocoding/services/geocoding_service.py:255 | the ids of the hits, in order |
| GeocodingService.HitNames | Backend/geocoding/services/geocoding_service.py:256 | the names of the hits, in order |
| GeocodingService.RegionResult | Backend/geocoding/services/geocoding_service.py:268-302 | an empty region gives "No places found in <direction> region" with the regions and direction; otherwise aggregation's or a row's `KeyError` propagates, and the places are the aggregated region rows converted to `directional_intersection` places, one per region row, with no error |
| GeocodingService.RegionRaises | Backend/geocoding/services/geocoding_service.py:268-302 | a non-empty region raises exactly when one of its rows lacks id, name or level |
| GeocodingService.RegionPlacesAreRegionRows | Backend/geocoding/services/geocoding_service.py:268-302 | every place reported is a converted region row, and every region row is reported |
| GeocodingService.DirectionalStep | Backend/geocoding/services/geocoding_service.py:241-302 | no names give "No place names found after parsing direction"; a raising match propagates; no hits give "Could not match any base places: " with all names; otherwise the region result |
| GeocodingService.DirectionalShape | Backend/geocoding/services/geocoding_service.py:241-302 | the directional path reports no places exactly when it reports an error, and regions and direction together |
| GeocodingService.Reported | Backend/geocoding/services/geocoding_service.py:74-80 | an exception becomes an error result "Geocoding failed: " plus its message |
| GeocodingService.LocationStep | Backend/geocoding/services/geocoding_service.py:58-80 | every result echoes the input and has no places exactly when it has an error |
| GeocodingService.LocationRouting | Backend/geocoding/services/geocoding_service.py:60-72 | a direction routes to the directional path with the cache untouched; otherwise the simple path on the first name, or on the input itself |
| GeocodingService.RunAll | Backend/geocoding/services/geocoding_service.py:111-113 | one result per location |
| GeocodingService.RunAllEach | Backend/geocoding/services/geocoding_service.py:111-113 | result i is the step on location i with the cache left by the earlier locations |
| GeocodingService.BatchResults | Backend/geocoding/services/geocoding_service.py:104-124 | no locations give []; otherwise one result per location, each geocoded without context in order, echoing its location |
| GeocodingService.SuggestAlternatives | Backend/geocoding/services/geocoding_service.py:384-396 | candidates at threshold 0.5, sorted by descending score, exactly min(limit, count) of them for a non-negative limit, none left out scoring above one kept |
| GeocodingService.GeocodingService.constructor | Backend/geocoding/services/geocoding_service.py:29-39 | keeps its collaborators |
| GeocodingService.GeocodingService.ProcessSimple | Backend/geocoding/services/geocoding_service.py:126-209 | the result and the geocoder's cache are those of `SimpleStep` |
| GeocodingService.GeocodingService.MatchBaseNames | Backend/geocoding/services/geocoding_service.py:249-258 | the loop gives the ids and names of the hits, or the first exception |
| GeocodingService.GeocodingService.ProcessDirectional | Backend/geocoding/services/geocoding_service.py:211-302 | the result is `DirectionalStep` |
| GeocodingService.GeocodingService.GeocodeLocation | Backend/geocoding/services/geocoding_service.py:41-80 | the result and the cache are those of `LocationStep` |
| GeocodingService.GeocodingService.GeocodeBatch | Backend/geocoding/services/geocoding_service.py:82-124 | the results and the cache are those of `BatchStep` |
| Ordering.ArgMaxIndex | Backend/geocoding/services/name_matcher.py:136 | `max(..., key=...)`: the first element of greatest key |
| Ordering.SortDesc | Backend/geocoding/services/name_matcher.py:166-170 | `sorted(..., reverse=True)`: a permutation sorted by descending key |
| Ordering.SortDescStable | Backend/geocoding/services/name_matcher.py:166-170 | the sort is stable: elements of equal key keep their input order |
| Ordering.TopOfSorted | Backend/geocoding/services/name_matcher.py:166-171 | the first n of the sorted list are sorted, drawn from the input, at most n, and none left out ranks above one kept |
| Ordering.TopKeeps | Backend/geocoding/services/external_geocoder.py:59-66 | the newest `max_cache_size` entries share any property all entries have (eviction keeps only fresh entries) |
| Ordering.UniqueTopKept | Backend/geocoding/services/external_geocoder.py:59-66 | an entry strictly newer than all others survives the cut to the newest n, for n at least 1 |
| Ordering.Filter | Backend/scrapers/base_scraper.py:42-45 | a comprehension with a condition keeps exactly the elements that satisfy it |
| Ordering.FilterAppend | Backend/scrapers/base_scraper.py:42-45 | filtering keeps order: it distributes over concatenation |
| Ordering.MaxOfFilter | Backend/geocoding/services/name_matcher.py:143-149 | `max` over the filtered candidates is the first best of the candidates that pass the filter |
| Strings.Strip | Backend/geocoding/services/directional_parser.py:74 | `str.strip()`: the trimmed middle slice, empty exactly for blank text |
| Strings.LStripChar | Backend/scrapers/parsers.py:23 | `lstrip(c)`: a suffix that does not start with `c`, only `c` dropped |
| Strings.LastPiece | Backend/scrapers/parsers.py:56 | `split(c)[-1]`: a suffix without `c`, preceded by `c` unless it is everything |
| Strings.FormatFixed4 | Backend/geocoding/services/geocoding_service.py:195 | `:.4f`: a minus sign exactly for negative values, then digits without a leading zero, a point and four digits, whose value is the absolute value times 10000 rounded half to even |
| Strings.Join | Backend/geocoding/exceptions.py:21 | `sep.join(parts)`: empty for no parts, the part itself for one, and the parts' total length plus one separator between each pair |
| Strings.JoinSnoc | Backend/geocoding/exceptions.py:21 | joining one more part appends the separator and that part |
| Urls.Utf8RoundTrip | Backend/scrapers/parsers.py:22 | UTF-8 decoding undoes encoding |
| Urls.UnquoteQuote | Backend/scrapers/parsers.py:22 | `unquote(quote(s, safe=''))` is `s` |
| Urls.DecodeRunsPlain | Backend/scrapers/parsers.py:22 | the no-`%` shortcut of `unquote` agrees with the decoding path |
| Urls.UrlSplit | Backend/scrapers/parsers.py:17 | an unmatched bracket raises "Invalid IPv6 URL"; the authority has no `/`, `?` or `#`; the path has no `?` or `#`; the query has no `#` |
| Urls.UrlSplitRecomposes | Backend/scrapers/parsers.py:17 | what follows the scheme is "//" and the authority (when there is one), the path, "?" and the query (when there is one) and "#" and the fragment (when there is one), in that order |
| Urls.UrlSplitParts | Backend/scrapers/parsers.py:17 | it raises exactly when the authority holds one square bracket but not the other; the scheme is that of the cleaned URL; the authority is what follows "//" up to the first `/`, `?` or `#`; the fragment follows the first `#` after it; the path and query are split at the first `?` before that |
| Urls.FirstValue | Backend/scrapers/parsers.py:19 | the value of the first `file` pair, or "" when there is none |
| Parsers.ConvertSecureUrl | Backend/scrapers/parsers.py:12-29 | a link without "secure-viewer?" is kept; `urlsplit` errors propagate; otherwise scheme "://" authority "/" followed by the decoded `file` parameter with only its leading slashes removed |
| Parsers.MissingFileGivesRoot | Backend/scrapers/parsers.py:19-27 | without a `file` parameter the result is the root of the host |
| Parsers.AfterLast | Backend/scrapers/parsers.py:55 | `url.split("?file=")[-1]`: a suffix with no separator in it, preceded by one unless it is everything |
| Parsers.NameWithExt | Backend/scrapers/parsers.py:54-59 | the last "/" segment of the decoded text after the last "?file=" (or of the whole decoded link) |
| Parsers.ExtLength | Backend/scrapers/parsers.py:61 | `splitext`: the extension starts at the last dot of the segment when a non-dot precedes it, and is empty exactly when every dot has only dots before it |
| Parsers.SplitExtSegment | Backend/scrapers/parsers.py:61 | the extension is empty, or a dot followed by no dot and no "/" |
| Parsers.EntryFile | Backend/scrapers/parsers.py:61-62 | the filename is the name up to its extension; without an extension the filetype is empty, otherwise the extension is a dot and the filetype; the filetype has no dot and no "/" |
| BaseScraper.SentNames | Backend/scrapers/base_scraper.py:31 | the names sent are exactly the `filename`s of the entries whose name is truthy, in entry order; none when no entry has one |
| BaseScraper.MissingNames | Backend/scrapers/base_scraper.py:41 | a row without `filename` raises `KeyError('filename')`; otherwise the set of reported names (a null row counts as no name) |
| BaseScraper.FilterNew | Backend/scrapers/base_scraper.py:27-49 | [] for no entries or no names, and when the call or reading its rows raises; otherwise exactly the entries a row reports, in order |
| BaseScraper.FilterNewDependsOnSentNames | Backend/scrapers/base_scraper.py:35-39 | the database is only asked about the names sent |
| BaseScraper.Run | Backend/scrapers/base_scraper.py:13-25 | an exception of `parse_entries` escapes (it is raised before the `try`); otherwise 0 when nothing is new or the upsert raises, and the upserted row count when it succeeds |
| BaseScraper.RunOnPageText | Backend/scrapers/base_scraper.py:15-16 | as written, `run` hands the page text to `parse_entries`, whose first step reads `.text` (`.json` for the API parser) from it, so `run` raises `AttributeError` for every page and every parser |
| BaseScraper.RunFromResponse | Backend/scrapers/base_scraper.py:18-25 | given the entries parsed from the response, `run` does not raise, and a positive count is the upsert's count for a non-empty set of new entries taken from the parsed ones |

## Left out

- Fetching pages over HTTP, BeautifulSoup extraction and `pd.to_datetime` date parsing in `run` and `parse_entries`: the model starts from the outcome of `parse_entries` (its entries or its exception) and from the extracted `href`.
- Entry fields other than `filename`, `url` and `filetype` (date, title, content hash): `filter_new` and `run` only pass them through.
- BaseScraper.MissingNames: an unhashable `filename` value (a list in a row), which makes the set comprehension raise `TypeError`, is not modelled.
- `urlsplit`'s NFKC check of the authority and its check of the bracketed host are not modelled. Only the unmatched-bracket `ValueError` is.
- `parse_qs`'s `max_num_fields` and `separator` arguments, and the error modes of strict parsing: the source uses the defaults.
- Place ids are opaque strings. `UUID(match['id'])` and pydantic's UUID validation, and the `ValueError` a malformed id raises, are not modelled.
- The places repository's own exceptions: the search, point lookup and directional search are total functions.
- An empty-dict row returned by the point lookup is falsy in Python. The model's lookup returns `None` for "no place".
- `datetime.now()` is read once per `geocode` call and once per batch, rather than at each of its three sites.
- A context of `None` and an empty context behave alike in `_process_simple`, and the model does not distinguish them.
- The name matcher and the service read the same fuzzy-search oracle.
- ExternalGeocoder.CacheKeyIgnoresCase: lower-casing is ASCII-only in the model, while Python's `str.lower` also folds non-ASCII letters. Two locations that differ only in the case of a non-ASCII letter therefore share a key in the source but not in the model.
- ExternalGeocoder.CacheKeyIgnoresCase: the key is the string that `_get_cache_key` hashes. The MD5 digest, and its collisions, are not modelled.
- `ExternalGeocoder.geocode_batch` is not modelled: it runs `geocode` concurrently with `asyncio.gather`, and the service never calls it.
- The `async with` client lifetime (`__aenter__`, `__aexit__`) and the per-request timeout.
- `DirectionalParser.clear_cache` and the `lru_cache` on `parse`, which do not change results.
- The Redis cache (`redis_cache.py`) and the HTTP routes (`api/routes.py`) are not part of this model.
- Floating point: coordinates, scores and tolerances are reals, so IEEE rounding in `sum`, `/`, `**2` and comparisons is not modelled. `:.4f` rounds the exact value half-to-even.
- Regex word characters (`\w`) and `IGNORECASE` are exact for ASCII. Any other non-space character counts as a word character, and folding outside ASCII covers only the special cases that can meet an ASCII pattern letter.
- NameMatcher.SelectBestCandidate: a `similarity_score` key that is present with the value `None` is read like a missing key, that is as 0. In the source, `.get('similarity_score', 0)` returns `None` there, and comparing it with a number raises `TypeError`.
- NameMatcher.Match: a `similarity_score` that is present but `None` gives confidence 1.0, as a missing one does. In the source, `None >= 0.99` raises `TypeError`.
- BaseScraper.Run: which exceptions the parsers raise on a real response (BeautifulSoup, `pd.to_datetime`, a malformed JSON body) is not modelled. The outcome of `parse_entries` is a parameter, and only the `AttributeError` of the as-written call is modelled, by `ParseEntriesOfText`.
- NameMatcher.SelectBestCandidate: the message of `max` on an empty sequence is that of current Python versions.

## Findings

| source | as written | input that shows it | evidently intended | confidence | as-written member | corrected member |
|---|---|---|---|---|---|---|
| Backend/scrapers/base_scraper.py:15-16 | `run` passes `response.text`, a `str`, to `parse_entries`, and every parser reads `.text` or `.json()` from its argument; the `AttributeError` is raised before the `try` and escapes `run` | any page, with any of the four parsers | `parse_entries(response)`, after which the filter and upsert rule of lines 18-25 decides the count | high, not executed | BaseScraper.RunOnPageText | BaseScraper.RunFromResponse |
