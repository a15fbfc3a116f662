/** The external geocoder: an HTTP geocoding client with an in-memory cache
    whose entries live for a fixed time, and the choice among several
    coordinate candidates of the one nearest to the centroid of context
    points.  The HTTP service is an oracle and the clock a parameter. */
module ExternalGeocoder {
  import opened Wrappers
  import opened Strings
  import opened Ordering

  /** A `(longitude, latitude)` pair. */
  datatype Coord = Coord(lon: real, lat: real)

  /** One field of a JSON record: missing, a number `float` accepts, or a
      value `float` rejects. */
  datatype Field = Absent | Num(x: real) | Junk

  /** One record of the JSON array the service returns. */
  datatype Record = Record(lon: Field, lat: Field)

  /** What the HTTP exchange yields: a status error, a transport error, a body
      that is not valid JSON, or the decoded array of records. */
  datatype Reply = HttpStatusError | RequestError | Malformed | Body(data: seq<Record>)

  /** The geocoding service: the reply to a query for a location within a
      country. */
  type HttpOracle = (string, string) -> Reply

  /** Clock readings are whole microseconds. */
  const MicrosecondsPerDay := 86400 * 1000000

  // ---------------------------------------------------------------------
  // Centroid disambiguation
  // ---------------------------------------------------------------------

  function SumLon(cs: seq<Coord>): real {
    if |cs| == 0 then 0.0 else SumLon(cs[..|cs| - 1]) + cs[|cs| - 1].lon
  }

  function SumLat(cs: seq<Coord>): real {
    if |cs| == 0 then 0.0 else SumLat(cs[..|cs| - 1]) + cs[|cs| - 1].lat
  }

  /** The mean of the context points. */
  function Centroid(ctx: seq<Coord>): (c: Coord)
    requires |ctx| > 0
    ensures c.lon * |ctx| as real == SumLon(ctx) && c.lat * |ctx| as real == SumLat(ctx)
  {
    Coord(SumLon(ctx) / |ctx| as real, SumLat(ctx) / |ctx| as real)
  }

  function SquaredDistance(a: Coord, b: Coord): real {
    (a.lon - b.lon) * (a.lon - b.lon) + (a.lat - b.lat) * (a.lat - b.lat)
  }

  /** The key `min` ranks by, negated so that the first maximum of it is the
      first minimum of the distance. */
  function Closeness(centre: Coord): Coord -> real {
    c => -SquaredDistance(c, centre)
  }

  /** `disambiguate_by_centroid`: no candidates raise; one candidate, or no
      context, gives the first candidate; otherwise the first candidate of
      least squared distance to the centroid of the context. */
  function DisambiguateByCentroid(candidates: seq<Coord>, ctx: seq<Coord>): (r: Try<Coord>)
    ensures r.Raised? <==> |candidates| == 0
    ensures r.Raised? ==> r.message == "No candidates to disambiguate"
    ensures |candidates| > 0 && (|candidates| == 1 || |ctx| == 0) ==> r == Ok(candidates[0])
    ensures |candidates| > 1 && |ctx| > 0 ==>
      exists k :: 0 <= k < |candidates| && r == Ok(candidates[k])
        && (forall j :: 0 <= j < |candidates| ==>
              SquaredDistance(candidates[k], Centroid(ctx)) <= SquaredDistance(candidates[j], Centroid(ctx)))
        && (forall j :: 0 <= j < k ==>
              SquaredDistance(candidates[k], Centroid(ctx)) < SquaredDistance(candidates[j], Centroid(ctx)))
  {
    if |candidates| == 0 then Raised("No candidates to disambiguate")
    else if |candidates| == 1 || |ctx| == 0 then Ok(candidates[0])
    else
      var k := ArgMaxIndex(candidates, Closeness(Centroid(ctx)));
      Ok(candidates[k])
  }

  /** Candidates `[(0,0), (10,10)]` with context `[(1,1)]` give `(0,0)`. */
  lemma DisambiguateExample(candidates: seq<Coord>, ctx: seq<Coord>)
    requires candidates == [Coord(0.0, 0.0), Coord(10.0, 10.0)] && ctx == [Coord(1.0, 1.0)]
    ensures DisambiguateByCentroid(candidates, ctx) == Ok(Coord(0.0, 0.0))
  {
    assert ctx[..0] == [];
    assert SumLon(ctx) == SumLon(ctx[..0]) + 1.0;
    assert SumLat(ctx) == SumLat(ctx[..0]) + 1.0;
    var centre := Centroid(ctx);
    assert centre == Coord(1.0, 1.0);
    var k :| 0 <= k < |candidates| && DisambiguateByCentroid(candidates, ctx) == Ok(candidates[k])
      && SquaredDistance(candidates[k], centre) <= SquaredDistance(candidates[0], centre);
    assert SquaredDistance(candidates[1], centre) == 162.0;
  }

  // ---------------------------------------------------------------------
  // Response decoding
  // ---------------------------------------------------------------------

  /** `[(float(r['lon']), float(r['lat'])) for r in data if 'lon' in r and 'lat' in r]`:
      the coordinates of the records that carry both fields, in order, or
      `None` when `float` rejects one of them. */
  function ExtractCoords(data: seq<Record>): (r: Option<seq<Coord>>)
    ensures r.None? <==> exists i :: 0 <= i < |data| && Rejected(data[i])
    ensures r.Some? ==> |r.value| == |Filter(data, HasLonLat)|
    ensures r.Some? ==> forall i :: 0 <= i < |r.value| ==>
      var rec := Filter(data, HasLonLat)[i];
      rec.lon.Num? && rec.lat.Num? && r.value[i] == Coord(rec.lon.x, rec.lat.x)
  {
    if |data| == 0 then Some([])
    else
      var last := data[|data| - 1];
      match ExtractCoords(data[..|data| - 1])
      case None =>
        assert forall i :: 0 <= i < |data| - 1 ==> data[..|data| - 1][i] == data[i];
        None
      case Some(cs) =>
        assert forall i :: 0 <= i < |data| - 1 ==> data[..|data| - 1][i] == data[i];
        if Rejected(last) then None
        else if HasLonLat(last) then Some(cs + [Coord(last.lon.x, last.lat.x)])
        else Some(cs)
  }

  /** `'lon' in r and 'lat' in r`. */
  predicate HasLonLat(rec: Record) {
    rec.lon != Absent && rec.lat != Absent
  }

  /** A record with both fields of which `float` rejects one. */
  predicate Rejected(rec: Record) {
    rec.lon != Absent && rec.lat != Absent && (rec.lon == Junk || rec.lat == Junk)
  }

  // ---------------------------------------------------------------------
  // Cache contents
  // ---------------------------------------------------------------------

  /** The string `_get_cache_key` hashes: the lower-cased location, a colon,
      the country filter.  The digest itself is not modelled. */
  function CacheKey(location: string, country: string): string {
    Lower(location) + ":" + country
  }

  /** For one country, two locations share a cache entry exactly when they
      are equal once lower-cased. */
  lemma CacheKeyIgnoresCase(a: string, b: string, country: string)
    ensures CacheKey(a, country) == CacheKey(b, country) <==> Lower(a) == Lower(b)
  {
    if CacheKey(a, country) == CacheKey(b, country) {
      var n := |Lower(a)|;
      assert |Lower(a)| == |Lower(b)|;
      assert CacheKey(a, country)[..n] == Lower(a);
      assert CacheKey(b, country)[..n] == Lower(b);
    }
  }

  /** One entry of the cache dict: the key, the coordinates and when they
      were stored. */
  datatype CacheItem = CacheItem(key: string, coords: seq<Coord>, cachedAt: int)

  /** The dict's keys are distinct; the sequence keeps its insertion order. */
  ghost predicate KeysDistinct(s: seq<CacheItem>) {
    forall i, j :: 0 <= i < j < |s| ==> s[i].key != s[j].key
  }

  /** The position of `key` in the cache, if present. */
  function Find(s: seq<CacheItem>, key: string): (r: Option<nat>)
    ensures r.Some? ==> r.value < |s| && s[r.value].key == key
    ensures r.None? ==> forall i :: 0 <= i < |s| ==> s[i].key != key
  {
    if |s| == 0 then None
    else if s[|s| - 1].key == key then Some(|s| - 1)
    else Find(s[..|s| - 1], key)
  }

  /** `cache[key] = (coords, now)`: an existing key keeps its position and
      takes the new value, a new key goes at the end, and every other entry
      stays as it was. */
  function Store(s: seq<CacheItem>, key: string, coords: seq<Coord>, now: int): (r: seq<CacheItem>)
    ensures KeysDistinct(s) ==> KeysDistinct(r)
    ensures exists j :: 0 <= j < |r| && r[j] == CacheItem(key, coords, now)
    ensures forall i :: 0 <= i < |s| && s[i].key != key ==> s[i] in r
    ensures forall i :: 0 <= i < |r| && r[i].key != key ==> r[i] in s
    ensures |r| == if Find(s, key).Some? then |s| else |s| + 1
  {
    match Find(s, key)
    case Some(k) =>
      var r := s[k := CacheItem(key, coords, now)];
      assert r[k] == CacheItem(key, coords, now);
      assert forall i :: 0 <= i < |s| && i != k ==> r[i] == s[i];
      r
    case None =>
      var r := s + [CacheItem(key, coords, now)];
      assert r[|s|] == CacheItem(key, coords, now);
      r
  }

  /** An entry is served while it is younger than the time to live. */
  predicate Fresh(it: CacheItem, now: int, ttl: int) {
    now - it.cachedAt < ttl
  }

  function FreshAt(now: int, ttl: int): CacheItem -> bool {
    it => Fresh(it, now, ttl)
  }

  /** The entries the first half of eviction keeps: the fresh ones, in order. */
  function Unexpired(s: seq<CacheItem>, now: int, ttl: int): (r: seq<CacheItem>)
    ensures |r| <= |s|
    ensures forall x :: x in r ==> Fresh(x, now, ttl)
    ensures multiset(r) <= multiset(s)
  {
    if |s| == 0 then []
    else
      assert s == s[..|s| - 1] + [s[|s| - 1]];
      Unexpired(s[..|s| - 1], now, ttl) + (if Fresh(s[|s| - 1], now, ttl) then [s[|s| - 1]] else [])
  }

  /** Every fresh entry is kept. */
  lemma {:induction false} FreshKept(s: seq<CacheItem>, now: int, ttl: int, i: nat)
    requires i < |s| && Fresh(s[i], now, ttl)
    ensures s[i] in Unexpired(s, now, ttl)
  {
    if i < |s| - 1 {
      assert s[..|s| - 1][i] == s[i];
      FreshKept(s[..|s| - 1], now, ttl, i);
    }
  }

  /** The keys of the expired entries, in cache order. */
  function ExpiredKeys(s: seq<CacheItem>, now: int, ttl: int): seq<string> {
    if |s| == 0 then []
    else ExpiredKeys(s[..|s| - 1], now, ttl) + (if Fresh(s[|s| - 1], now, ttl) then [] else [s[|s| - 1].key])
  }

  /** A key no entry carries is not among the expired keys. */
  lemma {:induction false} ExpiredKeysAbsent(s: seq<CacheItem>, now: int, ttl: int, k: string)
    requires forall i :: 0 <= i < |s| ==> s[i].key != k
    ensures k !in ExpiredKeys(s, now, ttl)
  {
    if |s| > 0 {
      ExpiredKeysAbsent(s[..|s| - 1], now, ttl, k);
    }
  }

  /** In a cache with distinct keys, the last key is carried by no earlier
      entry. */
  lemma LastKeyNew(s: seq<CacheItem>, init: seq<CacheItem>)
    requires KeysDistinct(s) && |s| > 0 && init == s[..|s| - 1]
    ensures KeysDistinct(init)
    ensures forall i :: 0 <= i < |init| ==> init[i].key != s[|s| - 1].key
  {
  }

  /** The entries whose key is not among `ks`, in order. */
  function WithoutKeys(s: seq<CacheItem>, ks: seq<string>): seq<CacheItem> {
    if |s| == 0 then []
    else WithoutKeys(s[..|s| - 1], ks) + (if s[|s| - 1].key in ks then [] else [s[|s| - 1]])
  }

  /** Deleting no keys changes nothing. */
  lemma {:induction false} WithoutNoKeys(s: seq<CacheItem>)
    ensures WithoutKeys(s, []) == s
  {
    if |s| > 0 {
      WithoutNoKeys(s[..|s| - 1]);
    }
  }

  /** `del cache[k]` on the entries left once the keys `ks` are deleted. */
  lemma {:induction false} DeleteOneMore(s: seq<CacheItem>, ks: seq<string>, k: string)
    ensures WithoutKeys(WithoutKeys(s, ks), [k]) == WithoutKeys(s, ks + [k])
  {
    if |s| > 0 {
      DeleteOneMore(s[..|s| - 1], ks, k);
      var w := WithoutKeys(s[..|s| - 1], ks);
      var x := s[|s| - 1];
      if x.key in ks {
        assert WithoutKeys(s, ks) == w;
      } else {
        assert WithoutKeys(s, ks) == w + [x];
        assert (w + [x])[..|w + [x]| - 1] == w;
      }
    }
  }

  /** Deleting keys none of the entries carries changes nothing. */
  lemma {:induction false} WithoutAbsentKey(s: seq<CacheItem>, ks: seq<string>, k: string)
    requires forall i :: 0 <= i < |s| ==> s[i].key != k
    ensures WithoutKeys(s, ks + [k]) == WithoutKeys(s, ks)
  {
    if |s| > 0 {
      WithoutAbsentKey(s[..|s| - 1], ks, k);
    }
  }

  /** With distinct keys, deleting the expired keys keeps exactly the fresh
      entries. */
  lemma {:induction false} DeleteExpired(s: seq<CacheItem>, now: int, ttl: int)
    requires KeysDistinct(s)
    ensures WithoutKeys(s, ExpiredKeys(s, now, ttl)) == Unexpired(s, now, ttl)
  {
    if |s| > 0 {
      var init := s[..|s| - 1];
      var x := s[|s| - 1];
      var ks := ExpiredKeys(init, now, ttl);
      LastKeyNew(s, init);
      DeleteExpired(init, now, ttl);
      ExpiredKeysAbsent(init, now, ttl, x.key);
      if Fresh(x, now, ttl) {
        assert ExpiredKeys(s, now, ttl) == ks;
        assert Unexpired(s, now, ttl) == Unexpired(init, now, ttl) + [x];
        assert WithoutKeys(s, ks) == WithoutKeys(init, ks) + [x];
      } else {
        assert ExpiredKeys(s, now, ttl) == ks + [x.key];
        assert Unexpired(s, now, ttl) == Unexpired(init, now, ttl);
        WithoutAbsentKey(init, ks, x.key);
        assert WithoutKeys(s, ks + [x.key]) == WithoutKeys(init, ks + [x.key]);
      }
    }
  }

  function Stamp(it: CacheItem): real {
    it.cachedAt as real
  }

  /** The cache after `_evict_old_cache_entries`: the fresh entries, and if
      they are still more than `maxSize`, the `maxSize` newest of them, newest
      first (ties in the order the cache held them). */
  function Evicted(s: seq<CacheItem>, now: int, ttl: int, maxSize: int): seq<CacheItem> {
    var kept := Unexpired(s, now, ttl);
    if |kept| > maxSize then SliceTo(SortDesc(kept, Stamp), maxSize) else kept
  }

  /** Taking one entry out of a cache with distinct keys leaves distinct keys,
      none of them the key taken out. */
  lemma DropDistinct(s: seq<CacheItem>, k: nat)
    requires KeysDistinct(s) && k < |s|
    ensures KeysDistinct(s[..k] + s[k + 1..])
    ensures forall x :: x in s[..k] + s[k + 1..] ==> x.key != s[k].key
  {
    var t := s[..k] + s[k + 1..];
    assert forall m :: 0 <= m < |t| ==> t[m] == s[if m < k then m else m + 1];
  }

  /** An entry whose key no other entry carries can head a cache with
      distinct keys. */
  lemma ConsDistinct(a: CacheItem, r: seq<CacheItem>)
    requires KeysDistinct(r) && forall x :: x in r ==> x.key != a.key
    ensures KeysDistinct([a] + r)
  {
    var t := [a] + r;
    forall i, j | 0 <= i < j < |t| ensures t[i].key != t[j].key {
      assert t[j] == r[j - 1];
      if i > 0 {
        assert t[i] == r[i - 1];
      }
    }
  }

  /** Taking one occurrence of `a` out of a cache with distinct keys leaves
      distinct keys, none of them `a`'s. */
  lemma TakeOut(s: seq<CacheItem>, a: CacheItem) returns (t: seq<CacheItem>)
    requires a in multiset(s) && KeysDistinct(s)
    ensures multiset(t) == multiset(s) - multiset{a}
    ensures KeysDistinct(t) && forall x :: x in t ==> x.key != a.key
  {
    var k :| 0 <= k < |s| && s[k] == a;
    t := s[..k] + s[k + 1..];
    assert s == s[..k] + [a] + s[k + 1..];
    DropDistinct(s, k);
  }

  /** A sub-multiset of entries with distinct keys has distinct keys. */
  lemma {:induction false} SubKeysDistinct(r: seq<CacheItem>, s: seq<CacheItem>)
    requires multiset(r) <= multiset(s) && KeysDistinct(s)
    ensures KeysDistinct(r)
  {
    if |r| > 0 {
      var a := r[0];
      var t := TakeOut(s, a);
      var rest := r[1..];
      assert r == [a] + rest;
      SubKeysDistinct(rest, t);
      forall x | x in rest ensures x.key != a.key {
        assert x in multiset(t);
      }
      ConsDistinct(a, rest);
    }
  }

  /** No expired entry survives eviction. */
  lemma EvictedFresh(s: seq<CacheItem>, now: int, ttl: int, maxSize: int)
    ensures forall x :: x in Evicted(s, now, ttl, maxSize) ==> Fresh(x, now, ttl)
  {
    var kept := Unexpired(s, now, ttl);
    if |kept| > maxSize {
      TopKeeps(kept, Stamp, maxSize, FreshAt(now, ttl));
    }
  }

  /** Every survivor of eviction is an entry the cache held, its value
      unchanged, and the keys stay distinct. */
  lemma EvictedSub(s: seq<CacheItem>, now: int, ttl: int, maxSize: int)
    ensures var r := Evicted(s, now, ttl, maxSize);
      && multiset(r) <= multiset(s)
      && (KeysDistinct(s) ==> KeysDistinct(r))
  {
    var kept := Unexpired(s, now, ttl);
    var r := Evicted(s, now, ttl, maxSize);
    if |kept| > maxSize {
      TopOfSorted(kept, Stamp, maxSize);
    }
    if KeysDistinct(s) {
      SubKeysDistinct(r, s);
    }
  }

  /** Eviction leaves at most `maxSize` entries when `maxSize` is not
      negative, keeps every fresh entry when they fit, and drops only fresh
      entries no newer than every survivor. */
  lemma EvictedNewest(s: seq<CacheItem>, now: int, ttl: int, maxSize: int)
    ensures var r := Evicted(s, now, ttl, maxSize);
      && (maxSize >= 0 ==> |r| <= maxSize)
      && (|Unexpired(s, now, ttl)| <= maxSize ==> r == Unexpired(s, now, ttl))
      && (forall y, x :: y in multiset(Unexpired(s, now, ttl)) - multiset(r) && x in r ==> y.cachedAt <= x.cachedAt)
  {
    var kept := Unexpired(s, now, ttl);
    if |kept| > maxSize {
      TopOfSorted(kept, Stamp, maxSize);
    }
  }

  // ---------------------------------------------------------------------
  // One call of geocode, as a function of the cache
  // ---------------------------------------------------------------------

  /** Eviction runs only once the cache holds more than 1.2 times its
      maximum size. */
  predicate OverLimit(s: seq<CacheItem>, maxSize: int) {
    |s| as real > maxSize as real * 1.2
  }

  /** `geocode(location, country)` at time `now`: the coordinates returned and
      the cache afterwards. */
  function GeocodeStep(s: seq<CacheItem>, ttl: int, maxSize: int, http: HttpOracle,
                       location: string, country: string, now: int): (seq<Coord>, seq<CacheItem>)
  {
    var key := CacheKey(location, country);
    var hit := Find(s, key);
    var reply := http(location, country);
    if hit.Some? && Fresh(s[hit.value], now, ttl) then (s[hit.value].coords, s)
    else if !reply.Body? || reply.data == [] then ([], s)
    else
      match ExtractCoords(reply.data)
      case None => ([], s)
      case Some(coords) =>
        var stored := Store(s, key, coords, now);
        (coords, if OverLimit(stored, maxSize) then Evicted(stored, now, ttl, maxSize) else stored)
  }

  /** A fresh cached entry is served as it is, the cache is left alone and
      the service is not asked: any other service gives the same outcome. */
  lemma CacheHit(s: seq<CacheItem>, ttl: int, maxSize: int, http: HttpOracle, other: HttpOracle,
                 location: string, country: string, now: int, j: nat)
    requires j < |s| && s[j].key == CacheKey(location, country) && Fresh(s[j], now, ttl)
    requires KeysDistinct(s)
    ensures GeocodeStep(s, ttl, maxSize, http, location, country, now) == (s[j].coords, s)
    ensures GeocodeStep(s, ttl, maxSize, other, location, country, now) == (s[j].coords, s)
  {
    var hit := Find(s, CacheKey(location, country));
    assert hit == Some(j);
  }

  /** Without a fresh entry, a status error, a transport error, an
      undecodable body, an empty array or a record `float` rejects give no
      coordinates and leave the cache alone. */
  lemma FailureStoresNothing(s: seq<CacheItem>, ttl: int, maxSize: int, http: HttpOracle,
                             location: string, country: string, now: int)
    requires var hit := Find(s, CacheKey(location, country)); hit.None? || !Fresh(s[hit.value], now, ttl)
    requires var reply := http(location, country);
      !reply.Body? || reply.data == [] || ExtractCoords(reply.data).None?
    ensures GeocodeStep(s, ttl, maxSize, http, location, country, now) == ([], s)
  {
  }

  /** Without a fresh entry, a non-empty array is returned as its extracted
      coordinates (possibly none) and stored under the key with the current
      time; the cache changes beyond that only by eviction, which runs only
      over 1.2 times the maximum size. */
  lemma SuccessStores(s: seq<CacheItem>, ttl: int, maxSize: int, http: HttpOracle,
                      location: string, country: string, now: int)
    requires var hit := Find(s, CacheKey(location, country)); hit.None? || !Fresh(s[hit.value], now, ttl)
    requires var reply := http(location, country);
      reply.Body? && reply.data != [] && ExtractCoords(reply.data).Some?
    ensures var coords := ExtractCoords(http(location, country).data).value;
      var stored := Store(s, CacheKey(location, country), coords, now);
      var out := GeocodeStep(s, ttl, maxSize, http, location, country, now);
      && out.0 == coords
      && (!OverLimit(stored, maxSize) ==> out.1 == stored && CacheItem(CacheKey(location, country), coords, now) in out.1)
      && (OverLimit(stored, maxSize) ==> out.1 == Evicted(stored, now, ttl, maxSize))
  {
  }

  /** The entry just stored survives eviction when the time to live is
      positive, at least one entry may stay, and every other entry is older. */
  lemma NewestSurvives(s: seq<CacheItem>, now: int, ttl: int, maxSize: int, it: CacheItem)
    requires it in s && it.cachedAt == now && ttl > 0 && maxSize >= 1
    requires forall i :: 0 <= i < |s| && s[i] != it ==> s[i].cachedAt < now
    ensures it in Evicted(s, now, ttl, maxSize)
  {
    var kept := Unexpired(s, now, ttl);
    var i :| 0 <= i < |s| && s[i] == it;
    FreshKept(s, now, ttl, i);
    if |kept| > maxSize {
      forall y | y in kept && y != it ensures Stamp(y) < Stamp(it) {
        assert y in multiset(s);
      }
      UniqueTopKept(kept, Stamp, maxSize, it);
    }
  }

  // ---------------------------------------------------------------------
  // The geocoder object
  // ---------------------------------------------------------------------

  /** The client with its cache; the cache dict is the `items` field, in
      insertion order. */
  class Geocoder {
    const cacheTtl: int
    const maxCacheSize: int
    const http: HttpOracle
    var items: seq<CacheItem>

    ghost predicate Valid()
      reads this
    {
      KeysDistinct(items)
    }

    /** A geocoder with an empty cache; the time to live is given in days. */
    constructor(http: HttpOracle, cacheTtlDays: int := 30, maxCacheSize: int := 1000)
      ensures this.http == http && this.maxCacheSize == maxCacheSize
      ensures cacheTtl == cacheTtlDays * MicrosecondsPerDay
      ensures items == [] && Valid()
    {
      this.http := http;
      this.cacheTtl := cacheTtlDays * MicrosecondsPerDay;
      this.maxCacheSize := maxCacheSize;
      items := [];
    }

    /** The comprehension collecting the keys of the expired entries. */
    method CollectExpiredKeys(now: int) returns (expired: seq<string>)
      ensures expired == ExpiredKeys(items, now, cacheTtl)
    {
      expired := [];
      for i := 0 to |items|
        invariant expired == ExpiredKeys(items[..i], now, cacheTtl)
      {
        assert items[..i + 1][..i] == items[..i];
        if !Fresh(items[i], now, cacheTtl) {
          expired := expired + [items[i].key];
        }
      }
      assert items[..|items|] == items;
    }

    /** `del cache[key]` for each key in turn. */
    method DeleteKeys(keys: seq<string>)
      modifies this
      ensures items == WithoutKeys(old(items), keys)
    {
      ghost var original := items;
      WithoutNoKeys(items);
      for i := 0 to |keys|
        invariant items == WithoutKeys(original, keys[..i])
      {
        DeleteOneMore(original, keys[..i], keys[i]);
        assert keys[..i + 1] == keys[..i] + [keys[i]];
        items := WithoutKeys(items, [keys[i]]);
      }
      assert keys[..|keys|] == keys;
    }

    /** `_evict_old_cache_entries`: delete the expired entries, then keep only
        the newest `maxCacheSize` entries if there are still too many. */
    method EvictOldCacheEntries(now: int)
      requires Valid()
      modifies this
      ensures Valid()
      ensures items == Evicted(old(items), now, cacheTtl, maxCacheSize)
    {
      var expired := CollectExpiredKeys(now);
      DeleteExpired(items, now, cacheTtl);
      EvictedSub(items, now, cacheTtl, maxCacheSize);
      DeleteKeys(expired);
      if |items| > maxCacheSize {
        items := SliceTo(SortDesc(items, Stamp), maxCacheSize);
      }
    }

    /** `geocode`: serve a fresh cached entry, or ask the service and store
        a non-empty answer, evicting when the cache has grown too large. */
    method Geocode(location: string, now: int, country: string := "pk") returns (coords: seq<Coord>)
      requires Valid()
      modifies this
      ensures Valid()
      ensures (coords, items) == GeocodeStep(old(items), cacheTtl, maxCacheSize, http, location, country, now)
    {
      var key := CacheKey(location, country);
      var hit := Find(items, key);
      if hit.Some? && Fresh(items[hit.value], now, cacheTtl) {
        return items[hit.value].coords;
      }
      var reply := http(location, country);
      if !reply.Body? || reply.data == [] {
        return [];
      }
      var extracted := ExtractCoords(reply.data);
      if extracted.None? {
        return [];
      }
      coords := extracted.value;
      items := Store(items, key, coords, now);
      if OverLimit(items, maxCacheSize) {
        EvictOldCacheEntries(now);
      }
    }
  }
}
