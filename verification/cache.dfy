/**
 * The Redis cache as the controller sees it: string keys, values with an
 * absolute expiry on a logical clock, `get`, `set … 'EX' seconds` and `del`.
 * JSON serialisation and parsing are the identity on payloads.
 */
module Cache {
  import opened Wrappers
  import Store

  /** Every `set` the controller issues uses `'EX', 60 * 60`. */
  const Ttl: int := 60 * 60

  /**
   * What a cache value denotes. `Blank` is the empty string (falsy under
   * `if (cached)`), `Corrupt` is any text `JSON.parse` rejects, and
   * `UnresolvedQuery` is the serialisation of an ORM query object that was
   * never awaited, which carries none of the record's columns.
   */
  datatype Payload =
    | Blank
    | Corrupt
    | MovieList(movies: seq<Store.Movie>)
    | MovieRecord(movie: Store.Movie)
    | UnresolvedQuery

  datatype Entry = Entry(value: Payload, expiresAt: int)

  type Cache = map<string, Entry>

  /** The key exists and has not reached its expiry. */
  predicate Live(c: Cache, key: string, now: int) {
    key in c && now < c[key].expiresAt
  }

  /** `redis.get(key)`: null for a missing or expired key. */
  function Get(c: Cache, key: string, now: int): (r: Option<Payload>)
    ensures r.Some? <==> Live(c, key, now)
    ensures r.Some? ==> r.value == c[key].value
  {
    if Live(c, key, now) then Some(c[key].value) else None
  }

  /** `if (cached)` after a `get`: a hit is a live, non-empty value. */
  function Lookup(c: Cache, key: string, now: int): (r: Option<Payload>)
    ensures r.Some? <==> Live(c, key, now) && c[key].value != Blank
    ensures r.Some? ==> r.value == c[key].value
  {
    match Get(c, key, now)
    case Some(v) => if v == Blank then None else Some(v)
    case None => None
  }

  /** `redis.set(key, value, 'EX', Ttl)` at time `now`. */
  function SetEx(c: Cache, key: string, value: Payload, now: int): (c': Cache)
    ensures key in c' && c'[key] == Entry(value, now + Ttl)
    ensures forall k :: k != key ==> (k in c' <==> k in c)
    ensures forall k :: k != key && k in c ==> c'[k] == c[k]
  {
    c[key := Entry(value, now + Ttl)]
  }

  /** `redis.del(key)`. */
  function Del(c: Cache, key: string): (c': Cache)
    ensures key !in c'
    ensures forall k :: k != key ==> (k in c' <==> k in c)
    ensures forall k :: k != key && k in c ==> c'[k] == c[k]
  {
    c - {key}
  }

  /** A value just written is a hit for as long as its time to live lasts, and only that long. */
  lemma SetThenLookup(c: Cache, key: string, value: Payload, now: int, later: int)
    requires value != Blank
    requires now <= later
    ensures Lookup(SetEx(c, key, value, now), key, later) == (if later < now + Ttl then Some(value) else None)
  {
  }
}
