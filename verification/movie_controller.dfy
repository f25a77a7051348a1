/**
 * The movie handlers as pure step functions: each takes the cache, the store
 * and the clock, and returns the reply the client receives together with the
 * cache and store afterwards. When a handler sends a reply and then carries on
 * (the `res.status(400)` calls without `return`), the client keeps the first
 * reply and the state reflects everything the rest of the handler did.
 */
module MovieController {
  import opened Wrappers
  import Store
  import Cache
  import Keys
  import JsNumbers
  import opened Pagination

  datatype State = State(cache: Cache.Cache, store: Store.Table)

  /** The HTTP status and the JSON body's `message`, `data` and `status` fields. */
  datatype Reply = Reply(code: int, message: string, data: Option<Cache.Payload>, ok: Option<bool>)

  datatype Outcome = Outcome(reply: Reply, next: State)

  /** A reply without data; `ok` is the body's `status` flag when the handler sends one. */
  function Plain(code: int, message: string, ok: Option<bool>): Reply {
    Reply(code, message, None, ok)
  }

  /**
   * Answering from a cache hit: `JSON.parse` hands the payload back, or
   * throws on text that is not JSON and the handler's catch block answers.
   */
  function ServeCached(p: Cache.Payload, message: string, failure: Reply, s: State): (o: Outcome)
    ensures o.next == s
    ensures p != Cache.Corrupt ==> o.reply == Reply(200, message, Some(p), Some(true))
    ensures p == Cache.Corrupt ==> o.reply == failure
  {
    if p == Cache.Corrupt then Outcome(failure, s)
    else Outcome(Reply(200, message, Some(p), Some(true)), s)
  }

  // ---------------------------------------------------------------------------
  // getAllMovies
  // ---------------------------------------------------------------------------

  /** `getAllMovies`: the whole table in ascending id order, or 404 when it is empty. The cache is not used. */
  function GetAllMovies(s: State): (o: Outcome)
    ensures o.next == s
    ensures o.reply.code == 404 <==> |s.store.records| == 0
    ensures o.reply.code != 404 ==>
              o.reply == Reply(200, "Movies fetched successfully", Some(Cache.MovieList(Store.Ordered(s.store))), Some(true))
  {
    var all := Store.Ordered(s.store);
    if |all| == 0 then Outcome(Plain(404, "No movies found", Some(false)), s)
    else Outcome(Reply(200, "Movies fetched successfully", Some(Cache.MovieList(all)), Some(true)), s)
  }

  /** In a valid store the full listing holds every record exactly once, in ascending id order. */
  lemma GetAllMoviesListsEveryRecord(s: State)
    requires Store.Valid(s.store)
    requires |s.store.records| > 0
    ensures GetAllMovies(s).reply.data.Some? && GetAllMovies(s).reply.data.value.MovieList?
    ensures var ms := GetAllMovies(s).reply.data.value.movies;
            && |ms| == |s.store.records|
            && (forall i, j :: 0 <= i < j < |ms| ==> ms[i].id < ms[j].id)
            && (forall id :: id in s.store.records ==> s.store.records[id] in ms)
  {
    Store.OrderedAscending(s.store);
    forall id | id in s.store.records
      ensures s.store.records[id] in Store.Ordered(s.store)
    {
      Store.OrderedHasEveryRecord(s.store, id);
    }
  }

  // ---------------------------------------------------------------------------
  // getLimitedMovies
  // ---------------------------------------------------------------------------

  /**
   * The body of `getLimitedMovies` once `page` and `limit` have been
   * normalised. The store is only read, and the cache either stays as it was
   * or, after a miss answered 200, gains the reply's data under the page key.
   */
  function ServePage(s: State, page: int, limit: int, now: int): (o: Outcome)
    ensures o.next.store == s.store
    ensures o.next.cache == s.cache
            || (&& Cache.Lookup(s.cache, Keys.PageKey(page, limit), now).None?
                && o.reply.code == 200 && o.reply.data.Some?
                && o.next.cache == Cache.SetEx(s.cache, Keys.PageKey(page, limit), o.reply.data.value, now))
  {
    var key := Keys.PageKey(page, limit);
    match Cache.Lookup(s.cache, key, now)
    case Some(p) =>
      ServeCached(p, "Movies fetched from cache", Plain(500, "Error in fetching movies", Some(false)), s)
    case None =>
      match Store.FindPage(s.store, Skip(page, limit), limit)
      case Failure(_) => Outcome(Plain(500, "Error in fetching movies", Some(false)), s)
      case Success(movies) =>
        if |movies| == 0 then Outcome(Plain(404, "No movies found", Some(false)), s)
        else
          Outcome(Reply(200, "Movies fetched successfully", Some(Cache.MovieList(movies)), Some(true)),
                  s.(cache := Cache.SetEx(s.cache, key, Cache.MovieList(movies), now)))
  }

  /** Only the page key can change, and the store never does. */
  lemma ServePageLocal(s: State, page: int, limit: int, now: int)
    ensures var o := ServePage(s, page, limit, now);
            var key := Keys.PageKey(page, limit);
            && o.next.store == s.store
            && (forall k :: k != key ==> (k in o.next.cache <==> k in s.cache))
            && (forall k :: k != key && k in s.cache ==> o.next.cache[k] == s.cache[k])
  {
  }

  /** A hit answers from the cache and changes nothing. */
  lemma ServePageHit(s: State, page: int, limit: int, now: int)
    requires Cache.Lookup(s.cache, Keys.PageKey(page, limit), now).Some?
    ensures var o := ServePage(s, page, limit, now);
            var hit := Cache.Lookup(s.cache, Keys.PageKey(page, limit), now);
            && o.next == s
            && (hit != Some(Cache.Corrupt) ==> o.reply == Reply(200, "Movies fetched from cache", hit, Some(true)))
            && (hit == Some(Cache.Corrupt) ==> o.reply.code == 500)
  {
  }

  /** A miss either fills the page key with the reply's listing or changes nothing. */
  lemma ServePageFill(s: State, page: int, limit: int, now: int)
    requires Cache.Lookup(s.cache, Keys.PageKey(page, limit), now).None?
    ensures var o := ServePage(s, page, limit, now);
            && (o.reply.code == 200 ==>
                  && o.reply.data.Some? && o.reply.data.value.MovieList?
                  && o.next.cache == Cache.SetEx(s.cache, Keys.PageKey(page, limit), o.reply.data.value, now))
            && (o.reply.code != 200 ==> o.next == s)
  {
  }

  /** A miss with a positive limit answers with the window of the ascending listing, and caches it unless it is empty. */
  lemma ServePageMiss(s: State, page: int, limit: int, now: int)
    requires Cache.Lookup(s.cache, Keys.PageKey(page, limit), now).None?
    requires page >= 1 && limit >= 1
    ensures var o := ServePage(s, page, limit, now);
            var n := |s.store.records|;
            && (o.reply.code == 404 <==> Skip(page, limit) >= n)
            && (o.reply.code == 404 ==> o.next == s)
            && (Skip(page, limit) < n ==>
                  var movies := Store.Ordered(s.store)[Skip(page, limit) .. Store.Min(n, Skip(page, limit) + limit)];
                  && o.reply == Reply(200, "Movies fetched successfully", Some(Cache.MovieList(movies)), Some(true))
                  && o.next.cache == Cache.SetEx(s.cache, Keys.PageKey(page, limit), Cache.MovieList(movies), now))
  {
    var skip := Skip(page, limit);
    var all := Store.Ordered(s.store);
    var n := |s.store.records|;
    assert |all| == n;
    Store.ForwardWindowIsSlice(all, skip, limit);
    assert Store.FindPage(s.store, skip, limit) == Success(all[Store.Min(n, skip) .. Store.Min(n, skip + limit)]);
  }

  /** A miss with a negative limit past the first page is a negative skip, which the ORM rejects. */
  lemma ServePageNegativeLimit(s: State, page: int, limit: int, now: int)
    requires Cache.Lookup(s.cache, Keys.PageKey(page, limit), now).None?
    requires page > 1 && limit < 0
    ensures ServePage(s, page, limit, now) == Outcome(Plain(500, "Error in fetching movies", Some(false)), s)
  {
  }

  /** What `ServePage` promises for a normalised pair: the contract `getLimitedMovies` passes on. */
  ghost predicate ServesPage(s: State, page: int, limit: int, now: int, o: Outcome) {
    var key := Keys.PageKey(page, limit);
    var n := |s.store.records|;
    && o.next.store == s.store
    && (forall k :: k != key ==> (k in o.next.cache <==> k in s.cache))
    && (forall k :: k != key && k in s.cache ==> o.next.cache[k] == s.cache[k])
    && (Cache.Lookup(s.cache, key, now).Some? ==>
          && o.next == s
          && (Cache.Lookup(s.cache, key, now) != Some(Cache.Corrupt) ==>
                o.reply == Reply(200, "Movies fetched from cache", Cache.Lookup(s.cache, key, now), Some(true)))
          && (Cache.Lookup(s.cache, key, now) == Some(Cache.Corrupt) ==> o.reply.code == 500))
    && (Cache.Lookup(s.cache, key, now).None? ==>
          && (o.reply.code == 200 ==>
                && o.reply.data.Some? && o.reply.data.value.MovieList?
                && o.next.cache == Cache.SetEx(s.cache, key, o.reply.data.value, now))
          && (o.reply.code != 200 ==> o.next == s))
    && (Cache.Lookup(s.cache, key, now).None? && page >= 1 && limit >= 1 ==>
          && (o.reply.code == 404 <==> Skip(page, limit) >= n)
          && (o.reply.code == 404 ==> o.next == s)
          && (Skip(page, limit) < n ==>
                var movies := Store.Ordered(s.store)[Skip(page, limit) .. Store.Min(n, Skip(page, limit) + limit)];
                && o.reply == Reply(200, "Movies fetched successfully", Some(Cache.MovieList(movies)), Some(true))
                && o.next.cache == Cache.SetEx(s.cache, key, Cache.MovieList(movies), now)))
    && (Cache.Lookup(s.cache, key, now).None? && limit < 0 && page > 1 ==>
          o.reply.code == 500 && o.next == s)
  }

  lemma ServePageFacts(s: State, page: int, limit: int, now: int)
    ensures ServesPage(s, page, limit, now, ServePage(s, page, limit, now))
  {
    var key := Keys.PageKey(page, limit);
    ServePageLocal(s, page, limit, now);
    if Cache.Lookup(s.cache, key, now).Some? {
      ServePageHit(s, page, limit, now);
    } else {
      ServePageFill(s, page, limit, now);
      if page >= 1 && limit >= 1 {
        ServePageMiss(s, page, limit, now);
      } else if page > 1 && limit < 0 {
        ServePageNegativeLimit(s, page, limit, now);
      }
    }
  }

  /**
   * `getLimitedMovies`: read-through over the page key. A hit answers from the
   * cache and changes nothing; a miss reads the window of the ascending
   * listing and, when it is not empty, stores it under the page key for an
   * hour. No other cache key and nothing in the store changes.
   */
  function GetLimitedMovies(s: State, pageQ: Option<string>, limitQ: Option<string>, now: int): (o: Outcome)
    ensures ServesPage(s, NormalisePage(pageQ), NormaliseLimit(limitQ), now, o)
  {
    var page := NormalisePage(pageQ);
    var limit := NormaliseLimit(limitQ);
    ServePageFacts(s, page, limit, now);
    ServePage(s, page, limit, now)
  }

  /** The pages of one limit, first to `count`-th, laid end to end. */
  function PagesUpTo(t: Store.Table, limit: int, count: nat): seq<Store.Movie>
    requires limit >= 1
  {
    if count == 0 then []
    else
      var page := Store.FindPage(t, Skip(count, limit), limit);
      PagesUpTo(t, limit, count - 1) + (if page.Success? then page.value else [])
  }

  /** Page `count` of a positive limit is the slice of the listing just after the previous pages. */
  lemma PageIsSlice(t: Store.Table, limit: int, count: nat)
    requires limit >= 1 && count >= 1
    ensures var all := Store.Ordered(t);
            Store.FindPage(t, Skip(count, limit), limit)
              == Success(all[Store.Min(|all|, Skip(count, limit)) .. Store.Min(|all|, Skip(count + 1, limit))])
  {
    SkipNext(count, limit);
    Store.ForwardWindowIsSlice(Store.Ordered(t), Skip(count, limit), limit);
  }

  /**
   * Pages 1..count of a positive limit tile the ascending listing: together
   * they are its first `Skip(count + 1, limit)`, that is `count * limit`, records.
   */
  lemma {:induction false} PagesTileListing(t: Store.Table, limit: int, count: nat)
    requires limit >= 1
    ensures PagesUpTo(t, limit, count) == Store.Ordered(t)[..Store.Min(|Store.Ordered(t)|, Skip(count + 1, limit))]
  {
    if count > 0 {
      var all := Store.Ordered(t);
      var lo := Store.Min(|all|, Skip(count, limit));
      var hi := Store.Min(|all|, Skip(count + 1, limit));
      PagesTileListing(t, limit, count - 1);
      assert PagesUpTo(t, limit, count - 1) == all[..lo];
      PageIsSlice(t, limit, count);
      assert PagesUpTo(t, limit, count) == all[..lo] + all[lo..hi];
      SkipNext(count, limit);
      Store.SlicesJoin(all, lo, hi);
    }
  }

  /** Enough pages reproduce exactly what `getAllMovies` lists. */
  lemma PagesCoverAllMovies(s: State, limit: int, count: nat)
    requires limit >= 1
    requires count * limit >= |s.store.records| > 0
    ensures GetAllMovies(s).reply.data == Some(Cache.MovieList(PagesUpTo(s.store, limit, count)))
  {
    PagesTileListing(s.store, limit, count);
    SkipNext(count, limit);
    assert Store.Ordered(s.store)[..|Store.Ordered(s.store)|] == Store.Ordered(s.store);
  }

  /**
   * Twenty-five movies with ids 1..25, twenty to a page, nothing cached: the
   * first read lists ids 1..20 and caches them under the page-1 key; a read of
   * page 2 after it lists ids 21..25.
   */
  lemma TwentyFiveMovieScenario(s: State, now: int)
    requires forall id :: id in s.store.records <==> 1 <= id <= 25
    requires Cache.Lookup(s.cache, Keys.PageKey(1, 20), now).None?
    requires Cache.Lookup(s.cache, Keys.PageKey(2, 20), now).None?
    ensures var first := ServePage(s, 1, 20, now);
            && first.reply.data.Some? && first.reply.data.value.MovieList?
            && |first.reply.data.value.movies| == 20
            && (forall i :: 0 <= i < 20 ==> first.reply.data.value.movies[i] == s.store.records[i + 1])
            && first.next.cache == Cache.SetEx(s.cache, Keys.PageKey(1, 20), first.reply.data.value, now)
    ensures var second := ServePage(ServePage(s, 1, 20, now).next, 2, 20, now);
            && second.reply.data.Some? && second.reply.data.value.MovieList?
            && |second.reply.data.value.movies| == 5
            && (forall i :: 0 <= i < 5 ==> second.reply.data.value.movies[i] == s.store.records[i + 21])
  {
    assert Skip(1, 20) == 0 && Skip(2, 20) == 20;
    Store.DenseListing(s.store, 25);
    var all := Store.Ordered(s.store);
    ServePageMiss(s, 1, 20, now);
    var first := ServePage(s, 1, 20, now);
    assert first.reply.data == Some(Cache.MovieList(all[0..20]));
    assert first.next.store == s.store;
    assert Cache.Lookup(first.next.cache, Keys.PageKey(2, 20), now).None? by {
      if Keys.PageKey(2, 20) == Keys.PageKey(1, 20) {
        Keys.PageKeyInjective(2, 20, 1, 20);
      }
    }
    ServePageMiss(first.next, 2, 20, now);
    var second := ServePage(first.next, 2, 20, now);
    assert second.reply.data == Some(Cache.MovieList(all[20..25]));
    forall i | 0 <= i < 5
      ensures second.reply.data.value.movies[i] == s.store.records[i + 21]
    {
      assert all[20..25][i] == all[20 + i];
    }
  }

  /** The page key depends on the normalised pair only: requests that normalise alike are answered alike. */
  lemma SameNormalisationSameOutcome(s: State, p1: Option<string>, l1: Option<string>, p2: Option<string>, l2: Option<string>, now: int)
    requires NormalisePage(p1) == NormalisePage(p2)
    requires NormaliseLimit(l1) == NormaliseLimit(l2)
    ensures GetLimitedMovies(s, p1, l1, now) == GetLimitedMovies(s, p2, l2, now)
  {
  }

  /** `?page=0&limit=500` is served exactly like `?page=1&limit=100`. */
  lemma ClampedRequestsAgree(s: State, now: int)
    ensures GetLimitedMovies(s, Some("0"), Some("500"), now) == GetLimitedMovies(s, Some("1"), Some("100"), now)
  {
    ClampedExample();
    SameNormalisationSameOutcome(s, Some("0"), Some("500"), Some("1"), Some("100"), now);
  }

  /** A page filled on a miss is served from the cache, unchanged, until its hour is up. */
  lemma PageReadThenHit(s: State, pageQ: Option<string>, limitQ: Option<string>, now: int, later: int)
    requires Cache.Lookup(s.cache, Keys.PageKey(NormalisePage(pageQ), NormaliseLimit(limitQ)), now).None?
    requires GetLimitedMovies(s, pageQ, limitQ, now).reply.code == 200
    requires now <= later < now + Cache.Ttl
    ensures var first := GetLimitedMovies(s, pageQ, limitQ, now);
            var second := GetLimitedMovies(first.next, pageQ, limitQ, later);
            && second.reply == first.reply.(message := "Movies fetched from cache")
            && second.next == first.next
  {
    var key := Keys.PageKey(NormalisePage(pageQ), NormaliseLimit(limitQ));
    var first := GetLimitedMovies(s, pageQ, limitQ, now);
    assert first.next.cache == Cache.SetEx(s.cache, key, first.reply.data.value, now);
    assert Cache.Lookup(first.next.cache, key, later) == first.reply.data;
  }

  // ---------------------------------------------------------------------------
  // getMovieId
  // ---------------------------------------------------------------------------

  /**
   * `getMovieId` as written. The `findUnique` query is never awaited, so the
   * store is never read: a miss caches, and answers with, the serialisation
   * of the pending query object. An empty id draws a 400 but the handler runs on.
   */
  function GetMovieId(s: State, movieId: string, now: int): (o: Outcome)
    ensures var key := Keys.ItemKey(movieId);
            && o.next.store == s.store
            && (movieId == "" ==> o.reply == Plain(400, "movie id is required", Some(false)))
            && (Cache.Lookup(s.cache, key, now).Some? ==>
                  && o.next == s
                  && (movieId != "" && Cache.Lookup(s.cache, key, now) != Some(Cache.Corrupt) ==>
                        o.reply == Reply(200, "Movie fetched from cache", Cache.Lookup(s.cache, key, now), Some(true)))
                  && (movieId != "" && Cache.Lookup(s.cache, key, now) == Some(Cache.Corrupt) ==> o.reply.code == 500))
            && (Cache.Lookup(s.cache, key, now).None? ==>
                  && o.next.cache == Cache.SetEx(s.cache, key, Cache.UnresolvedQuery, now)
                  && (movieId != "" ==> o.reply == Reply(200, "Movie fetched successfully", Some(Cache.UnresolvedQuery), Some(true))))
  {
    var key := Keys.ItemKey(movieId);
    var rest :=
      match Cache.Lookup(s.cache, key, now)
      case Some(p) => ServeCached(p, "Movie fetched from cache", Plain(500, "Error in fetching movie", Some(false)), s)
      case None =>
        Outcome(Reply(200, "Movie fetched successfully", Some(Cache.UnresolvedQuery), Some(true)),
                s.(cache := Cache.SetEx(s.cache, key, Cache.UnresolvedQuery, now)));
    if movieId == "" then Outcome(Plain(400, "movie id is required", Some(false)), rest.next) else rest
  }

  /** The store plays no part in `getMovieId` as written. */
  lemma GetMovieIdIgnoresStore(c: Cache.Cache, t1: Store.Table, t2: Store.Table, movieId: string, now: int)
    ensures GetMovieId(State(c, t1), movieId, now).reply == GetMovieId(State(c, t2), movieId, now).reply
    ensures GetMovieId(State(c, t1), movieId, now).next.cache == GetMovieId(State(c, t2), movieId, now).next.cache
  {
  }

  /**
   * The lookup that is never awaited loses the record: with movie 5 in the
   * store and nothing cached, the reply carries no record, and for the next
   * hour the cache answers every read of movie 5 with the same empty object.
   */
  lemma UnawaitedLookupLosesRecord(m: Store.Movie, later: int)
    requires m.id == 5
    requires 0 <= later < Cache.Ttl
    ensures var s := State(map[], Store.Table(map[5 := m], 6));
            var first := GetMovieId(s, "5", 0);
            var second := GetMovieId(first.next, "5", later);
            && first.reply.data == Some(Cache.UnresolvedQuery)
            && first.reply.data != Some(Cache.MovieRecord(m))
            && second.reply.data == Some(Cache.UnresolvedQuery)
            && second.next == first.next
  {
    var s := State(map[], Store.Table(map[5 := m], 6));
    assert Cache.Lookup(s.cache, Keys.ItemKey("5"), 0).None?;
  }

  /**
   * `getMovieId` with the lookup awaited and every early reply returned. A found record is cached for an hour; an id that
   * is not in the store is a 404 with no cache write; an id the ORM cannot
   * take (NaN) is a 500.
   */
  function GetMovieIdAwaited(s: State, movieId: string, now: int): (o: Outcome)
    ensures var key := Keys.ItemKey(movieId);
            && o.next.store == s.store
            && (movieId == "" ==> o == Outcome(Plain(400, "movie id is required", Some(false)), s))
            && (movieId != "" && Cache.Lookup(s.cache, key, now).Some? ==> o.next == s)
            && (movieId != "" && Cache.Lookup(s.cache, key, now).None? ==>
                  match JsNumbers.ToNumber(movieId)
                  case None => o.reply.code == 500 && o.next == s
                  case Some(id) =>
                    && (id in s.store.records ==>
                          && o.reply == Reply(200, "Movie fetched successfully", Some(Cache.MovieRecord(s.store.records[id])), Some(true))
                          && o.next.cache == Cache.SetEx(s.cache, key, Cache.MovieRecord(s.store.records[id]), now))
                    && (id !in s.store.records ==> o.reply.code == 404 && o.next == s))
  {
    var key := Keys.ItemKey(movieId);
    if movieId == "" then Outcome(Plain(400, "movie id is required", Some(false)), s)
    else
      match Cache.Lookup(s.cache, key, now)
      case Some(p) => ServeCached(p, "Movie fetched from cache", Plain(500, "Error in fetching movie", Some(false)), s)
      case None =>
        match JsNumbers.ToNumber(movieId)
        case None => Outcome(Plain(500, "Error in fetching movie", Some(false)), s)
        case Some(id) =>
          match Store.FindUnique(s.store, id)
          case None => Outcome(Plain(404, "Movie not found", None), s)
          case Some(m) =>
            Outcome(Reply(200, "Movie fetched successfully", Some(Cache.MovieRecord(m)), Some(true)),
                    s.(cache := Cache.SetEx(s.cache, key, Cache.MovieRecord(m), now)))
  }

  /** With the lookup awaited, two reads in a row return the record both times and the second changes nothing. */
  lemma AwaitedReadIsStable(s: State, id: nat, now: int, later: int)
    requires id in s.store.records
    requires Cache.Lookup(s.cache, Keys.ItemKey(JsNumbers.DecimalString(id)), now).None?
    requires now <= later < now + Cache.Ttl
    ensures var raw := JsNumbers.DecimalString(id);
            var first := GetMovieIdAwaited(s, raw, now);
            var second := GetMovieIdAwaited(first.next, raw, later);
            && first.reply.data == Some(Cache.MovieRecord(s.store.records[id]))
            && second.reply.data == first.reply.data
            && second.next == first.next
  {
    var raw := JsNumbers.DecimalString(id);
    var key := Keys.ItemKey(raw);
    var m := s.store.records[id];
    JsNumbers.NumberOfRendered(id);
    var first := GetMovieIdAwaited(s, raw, now);
    assert first.next == s.(cache := Cache.SetEx(s.cache, key, Cache.MovieRecord(m), now));
    Cache.SetThenLookup(s.cache, key, Cache.MovieRecord(m), now, later);
    assert Cache.Lookup(first.next.cache, key, later) == Some(Cache.MovieRecord(m));
  }

  // ---------------------------------------------------------------------------
  // deleteMovies
  // ---------------------------------------------------------------------------

  /**
   * `deleteMovies`: the movie key is deleted when it holds a hit, before the
   * store delete runs, so it is gone whether or not the store delete
   * succeeds. The ORM's delete throws on a missing record, and the catch
   * block answers 500.
   */
  function DeleteMovie(s: State, movieId: string, now: int): (o: Outcome)
    ensures var key := Keys.ItemKey(movieId);
            && Cache.Lookup(o.next.cache, key, now).None?
            && (forall k :: k != key ==> (k in o.next.cache <==> k in s.cache))
            && (forall k :: k != key && k in s.cache ==> o.next.cache[k] == s.cache[k])
            && (Cache.Lookup(s.cache, key, now).None? ==> o.next.cache == s.cache)
            && (movieId == "" ==> o.reply == Plain(400, "movie id is required", Some(false)))
            && match JsNumbers.ToNumber(movieId)
               case Some(id) =>
                 && (id in s.store.records ==>
                       && o.next.store.records == s.store.records - {id}
                       && o.next.store.nextId == s.store.nextId
                       && (movieId != "" ==>
                             o.reply == Reply(200, "movie deleted successfully", Some(Cache.MovieRecord(s.store.records[id])), Some(true))))
                 && (id !in s.store.records ==> o.next.store == s.store && (movieId != "" ==> o.reply.code == 500))
               case None => o.next.store == s.store && o.reply.code == 500
  {
    var key := Keys.ItemKey(movieId);
    var cache := if Cache.Lookup(s.cache, key, now).Some? then Cache.Del(s.cache, key) else s.cache;
    var failed := Outcome(Plain(500, "error in deleting movies", None), State(cache, s.store));
    var rest :=
      match JsNumbers.ToNumber(movieId)
      case None => failed
      case Some(id) =>
        match Store.Delete(s.store, id)
        case Failure(_) => failed
        case Success((m, t)) =>
          Outcome(Reply(200, "movie deleted successfully", Some(Cache.MovieRecord(m)), Some(true)), State(cache, t));
    if movieId == "" then Outcome(Plain(400, "movie id is required", Some(false)), rest.next) else rest
  }

  /** Deleting a movie leaves every page entry as it was, so a cached page may still list the deleted movie. */
  lemma DeleteKeepsPageEntries(s: State, movieId: string, now: int, page: int, limit: int, at: int)
    ensures Cache.Lookup(DeleteMovie(s, movieId, now).next.cache, Keys.PageKey(page, limit), at)
              == Cache.Lookup(s.cache, Keys.PageKey(page, limit), at)
  {
    Keys.ItemKeyNeverPageKey(movieId, page, limit);
  }

  /** A second delete of the same id finds nothing to invalidate and leaves the cache as it is. */
  lemma DeleteTwiceSameCache(s: State, movieId: string, now: int)
    ensures var first := DeleteMovie(s, movieId, now);
            DeleteMovie(first.next, movieId, now).next.cache == first.next.cache
  {
  }

  /** After a successful delete, the awaited read reports 404 and writes nothing to the cache. */
  lemma DeleteThenReadIsNotFound(s: State, id: nat, now: int, later: int)
    requires id in s.store.records
    requires now <= later
    ensures var raw := JsNumbers.DecimalString(id);
            var deleted := DeleteMovie(s, raw, now);
            var read := GetMovieIdAwaited(deleted.next, raw, later);
            && deleted.reply.code == 200
            && read.reply.code == 404
            && read.next == deleted.next
  {
    var raw := JsNumbers.DecimalString(id);
    JsNumbers.NumberOfRendered(id);
    var deleted := DeleteMovie(s, raw, now);
    var key := Keys.ItemKey(raw);
    assert Cache.Lookup(deleted.next.cache, key, later).None? by {
      if key in deleted.next.cache {
        assert key in s.cache && deleted.next.cache[key] == s.cache[key];
        assert Cache.Lookup(s.cache, key, now).None?;
      }
    }
  }

  // ---------------------------------------------------------------------------
  // postMovie
  // ---------------------------------------------------------------------------

  /** The request body fields the handler reads; `details` holds the optional columns. */
  datatype MovieBody = MovieBody(title: Option<string>, streamingUrl: Option<string>, details: Store.Details)

  /** A body string field is truthy when present and non-empty. */
  predicate Truthy(v: Option<string>) {
    v.Some? && v.value != ""
  }

  /**
   * `postMovie`: a body without a title or a streaming URL is refused. A
   * cached `movie_{title}` answers the request and nothing is created;
   * otherwise the store creates the record and it is cached under the title
   * key for an hour.
   */
  function PostMovie(s: State, body: MovieBody, now: int): (o: Outcome)
    ensures !Truthy(body.title) || !Truthy(body.streamingUrl) ==>
              o == Outcome(Plain(400, "Title and streaming URL are required", Some(false)), s)
    ensures Truthy(body.title) && Truthy(body.streamingUrl) ==>
              var key := Keys.ItemKey(body.title.value);
              && (Cache.Lookup(s.cache, key, now).Some? ==>
                    && o.next == s
                    && (Cache.Lookup(s.cache, key, now) != Some(Cache.Corrupt) ==>
                          o.reply == Reply(200, "Movie fetched from cache", Cache.Lookup(s.cache, key, now), Some(true)))
                    && (Cache.Lookup(s.cache, key, now) == Some(Cache.Corrupt) ==> o.reply.code == 500))
              && (Cache.Lookup(s.cache, key, now).None? && s.store.nextId !in s.store.records ==>
                    var m := Store.Movie(s.store.nextId, body.title.value, body.streamingUrl.value, body.details);
                    && o.reply == Reply(201, "Movie created successfully", Some(Cache.MovieRecord(m)), Some(true))
                    && o.next.store.records.Keys == s.store.records.Keys + {m.id}
                    && o.next.store.records[m.id] == m
                    && (forall id :: id in s.store.records ==> o.next.store.records[id] == s.store.records[id])
                    && o.next.cache == Cache.SetEx(s.cache, key, Cache.MovieRecord(m), now))
              && (Cache.Lookup(s.cache, key, now).None? && s.store.nextId in s.store.records ==>
                    o.reply.code == 500 && o.next.cache == s.cache && o.next.store.records == s.store.records)
  {
    if !Truthy(body.title) || !Truthy(body.streamingUrl) then
      Outcome(Plain(400, "Title and streaming URL are required", Some(false)), s)
    else
      var title := body.title.value;
      var key := Keys.ItemKey(title);
      match Cache.Lookup(s.cache, key, now)
      case Some(p) => ServeCached(p, "Movie fetched from cache", Plain(500, "server error while creating movie", None), s)
      case None =>
        var (created, t) := Store.Create(s.store, title, body.streamingUrl.value, body.details);
        match created
        case Failure(_) => Outcome(Plain(500, "server error while creating movie", None), s.(store := t))
        case Success(m) =>
          Outcome(Reply(201, "Movie created successfully", Some(Cache.MovieRecord(m)), Some(true)),
                  State(Cache.SetEx(s.cache, key, Cache.MovieRecord(m), now), t))
  }

  /** Posting the same title again within the hour returns the record already created and creates no duplicate. */
  lemma RepeatPostCreatesNoDuplicate(s: State, body: MovieBody, now: int, later: int)
    requires Store.Valid(s.store)
    requires Truthy(body.title) && Truthy(body.streamingUrl)
    requires Cache.Lookup(s.cache, Keys.ItemKey(body.title.value), now).None?
    requires now <= later < now + Cache.Ttl
    ensures var first := PostMovie(s, body, now);
            var second := PostMovie(first.next, body, later);
            && first.reply.code == 201
            && |first.next.store.records| == |s.store.records| + 1
            && second.reply.code == 200
            && second.reply.data == first.reply.data
            && second.next == first.next
  {
    var first := PostMovie(s, body, now);
    var m := first.reply.data.value.movie;
    assert first.next.store.records.Keys == s.store.records.Keys + {m.id};
    assert |first.next.store.records.Keys| == |s.store.records.Keys| + 1;
  }

  /**
   * Titles and ids share the `movie_` namespace: once a read of id "7" has
   * cached its answer, posting a movie titled "7" within the hour is answered
   * from that entry and creates nothing.
   */
  lemma PostShadowedByItemRead(s: State, body: MovieBody, now: int, later: int)
    requires Truthy(body.title) && Truthy(body.streamingUrl)
    requires Cache.Lookup(s.cache, Keys.ItemKey(body.title.value), now).None?
    requires now <= later < now + Cache.Ttl
    ensures var read := GetMovieId(s, body.title.value, now);
            var post := PostMovie(read.next, body, later);
            && post.next == read.next
            && post.reply == Reply(200, "Movie fetched from cache", Some(Cache.UnresolvedQuery), Some(true))
  {
    var key := Keys.ItemKey(body.title.value);
    var read := GetMovieId(s, body.title.value, now);
    assert read.next.cache[key] == Cache.Entry(Cache.UnresolvedQuery, now + Cache.Ttl);
    assert Cache.Lookup(read.next.cache, key, later) == Some(Cache.UnresolvedQuery);
  }

  // ---------------------------------------------------------------------------
  // The store invariant
  // ---------------------------------------------------------------------------

  /** Deleting and posting keep the autoincrement discipline of the store; the reads leave the store alone. */
  lemma WritesKeepStoreValid(s: State, movieId: string, body: MovieBody, now: int)
    requires Store.Valid(s.store)
    ensures Store.Valid(DeleteMovie(s, movieId, now).next.store)
    ensures Store.Valid(PostMovie(s, body, now).next.store)
  {
    DeleteKeepsStoreValid(s, movieId, now);
    if Truthy(body.title) && Truthy(body.streamingUrl) {
      Store.CreateDeleteKeepValid(s.store, body.title.value, body.streamingUrl.value, body.details, 0);
    }
  }

  lemma DeleteKeepsStoreValid(s: State, movieId: string, now: int)
    requires Store.Valid(s.store)
    ensures Store.Valid(DeleteMovie(s, movieId, now).next.store)
  {
    var t := DeleteMovie(s, movieId, now).next.store;
    match JsNumbers.ToNumber(movieId)
    case None =>
      assert t == s.store;
    case Some(id) =>
      if id in s.store.records {
        assert t.records == s.store.records - {id} && t.nextId == s.store.nextId;
      } else {
        assert t == s.store;
      }
  }
}
