/**
 * The persistent movie store behind the ORM client: records keyed by integer
 * id, ids handed out by an autoincrement counter, and the three queries the
 * controller issues (an ordered listing, a skip/take window, a create and a
 * delete). Store reads are plain synchronous reads of the map.
 */
module Store {
  import opened Wrappers

  /** The columns the cache layer never looks into. */
  datatype Details = Details(
    releaseDate: Option<string>,
    duration: Option<int>,
    description: Option<string>,
    language: Option<string>,
    country: Option<string>,
    poster: Option<string>,
    trailer: Option<string>,
    rating: Option<real>)

  datatype Movie = Movie(id: int, title: string, streaming: string, details: Details)

  datatype Table = Table(records: map<int, Movie>, nextId: int)

  /** Why the ORM rejected a call. */
  datatype StoreError = NegativeSkip | RecordNotFound | UniqueViolation

  /** The autoincrement discipline: each record sits under its own id, and every id is below the counter. */
  ghost predicate Valid(s: Table) {
    && 1 <= s.nextId
    && forall id :: id in s.records ==> s.records[id].id == id && 1 <= id < s.nextId
  }

  ghost predicate StrictlyIncreasing(xs: seq<int>) {
    forall i, j :: 0 <= i < j < |xs| ==> xs[i] < xs[j]
  }

  predicate IsLeast(m: int, ids: set<int>) {
    m in ids && forall x :: x in ids ==> m <= x
  }

  lemma {:induction false} MinExists(ids: set<int>)
    requires ids != {}
    ensures exists m :: IsLeast(m, ids)
  {
    NonEmptyHasElement(ids);
    var y :| y in ids;
    if ids != {y} {
      var rest := ids - {y};
      MinExists(rest);
      var m :| IsLeast(m, rest);
      var least := if y < m then y else m;
      forall x | x in ids
        ensures least <= x
      {
        if x != y {
          assert x in rest;
        }
      }
      assert IsLeast(least, ids);
    } else {
      assert IsLeast(y, ids);
    }
  }

  lemma NonEmptyHasElement(ids: set<int>)
    requires ids != {}
    ensures exists y :: y in ids
  {
    if forall y :: y !in ids {
      assert false;
    }
  }

  /** The smallest id of a non-empty set. */
  function MinId(ids: set<int>): (m: int)
    requires ids != {}
    ensures m in ids && forall x :: x in ids ==> m <= x
  {
    MinExists(ids);
    var m :| IsLeast(m, ids); m
  }

  /** The ids of a set in ascending order: `orderBy: { id: 'asc' }`. */
  function SortedIds(ids: set<int>): (r: seq<int>)
    ensures StrictlyIncreasing(r)
    ensures forall x :: x in ids <==> x in r
    ensures |r| == |ids|
    decreases |ids|
  {
    if ids == {} then []
    else
      var m := MinId(ids);
      var rest := SortedIds(ids - {m});
      assert forall k :: 0 <= k < |rest| ==> m < rest[k];
      [m] + rest
  }

  /** Two ascending enumerations of the same ids are the same sequence. */
  lemma {:induction false} SortedUnique(a: seq<int>, b: seq<int>)
    requires StrictlyIncreasing(a) && StrictlyIncreasing(b)
    requires forall x :: x in a <==> x in b
    ensures a == b
    decreases |a|
  {
    assert |a| > 0 ==> a[0] in a && a[0] in b;
    assert |b| > 0 ==> b[0] in b && b[0] in a;
    if |a| == 0 {
      assert |b| == 0;
    } else {
      assert a[0] in a;
      assert a[0] in b;
      assert b[0] in b;
      assert b[0] in a;
      var i :| 0 <= i < |a| && a[i] == b[0];
      var j :| 0 <= j < |b| && b[j] == a[0];
      assert a[0] == b[0];
      forall x
        ensures x in a[1..] <==> x in b[1..]
      {
        if x in a[1..] {
          assert x in b && x != b[0];
          var k :| 0 <= k < |b| && b[k] == x;
          assert b[1..][k - 1] == x;
        }
        if x in b[1..] {
          assert x in a && x != a[0];
          var k :| 0 <= k < |a| && a[k] == x;
          assert a[1..][k - 1] == x;
        }
      }
      SortedUnique(a[1..], b[1..]);
      assert a == [a[0]] + a[1..] && b == [b[0]] + b[1..];
    }
  }

  function OrderedIds(s: Table): seq<int> {
    SortedIds(s.records.Keys)
  }

  /** Every record of the store, in ascending order of id: `findMany({ orderBy: { id: 'asc' } })`. */
  function Ordered(s: Table): (r: seq<Movie>)
    ensures |r| == |s.records|
    ensures forall i :: 0 <= i < |r| ==> OrderedIds(s)[i] in s.records && r[i] == s.records[OrderedIds(s)[i]]
  {
    var ids := OrderedIds(s);
    seq(|ids|, i requires 0 <= i < |ids| => s.records[ids[i]])
  }

  /** In a valid store the listing is in strictly ascending id order. */
  lemma OrderedAscending(s: Table)
    requires Valid(s)
    ensures forall i, j :: 0 <= i < j < |Ordered(s)| ==> Ordered(s)[i].id < Ordered(s)[j].id
  {
    var r := Ordered(s);
    var ids := OrderedIds(s);
    forall i, j | 0 <= i < j < |r|
      ensures r[i].id < r[j].id
    {
      assert r[i].id == ids[i] && r[j].id == ids[j];
    }
  }

  /** Every record of the store appears in the listing. */
  lemma OrderedHasEveryRecord(s: Table, id: int)
    requires id in s.records
    ensures s.records[id] in Ordered(s)
  {
    var ids := OrderedIds(s);
    assert id in ids;
    var i :| 0 <= i < |ids| && ids[i] == id;
    assert Ordered(s)[i] == s.records[id];
  }

  /** When the ids in use are exactly 1..n, they are listed as 1, 2, ..., n. */
  lemma DenseIds(s: Table, n: nat)
    requires forall id :: id in s.records <==> 1 <= id <= n
    ensures |OrderedIds(s)| == n
    ensures forall i :: 0 <= i < n ==> OrderedIds(s)[i] == i + 1
  {
    var ids := OrderedIds(s);
    var expected := seq(n, i => i + 1);
    assert StrictlyIncreasing(expected);
    forall x
      ensures x in ids <==> x in expected
    {
      if 1 <= x <= n {
        assert expected[x - 1] == x;
      }
    }
    SortedUnique(ids, expected);
    assert forall i :: 0 <= i < n ==> expected[i] == i + 1;
  }

  /** When the ids in use are exactly 1..n, the listing's i-th record is the one with id i + 1. */
  lemma DenseListing(s: Table, n: nat)
    requires forall id :: id in s.records <==> 1 <= id <= n
    ensures |Ordered(s)| == n
    ensures forall i :: 0 <= i < n ==> Ordered(s)[i] == s.records[i + 1]
  {
    DenseIds(s, n);
    var r := Ordered(s);
    forall i | 0 <= i < n
      ensures r[i] == s.records[i + 1]
    {
      assert OrderedIds(s)[i] == i + 1;
    }
  }

  /** The listing holds nothing but records of the store. */
  lemma OrderedHasOnlyRecords(s: Table, m: Movie)
    requires m in Ordered(s)
    ensures exists id :: id in s.records && s.records[id] == m
  {
    var r := Ordered(s);
    var i :| 0 <= i < |r| && r[i] == m;
    assert OrderedIds(s)[i] in s.records;
  }

  function Min(a: int, b: int): int {
    if a < b then a else b
  }

  function Max(a: int, b: int): int {
    if a < b then b else a
  }

  /**
   * The part of a listing a skip/take query selects. A non-negative take
   * counts forward from position `skip`; a negative take counts backward from
   * `skip` places before the end, keeping the listing's order.
   */
  function Window<T>(all: seq<T>, skip: nat, take: int): (w: seq<T>)
    ensures take >= 0 ==>
              && |w| == Max(0, Min(take, |all| - skip))
              && forall i :: 0 <= i < |w| ==> w[i] == all[skip + i]
    ensures take < 0 ==>
              && |w| == Max(0, Min(-take, |all| - skip))
              && forall i :: 0 <= i < |w| ==> w[i] == all[|all| - skip - |w| + i]
  {
    var n := |all|;
    if skip >= n then []
    else if take >= 0 then all[skip .. Min(n, skip + take)]
    else all[Max(0, n - skip + take) .. n - skip]
  }

  /** A forward window is the slice of the listing between two clamped positions. */
  lemma ForwardWindowIsSlice<T>(all: seq<T>, skip: nat, take: nat)
    ensures Window(all, skip, take) == all[Min(|all|, skip) .. Min(|all|, skip + take)]
  {
  }

  lemma SlicesJoin<T>(all: seq<T>, lo: nat, hi: nat)
    requires lo <= hi <= |all|
    ensures all[..lo] + all[lo..hi] == all[..hi]
  {
  }

  /** `findMany({ skip, take, orderBy: { id: 'asc' } })`; the ORM rejects a negative skip. */
  function FindPage(s: Table, skip: int, take: int): (r: Result<seq<Movie>, StoreError>)
    ensures r.Failure? <==> skip < 0
    ensures r.Success? ==> r.value == Window(Ordered(s), skip, take)
  {
    if skip < 0 then Failure(NegativeSkip) else Success(Window(Ordered(s), skip, take))
  }

  /** `findUnique({ where: { id } })` once awaited. */
  function FindUnique(s: Table, id: int): (r: Option<Movie>)
    ensures r.Some? <==> id in s.records
    ensures r.Some? ==> r.value == s.records[id]
  {
    if id in s.records then Some(s.records[id]) else None
  }

  /**
   * `create({ data })`: the record takes the next autoincrement id. The
   * counter advances even when the insert is refused because a row already
   * holds that id.
   */
  function Create(s: Table, title: string, streaming: string, details: Details): (r: (Result<Movie, StoreError>, Table))
    ensures r.1.nextId == s.nextId + 1
    ensures r.0.Failure? <==> s.nextId in s.records
    ensures r.0.Failure? ==> r.1.records == s.records
    ensures r.0.Success? ==>
              && r.0.value == Movie(s.nextId, title, streaming, details)
              && r.1.records.Keys == s.records.Keys + {s.nextId}
              && r.1.records[s.nextId] == r.0.value
              && forall id :: id in s.records ==> r.1.records[id] == s.records[id]
  {
    var id := s.nextId;
    if id in s.records then (Failure(UniqueViolation), s.(nextId := id + 1))
    else
      var m := Movie(id, title, streaming, details);
      (Success(m), Table(s.records[id := m], id + 1))
  }

  /** `delete({ where: { id } })`: returns the removed record, or fails when there is none. */
  function Delete(s: Table, id: int): (r: Result<(Movie, Table), StoreError>)
    ensures r.Failure? <==> id !in s.records
    ensures r.Success? ==>
              && r.value.0 == s.records[id]
              && r.value.1.nextId == s.nextId
              && r.value.1.records.Keys == s.records.Keys - {id}
              && forall k :: k in r.value.1.records ==> r.value.1.records[k] == s.records[k]
  {
    if id in s.records then Success((s.records[id], Table(s.records - {id}, s.nextId)))
    else Failure(RecordNotFound)
  }

  /** Creating and deleting keep the autoincrement discipline, and a create in a valid store never collides. */
  lemma CreateDeleteKeepValid(s: Table, title: string, streaming: string, details: Details, id: int)
    requires Valid(s)
    ensures Create(s, title, streaming, details).0.Success?
    ensures Valid(Create(s, title, streaming, details).1)
    ensures Delete(s, id).Success? ==> Valid(Delete(s, id).value.1)
  {
  }
}
