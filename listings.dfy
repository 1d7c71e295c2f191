/**
 * The two query shapes the moderation controllers repeat for each status: a filtered list
 * ordered newest first, and a single row looked up by id and status.
 */
module Listings {
  import opened Wrappers
  import opened Http
  import opened Tables
  import opened Sorting

  /** The sort key of an (id, row) pair: the key of its row. */
  function KeyOf<T>(key: T -> int): ((Id, T)) -> int {
    (q: (Id, T)) => key(q.1)
  }

  /** `where(p)->orderBy(key, 'desc')->get()`, as (id, row) pairs. */
  function Listing<T(==,!new)>(rows: seq<T>, p: T -> bool, key: T -> int): (r: seq<(Id, T)>)
    ensures forall id, row :: (id, row) in r <==> HasRow(rows, id) && rows[id - 1] == row && p(row)
    ensures forall i, j :: 0 <= i < j < |r| ==> key(r[i].1) >= key(r[j].1)
    ensures |r| <= |rows|
    ensures UniqueIds(r)
  {
    IndexedMembers(rows);
    var keep := (q: (Id, T)) => p(q.1);
    var matching := Where(Indexed(rows), keep);
    SortDescMembers(matching, KeyOf(key));
    var sorted := SortDesc(matching, KeyOf(key));
    WhereIndexedOnce(rows, keep);
    PermutationNoDuplicates(matching, sorted);
    RowsOnce(rows, sorted);
    assert forall i, j :: 0 <= i < j < |sorted| ==> KeyOf(key)(sorted[i]) >= KeyOf(key)(sorted[j]);
    sorted
  }

  /** `where('id', id)->where(p)->first()`, answering 404 when there is no such row. */
  function Lookup<T>(rows: seq<T>, id: Id, p: T -> bool): (r: Response<T>)
    ensures r.Ok? <==> HasRow(rows, id) && p(rows[id - 1])
    ensures r.Ok? ==> r.value == rows[id - 1]
    ensures r.Fail? ==> r.failure == NotFound
  {
    if HasRow(rows, id) && p(rows[id - 1]) then Ok(rows[id - 1]) else Fail(NotFound)
  }
}
