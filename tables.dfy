/**
 * Generic operations on an in-memory table (a sequence of rows in primary-key order), as
 * Eloquent's query builder performs them: lookup by auto-increment id, `where(...)->get()`,
 * `where(...)->first()`, `where(...)->count()`, `updateOrCreate`, and `where(...)->update(...)`.
 */
module Tables {
  import opened Wrappers

  /** A primary key or a foreign key as it arrives in a request (any integer). */
  type Id = int

  /**
   * Tables whose rows are never deleted have ids 1, 2, 3, ... in insertion order,
   * so the row with id `id` sits at position `id - 1`.
   */
  predicate HasRow<T>(table: seq<T>, id: Id) {
    1 <= id <= |table|
  }

  /** `Model::find(id)`. */
  function Find<T>(table: seq<T>, id: Id): Option<T> {
    if HasRow(table, id) then Some(table[id - 1]) else None
  }

  /** The id the next inserted row receives. */
  function NextId<T>(table: seq<T>): Id {
    |table| + 1
  }

  /** The table as (id, row) pairs in id order. */
  function Indexed<T>(table: seq<T>): (r: seq<(Id, T)>)
    ensures |r| == |table|
    ensures forall i :: 0 <= i < |r| ==> r[i] == (i + 1, table[i])
    ensures UniqueIds(r)
  {
    seq(|table|, i requires 0 <= i < |table| => (i + 1, table[i]))
  }

  /** A pair is in the indexed table exactly when it names an existing row and that row. */
  lemma IndexedMembers<T>(table: seq<T>)
    ensures forall id, row :: (id, row) in Indexed(table) <==> HasRow(table, id) && table[id - 1] == row
  {
    var ix := Indexed(table);
    forall id, row | HasRow(table, id) && table[id - 1] == row
      ensures (id, row) in ix
    {
      assert ix[id - 1] == (id, row);
    }
  }

  /** `where(p)->get()`: the rows satisfying `p`, in table order. */
  function Where<T(==,!new)>(xs: seq<T>, p: T -> bool): (r: seq<T>)
    ensures |r| <= |xs|
    ensures forall x :: x in r <==> x in xs && p(x)
    ensures multiset(r) <= multiset(xs)
  {
    if xs == [] then []
    else
      assert forall x :: x in xs <==> x == xs[0] || x in xs[1..];
      assert xs == [xs[0]] + xs[1..];
      (if p(xs[0]) then [xs[0]] else []) + Where(xs[1..], p)
  }

  /** No entry occurs twice. */
  predicate NoDuplicates<T(==)>(xs: seq<T>) {
    forall i, j :: 0 <= i < j < |xs| ==> xs[i] != xs[j]
  }

  /** No id occurs twice in an (id, row) listing: every row is listed once. */
  predicate UniqueIds<T>(r: seq<(Id, T)>) {
    forall i, j :: 0 <= i < j < |r| ==> r[i].0 != r[j].0
  }

  /** A sequence has no duplicates exactly when its multiset holds every value at most once. */
  lemma {:induction false} NoDuplicatesCount<T>(xs: seq<T>)
    ensures NoDuplicates(xs) <==> forall x :: multiset(xs)[x] <= 1
  {
    if xs != [] {
      var tail := xs[1..];
      NoDuplicatesCount(tail);
      assert xs == [xs[0]] + tail;
      assert multiset(xs) == multiset{xs[0]} + multiset(tail);
      if NoDuplicates(xs) {
        assert NoDuplicates(tail) by {
          forall i, j | 0 <= i < j < |tail| ensures tail[i] != tail[j] {
            assert tail[i] == xs[i + 1] && tail[j] == xs[j + 1];
          }
        }
        assert xs[0] !in tail by {
          forall k | 0 <= k < |tail| ensures tail[k] != xs[0] {
            assert tail[k] == xs[k + 1];
          }
        }
      } else {
        var i, j :| 0 <= i < j < |xs| && xs[i] == xs[j];
        if i == 0 {
          assert tail[j - 1] == xs[0];
          assert xs[0] in multiset(tail);
          assert multiset(xs)[xs[0]] > 1;
        } else {
          assert tail[i - 1] == tail[j - 1];
          assert !NoDuplicates(tail);
          var x :| multiset(tail)[x] > 1;
          assert multiset(xs)[x] > 1;
        }
      }
    }
  }

  /** Selecting rows keeps a duplicate-free sequence duplicate-free. */
  lemma WhereNoDuplicates<T(!new)>(xs: seq<T>, p: T -> bool)
    requires NoDuplicates(xs)
    ensures NoDuplicates(Where(xs, p))
  {
    var r := Where(xs, p);
    NoDuplicatesCount(xs);
    NoDuplicatesCount(r);
    assert forall x :: multiset(r)[x] <= multiset(xs)[x];
  }

  /** Reordering keeps a duplicate-free sequence duplicate-free. */
  lemma PermutationNoDuplicates<T>(xs: seq<T>, ys: seq<T>)
    requires NoDuplicates(xs) && multiset(ys) == multiset(xs)
    ensures NoDuplicates(ys)
  {
    NoDuplicatesCount(xs);
    NoDuplicatesCount(ys);
  }

  /** A duplicate-free (id, row) listing that only holds the table's own rows lists each id once. */
  lemma RowsOnce<T>(rows: seq<T>, r: seq<(Id, T)>)
    requires NoDuplicates(r)
    requires forall id, row :: (id, row) in r ==> HasRow(rows, id) && rows[id - 1] == row
    ensures UniqueIds(r)
  {
    forall i, j | 0 <= i < j < |r| ensures r[i].0 != r[j].0 {
      assert r[i] in r && r[j] in r;
    }
  }

  /** The rows of a table that satisfy `p`, as (id, row) pairs, list every id once. */
  lemma WhereIndexedOnce<T(!new)>(table: seq<T>, p: ((Id, T)) -> bool)
    ensures NoDuplicates(Where(Indexed(table), p)) && UniqueIds(Where(Indexed(table), p))
  {
    var ix := Indexed(table);
    assert NoDuplicates(ix) by {
      forall i, j | 0 <= i < j < |ix| ensures ix[i] != ix[j] {
        assert ix[i].0 != ix[j].0;
      }
    }
    WhereNoDuplicates(ix, p);
    IndexedMembers(table);
    RowsOnce(table, Where(ix, p));
  }

  /** `where(p)->count()`. */
  function Count<T>(rows: seq<T>, p: T -> bool): nat {
    if rows == [] then 0
    else Count(rows[..|rows| - 1], p) + (if p(rows[|rows| - 1]) then 1 else 0)
  }

  /** `where(p)->first()`: the position of the first row satisfying `p`. */
  function FirstMatch<T>(rows: seq<T>, p: T -> bool): (r: Option<nat>)
    ensures r.Some? ==> r.value < |rows| && p(rows[r.value])
    ensures r.Some? ==> forall j :: 0 <= j < r.value ==> !p(rows[j])
    ensures r.None? ==> forall j :: 0 <= j < |rows| ==> !p(rows[j])
  {
    if rows == [] then None
    else if p(rows[0]) then Some(0)
    else
      match FirstMatch(rows[1..], p)
      case None => None
      case Some(k) => Some(k + 1)
  }

  /** `first()` finds the matching row that no earlier row precedes. */
  lemma {:induction false} FirstMatchAt<T>(rows: seq<T>, k: nat, p: T -> bool)
    requires k < |rows| && p(rows[k])
    requires forall j :: 0 <= j < k ==> !p(rows[j])
    ensures FirstMatch(rows, p) == Some(k)
    decreases k
  {
    if k > 0 {
      FirstMatchAt(rows[1..], k - 1, p);
    }
  }

  /** Appending a row adds one to the count exactly when the row matches. */
  lemma CountAppend<T>(rows: seq<T>, x: T, p: T -> bool)
    ensures Count(rows + [x], p) == Count(rows, p) + (if p(x) then 1 else 0)
  {
    assert (rows + [x])[..|rows|] == rows;
  }

  /** No row matches exactly when the count is zero. */
  lemma {:induction false} CountZero<T>(rows: seq<T>, p: T -> bool)
    ensures Count(rows, p) == 0 <==> forall j :: 0 <= j < |rows| ==> !p(rows[j])
    decreases |rows|
  {
    if rows != [] {
      var init := rows[..|rows| - 1];
      CountZero(init, p);
      assert forall j :: 0 <= j < |init| ==> init[j] == rows[j];
    }
  }

  /** Replacing one row changes the count by what the old and the new row contribute. */
  lemma {:induction false} CountUpdate<T>(rows: seq<T>, i: nat, x: T, p: T -> bool)
    requires i < |rows|
    ensures Count(rows[i := x], p)
         == Count(rows, p) - (if p(rows[i]) then 1 else 0) + (if p(x) then 1 else 0)
    decreases |rows|
  {
    var rows' := rows[i := x];
    var n := |rows|;
    if i < n - 1 {
      CountUpdate(rows[..n - 1], i, x, p);
      assert rows'[..n - 1] == rows[..n - 1][i := x];
    } else {
      assert rows'[..n - 1] == rows[..n - 1];
    }
  }

  /** When `k` is the only matching position, exactly one row matches. */
  lemma {:induction false} CountSingle<T>(rows: seq<T>, k: nat, p: T -> bool)
    requires k < |rows| && p(rows[k])
    requires forall j :: 0 <= j < |rows| && p(rows[j]) ==> j == k
    ensures Count(rows, p) == 1
    decreases |rows|
  {
    var n := |rows|;
    var init := rows[..n - 1];
    assert forall j :: 0 <= j < |init| ==> init[j] == rows[j];
    if k < n - 1 {
      CountSingle(init, k, p);
    } else {
      CountZero(init, p);
    }
  }

  /**
   * `updateOrCreate`: update the first matching row with `update`, or append `create`
   * when no row matches.
   */
  function UpdateOrCreate<T>(rows: seq<T>, p: T -> bool, update: T -> T, create: T): (r: seq<T>)
    ensures FirstMatch(rows, p).Some? ==>
              var i := FirstMatch(rows, p).value;
              |r| == |rows| && r[i] == update(rows[i]) &&
              forall j :: 0 <= j < |rows| && j != i ==> r[j] == rows[j]
    ensures FirstMatch(rows, p).None? ==> r == rows + [create]
  {
    match FirstMatch(rows, p)
    case Some(i) => rows[i := update(rows[i])]
    case None => rows + [create]
  }

  /**
   * When updating keeps a row matching and the created row matches, `updateOrCreate`
   * leaves at least one match and never adds a second one: the count is unchanged when
   * some row matched, and one when none did.
   */
  lemma UpdateOrCreateCount<T>(rows: seq<T>, p: T -> bool, update: T -> T, create: T)
    requires p(create)
    requires forall x :: p(x) ==> p(update(x))
    ensures Count(UpdateOrCreate(rows, p, update, create), p)
         == if Count(rows, p) == 0 then 1 else Count(rows, p)
  {
    match FirstMatch(rows, p)
    case Some(i) =>
      CountUpdate(rows, i, update(rows[i]), p);
      CountZero(rows, p);
    case None =>
      CountAppend(rows, create, p);
      CountZero(rows, p);
  }

  /** `where(p)->update(f)`: every matching row rewritten by `f`, the others kept. */
  function UpdateWhere<T>(rows: seq<T>, p: T -> bool, f: T -> T): (r: seq<T>)
    ensures |r| == |rows|
    ensures forall j :: 0 <= j < |rows| ==> r[j] == if p(rows[j]) then f(rows[j]) else rows[j]
  {
    seq(|rows|, j requires 0 <= j < |rows| => if p(rows[j]) then f(rows[j]) else rows[j])
  }
}
