/**
 * `orderBy(column, 'desc')`: the rows of a query, newest first by a timestamp column.
 * Rows with equal keys keep their table order (the database leaves their order open;
 * this model fixes one).
 */
module Sorting {

  /** No row is followed by one with a larger key. */
  predicate SortedDesc<T>(xs: seq<T>, key: T -> int) {
    forall i, j :: 0 <= i < j < |xs| ==> key(xs[i]) >= key(xs[j])
  }

  /** Every row of `xs` has a key of at most `k`. */
  predicate KeysAtMost<T>(xs: seq<T>, key: T -> int, k: int) {
    forall i :: 0 <= i < |xs| ==> key(xs[i]) <= k
  }

  /** Put `x` in front of the first row whose key is not larger than its own. */
  function InsertDesc<T>(x: T, xs: seq<T>, key: T -> int): (r: seq<T>)
    requires SortedDesc(xs, key)
    ensures SortedDesc(r, key)
    ensures multiset(r) == multiset(xs) + multiset{x}
    ensures forall k :: KeysAtMost(xs, key, k) && key(x) <= k ==> KeysAtMost(r, key, k)
  {
    if xs == [] then [x]
    else if key(x) >= key(xs[0]) then [x] + xs
    else
      var rest := InsertDesc(x, xs[1..], key);
      assert xs == [xs[0]] + xs[1..];
      assert KeysAtMost(xs[1..], key, key(xs[0]));
      assert KeysAtMost(rest, key, key(xs[0]));
      [xs[0]] + rest
  }

  /** The rows of `xs` in descending order of `key`: a sorted permutation of the input. */
  function SortDesc<T>(xs: seq<T>, key: T -> int): (r: seq<T>)
    ensures SortedDesc(r, key)
    ensures multiset(r) == multiset(xs)
    ensures |r| == |xs|
  {
    if xs == [] then []
    else
      assert xs == [xs[0]] + xs[1..];
      InsertDesc(xs[0], SortDesc(xs[1..], key), key)
  }

  /** Sorting keeps exactly the rows it was given. */
  lemma SortDescMembers<T>(xs: seq<T>, key: T -> int)
    ensures forall x :: x in SortDesc(xs, key) <==> x in xs
  {
    var r := SortDesc(xs, key);
    forall x ensures x in r <==> x in xs {
      assert x in r <==> x in multiset(r);
      assert x in xs <==> x in multiset(xs);
    }
  }
}
