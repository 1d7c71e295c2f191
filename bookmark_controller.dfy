/**
 * `BookmarkController`: a user's bookmarks are pairs (user id, blog id) of the
 * `blog_user_bookmarks` pivot table; `toggle` adds or removes one pair, `index` lists the
 * bookmarked blogs newest first.
 */
module BookmarkController {
  import opened Wrappers
  import opened Http
  import opened Tables
  import opened Schema
  import opened Sorting

  const Removed: string := "Bookmark removed"
  const Added: string := "Bookmark added"

  /** `detach` when the pair is present, `attach` when it is not. */
  function Toggled(bookmarks: set<(Id, Id)>, pair: (Id, Id)): (r: set<(Id, Id)>)
    ensures pair in r <==> pair !in bookmarks
    ensures forall q :: q != pair ==> (q in r <==> q in bookmarks)
  {
    if pair in bookmarks then bookmarks - {pair} else bookmarks + {pair}
  }

  /** Toggling the same bookmark twice restores the table. */
  lemma ToggleTwice(bookmarks: set<(Id, Id)>, pair: (Id, Id))
    ensures Toggled(Toggled(bookmarks, pair), pair) == bookmarks
  {
    var twice := Toggled(Toggled(bookmarks, pair), pair);
    forall q ensures q in twice <==> q in bookmarks {
    }
  }

  /** Toggles of different bookmarks can be done in either order. */
  lemma ToggleCommutes(bookmarks: set<(Id, Id)>, p: (Id, Id), q: (Id, Id))
    ensures Toggled(Toggled(bookmarks, p), q) == Toggled(Toggled(bookmarks, q), p)
  {
    var a := Toggled(Toggled(bookmarks, p), q);
    var b := Toggled(Toggled(bookmarks, q), p);
    forall x ensures x in a <==> x in b {
    }
  }

  /**
   * `toggle`: the blog must exist (404 otherwise, looked up before the caller is used); the caller's bookmark of it is removed when
   * present and added when absent, and the message says which. No other pair changes.
   */
  method Toggle(db: Database, caller: Option<Id>, blogId: Id) returns (r: Response<string>)
    modifies db`bookmarks
    ensures !HasRow(db.blogs, blogId) ==> r == Fail(NotFound) && unchanged(db)
    ensures HasRow(db.blogs, blogId) && !IsCaller(db.users, caller) ==> r == Fail(Unauthenticated) && unchanged(db)
    ensures IsCaller(db.users, caller) && HasRow(db.blogs, blogId) ==>
              db.bookmarks == Toggled(old(db.bookmarks), (caller.value, blogId)) &&
              r == Ok(if (caller.value, blogId) in old(db.bookmarks) then Removed else Added)
  {
    if !HasRow(db.blogs, blogId) {
      return Fail(NotFound);
    }
    if !IsCaller(db.users, caller) {
      return Fail(Unauthenticated);
    }
    var pair := (caller.value, blogId);
    if pair in db.bookmarks {
      db.bookmarks := db.bookmarks - {pair};
      r := Ok(Removed);
    } else {
      db.bookmarks := db.bookmarks + {pair};
      r := Ok(Added);
    }
  }

  /** The blogs a user bookmarked, as (id, row) pairs. */
  function BookmarkedBy(blogs: seq<Blog>, bookmarks: set<(Id, Id)>, uid: Id): ((Id, Blog)) -> bool {
    (q: (Id, Blog)) => (uid, q.0) in bookmarks
  }

  /** The sort key of `latest()`: the blog's `created_at`. */
  function BlogCreatedAt(q: (Id, Blog)): int {
    q.1.createdAt
  }

  /** The caller's bookmarked blogs, ordered by creation time, newest first. */
  function Index(users: seq<User>, blogs: seq<Blog>, bookmarks: set<(Id, Id)>, caller: Option<Id>)
    : (r: Response<seq<(Id, Blog)>>)
    ensures r.Fail? <==> !IsCaller(users, caller)
    ensures r.Fail? ==> r.failure == Unauthenticated
    ensures r.Ok? ==> forall id, b :: (id, b) in r.value <==>
                        HasRow(blogs, id) && blogs[id - 1] == b && (caller.value, id) in bookmarks
    ensures r.Ok? ==> forall i, j :: 0 <= i < j < |r.value| ==> r.value[i].1.createdAt >= r.value[j].1.createdAt
    ensures r.Ok? ==> UniqueIds(r.value)
  {
    if !IsCaller(users, caller) then Fail(Unauthenticated)
    else
      IndexedMembers(blogs);
      var keep := BookmarkedBy(blogs, bookmarks, caller.value);
      var matching := Where(Indexed(blogs), keep);
      SortDescMembers(matching, BlogCreatedAt);
      var sorted := SortDesc(matching, BlogCreatedAt);
      WhereIndexedOnce(blogs, keep);
      PermutationNoDuplicates(matching, sorted);
      RowsOnce(blogs, sorted);
      assert forall i, j :: 0 <= i < j < |sorted| ==> BlogCreatedAt(sorted[i]) >= BlogCreatedAt(sorted[j]);
      Ok(sorted)
  }
}
