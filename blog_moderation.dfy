/**
 * BlogModerationController: the in-place path of blog moderation and the moderation lists.
 * Approval and rejection need a pending blog, rewrite the blog's first active record (or
 * create one when it has none), and leave every other record alone. The validation and the
 * `findOrFail` run outside any try/catch, so they answer 422 and 404. The caller is the
 * authenticated user; no role is checked.
 */
module BlogModeration {
  import opened Wrappers
  import opened Http
  import opened Tables
  import opened Schema
  import opened Listings
  import opened Text
  import Ledger

  /** `where('status', st)`. */
  function HasStatus(st: Status): Blog -> bool {
    (t: Blog) => t.status == st
  }

  function CreatedAt(): Blog -> int {
    (t: Blog) => t.createdAt
  }

  function UpdatedAt(): Blog -> int {
    (t: Blog) => t.updatedAt
  }

  /** The change both actions make to the blog itself: the new status, saved at `now`. */
  function Decided(t: Blog, st: Status, now: Time): (t': Blog)
    requires t.status == Pending && st != Pending
    ensures t'.status == st && t'.updatedAt == now
    ensures t'.(status := t.status, updatedAt := t.updatedAt) == t
  {
    SaveBlog(t, t.(status := st), now)
  }

  /**
   * `approveBlog`. A blog that is not pending is refused with nothing changed;
   * otherwise it becomes approved and the in-place path records the approval with the caller
   * as moderator and the notes defaulting to `''`.
   */
  method ApproveBlog(db: Database, caller: Id, id: Id, notes: Param<string>, now: Time) returns (r: Response<()>)
    modifies db`blogs, db`blogModerations
    ensures !HasRow(old(db.blogs), id) ==> r == Fail(NotFound) && unchanged(db)
    ensures HasRow(old(db.blogs), id) && old(db.blogs)[id - 1].status != Pending ==>
              r == Fail(NotPending) && unchanged(db)
    ensures HasRow(old(db.blogs), id) && old(db.blogs)[id - 1].status == Pending ==>
              r == Ok(()) &&
              db.blogs == old(db.blogs)[id - 1 := Decided(old(db.blogs)[id - 1], Approved, now)] &&
              db.blogModerations ==
                Ledger.DecideInPlace(old(db.blogModerations), id, Ledger.Approval(caller, notes.Input(""), now))
    ensures r.Ok? ==>
              |db.blogModerations| >= |old(db.blogModerations)| &&
              forall j :: 0 <= j < |old(db.blogModerations)| && old(db.blogModerations)[j].contentId != id ==>
                db.blogModerations[j] == old(db.blogModerations)[j]
    ensures r.Ok? ==>
              Ledger.ActiveCount(db.blogModerations, id) ==
                (if old(Ledger.ActiveCount(db.blogModerations, id)) == 0 then 1
                 else old(Ledger.ActiveCount(db.blogModerations, id)))
  {
    r := Decide(db, id, Ledger.Approval(caller, notes.Input(""), now), now);
  }

  /** `rejection_reason`: `nullable|string|max:500`, not run on a blank reason. */
  predicate ReasonValid(reason: Param<string>) {
    NullableMax(reason, 500)
  }

  /**
   * `rejectBlog`. The reason is validated first (422), then the blog must exist (404)
   * and be pending; it becomes rejected and the in-place path records the rejection with
   * reason and notes defaulting to `''`.
   */
  method RejectBlog(db: Database, caller: Id, id: Id, reason: Param<string>, notes: Param<string>, now: Time)
    returns (r: Response<()>)
    modifies db`blogs, db`blogModerations
    ensures !ReasonValid(reason) ==> r == Fail(Unprocessable) && unchanged(db)
    ensures ReasonValid(reason) && !HasRow(old(db.blogs), id) ==> r == Fail(NotFound) && unchanged(db)
    ensures ReasonValid(reason) && HasRow(old(db.blogs), id) && old(db.blogs)[id - 1].status != Pending ==>
              r == Fail(NotPending) && unchanged(db)
    ensures ReasonValid(reason) && HasRow(old(db.blogs), id) && old(db.blogs)[id - 1].status == Pending ==>
              r == Ok(()) &&
              db.blogs == old(db.blogs)[id - 1 := Decided(old(db.blogs)[id - 1], Rejected, now)] &&
              db.blogModerations ==
                Ledger.DecideInPlace(old(db.blogModerations), id,
                                     Ledger.Rejection(caller, reason.Input(""), notes.Input(""), now))
    ensures r.Ok? ==>
              |db.blogModerations| >= |old(db.blogModerations)| &&
              forall j :: 0 <= j < |old(db.blogModerations)| && old(db.blogModerations)[j].contentId != id ==>
                db.blogModerations[j] == old(db.blogModerations)[j]
    ensures r.Ok? ==>
              Ledger.ActiveCount(db.blogModerations, id) ==
                (if old(Ledger.ActiveCount(db.blogModerations, id)) == 0 then 1
                 else old(Ledger.ActiveCount(db.blogModerations, id))) &&
              Ledger.RejectionDetails(db.blogModerations, id) ==
                Ledger.RejectionInfo(reason.Input(""), notes.Input(""), Some(now))
  {
    if !ReasonValid(reason) {
      return Fail(Unprocessable);
    }
    r := Decide(db, id, Ledger.Rejection(caller, reason.Input(""), notes.Input(""), now), now);
    if r.Ok? {
      Ledger.RejectInPlaceDetails(old(db.blogModerations), id, caller, reason.Input(""), notes.Input(""), now);
    }
  }

  /** The status a decision gives the blog. */
  function Outcome(d: Ledger.Decision): Status {
    if d.Approval? then Approved else Rejected
  }

  /** The steps the two actions share once the request is valid. */
  method Decide(db: Database, id: Id, d: Ledger.Decision, now: Time) returns (r: Response<()>)
    modifies db`blogs, db`blogModerations
    ensures !HasRow(old(db.blogs), id) ==> r == Fail(NotFound) && unchanged(db)
    ensures HasRow(old(db.blogs), id) && old(db.blogs)[id - 1].status != Pending ==>
              r == Fail(NotPending) && unchanged(db)
    ensures HasRow(old(db.blogs), id) && old(db.blogs)[id - 1].status == Pending ==>
              r == Ok(()) &&
              db.blogs == old(db.blogs)[id - 1 := Decided(old(db.blogs)[id - 1], Outcome(d), now)] &&
              db.blogModerations == Ledger.DecideInPlace(old(db.blogModerations), id, d)
    ensures r.Ok? ==>
              |db.blogModerations| >= |old(db.blogModerations)| &&
              forall j :: 0 <= j < |old(db.blogModerations)| && old(db.blogModerations)[j].contentId != id ==>
                db.blogModerations[j] == old(db.blogModerations)[j]
    ensures r.Ok? ==>
              Ledger.ActiveCount(db.blogModerations, id) ==
                (if old(Ledger.ActiveCount(db.blogModerations, id)) == 0 then 1
                 else old(Ledger.ActiveCount(db.blogModerations, id)))
  {
    if !HasRow(db.blogs, id) {
      return Fail(NotFound);
    }
    var t := db.blogs[id - 1];
    if t.status != Pending {
      return Fail(NotPending);
    }
    ghost var records0 := db.blogModerations;
    var t' := Decided(t, Outcome(d), now);
    db.blogs := db.blogs[id - 1 := t'];
    db.blogModerations := Ledger.DecideInPlace(db.blogModerations, id, d);
    Ledger.DecideInPlaceCount(records0, id, d);
    Ledger.DecideInPlaceOthers(records0, id, d);
    return Ok(());
  }

  /** A second approval of the same blog is always refused, whatever the first one found. */
  method ApproveTwice(db: Database, caller: Id, id: Id, notes: Param<string>, now: Time, later: Time)
    returns (first: Response<()>, second: Response<()>)
    modifies db`blogs, db`blogModerations
    ensures first.Ok? ==> second == Fail(NotPending)
    ensures first.Fail? ==> second == first && unchanged(db)
  {
    first := ApproveBlog(db, caller, id, notes, now);
    second := ApproveBlog(db, caller, id, notes, later);
  }

  /** `getPendingBlogs`: exactly the pending blogs, newest first. */
  function GetPendingBlogs(blogs: seq<Blog>): (r: seq<(Id, Blog)>)
    ensures forall id, t :: (id, t) in r <==> HasRow(blogs, id) && blogs[id - 1] == t && t.status == Pending
    ensures forall i, j :: 0 <= i < j < |r| ==> r[i].1.createdAt >= r[j].1.createdAt
    ensures UniqueIds(r)
  {
    Listing(blogs, HasStatus(Pending), CreatedAt())
  }

  /** `getApprovedBlogs`: exactly the approved blogs, newest first by creation. */
  function GetApprovedBlogs(blogs: seq<Blog>): (r: seq<(Id, Blog)>)
    ensures forall id, t :: (id, t) in r <==> HasRow(blogs, id) && blogs[id - 1] == t && t.status == Approved
    ensures forall i, j :: 0 <= i < j < |r| ==> r[i].1.createdAt >= r[j].1.createdAt
    ensures UniqueIds(r)
  {
    Listing(blogs, HasStatus(Approved), CreatedAt())
  }

  /** An entry of the rejected list. */
  datatype RejectedBlog = RejectedBlog(id: Id, blog: Blog, reason: Option<string>)

  /**
   * `getRejectedBlogs`: exactly the rejected blogs, most recently updated first, each
   * with the reason of its first active rejected record (`''` when it has none).
   */
  function GetRejectedBlogs(blogs: seq<Blog>, records: seq<ModerationRecord>): (r: seq<RejectedBlog>)
    ensures forall id, t :: RejectedBlog(id, t, Ledger.RejectionReason(records, id)) in r <==>
              HasRow(blogs, id) && blogs[id - 1] == t && t.status == Rejected
    ensures forall i :: 0 <= i < |r| ==> r[i].reason == Ledger.RejectionReason(records, r[i].id)
    ensures forall i, j :: 0 <= i < j < |r| ==> r[i].blog.updatedAt >= r[j].blog.updatedAt
    ensures forall i, j :: 0 <= i < j < |r| ==> r[i].id != r[j].id
  {
    var listed := Listing(blogs, HasStatus(Rejected), UpdatedAt());
    WithReasonsMembers(listed, records);
    WithReasons(listed, records)
  }

  /** Each listed blog with its rejection reason, in the same order. */
  function WithReasons(listed: seq<(Id, Blog)>, records: seq<ModerationRecord>): (r: seq<RejectedBlog>)
    ensures |r| == |listed|
    ensures forall i :: 0 <= i < |r| ==>
              r[i] == RejectedBlog(listed[i].0, listed[i].1, Ledger.RejectionReason(records, listed[i].0))
  {
    seq(|listed|, i requires 0 <= i < |listed| =>
        RejectedBlog(listed[i].0, listed[i].1, Ledger.RejectionReason(records, listed[i].0)))
  }

  /** Attaching the reasons keeps exactly the listed blogs. */
  lemma WithReasonsMembers(listed: seq<(Id, Blog)>, records: seq<ModerationRecord>)
    ensures forall id, t :: RejectedBlog(id, t, Ledger.RejectionReason(records, id)) in WithReasons(listed, records)
                            <==> (id, t) in listed
  {
    var r := WithReasons(listed, records);
    forall id, t | (id, t) in listed
      ensures RejectedBlog(id, t, Ledger.RejectionReason(records, id)) in r
    {
      var i :| 0 <= i < |listed| && listed[i] == (id, t);
      assert r[i] == RejectedBlog(id, t, Ledger.RejectionReason(records, id));
    }
  }

  /** `getPendingBlogDetails`: the blog when it is pending, else 404. */
  function GetPendingBlogDetails(blogs: seq<Blog>, id: Id): (r: Response<Blog>)
    ensures r.Ok? <==> HasRow(blogs, id) && blogs[id - 1].status == Pending
    ensures r.Ok? ==> r.value == blogs[id - 1]
    ensures r.Fail? ==> r.failure == NotFound
  {
    Lookup(blogs, id, HasStatus(Pending))
  }

  /** `getApprovedBlogDetails`: the blog when it is approved, else 404. */
  function GetApprovedBlogDetails(blogs: seq<Blog>, id: Id): (r: Response<Blog>)
    ensures r.Ok? <==> HasRow(blogs, id) && blogs[id - 1].status == Approved
    ensures r.Ok? ==> r.value == blogs[id - 1]
    ensures r.Fail? ==> r.failure == NotFound
  {
    Lookup(blogs, id, HasStatus(Approved))
  }

  /**
   * `getRejectedBlogDetails`: the blog when it is rejected, with the reason, notes and
   * time of its first active rejected record (`''`, `''` and null when there is none); else 404.
   */
  function GetRejectedBlogDetails(blogs: seq<Blog>, records: seq<ModerationRecord>, id: Id)
    : (r: Response<(Blog, Ledger.RejectionInfo)>)
    ensures r.Ok? <==> HasRow(blogs, id) && blogs[id - 1].status == Rejected
    ensures r.Ok? ==> r.value == (blogs[id - 1], Ledger.RejectionDetails(records, id))
    ensures r.Fail? ==> r.failure == NotFound
  {
    match Lookup(blogs, id, HasStatus(Rejected))
    case Ok(t) => Ok((t, Ledger.RejectionDetails(records, id)))
    case Fail(f) => Fail(f)
  }
}
