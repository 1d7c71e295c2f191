/**
 * TravsnapModerationController: the in-place path of travsnap moderation and the moderation
 * lists. Approval and rejection need a pending travsnap, rewrite the travsnap's first active
 * record (or create one when it has none), and touch neither `moderation_id` nor the
 * assignments. The validation and the `findOrFail` run outside any try/catch, so they answer
 * 422 and 404. The caller is the authenticated user; no role is checked.
 */
module TravsnapModeration {
  import opened Wrappers
  import opened Http
  import opened Tables
  import opened Schema
  import opened Listings
  import opened Text
  import Ledger

  /** `where('status', st)`. */
  function HasStatus(st: Status): Travsnap -> bool {
    (t: Travsnap) => t.status == st
  }

  function CreatedAt(): Travsnap -> int {
    (t: Travsnap) => t.createdAt
  }

  function UpdatedAt(): Travsnap -> int {
    (t: Travsnap) => t.updatedAt
  }

  /** The change both actions make to the travsnap itself: the new status, saved at `now`. */
  function Decided(t: Travsnap, st: Status, now: Time): (t': Travsnap)
    requires t.status == Pending && st != Pending
    ensures t'.status == st && t'.moderationId == t.moderationId && t'.updatedAt == now
    ensures t'.(status := t.status, updatedAt := t.updatedAt) == t
  {
    SaveTravsnap(t, t.(status := st), now)
  }

  /**
   * `approveTravsnap`. A travsnap that is not pending is refused with nothing changed;
   * otherwise it becomes approved and the in-place path records the approval with the caller
   * as moderator and the notes defaulting to `''`.
   */
  method ApproveTravsnap(db: Database, caller: Id, id: Id, notes: Param<string>, now: Time) returns (r: Response<()>)
    modifies db`travsnaps, db`travsnapModerations
    ensures !HasRow(old(db.travsnaps), id) ==> r == Fail(NotFound) && unchanged(db)
    ensures HasRow(old(db.travsnaps), id) && old(db.travsnaps)[id - 1].status != Pending ==>
              r == Fail(NotPending) && unchanged(db)
    ensures HasRow(old(db.travsnaps), id) && old(db.travsnaps)[id - 1].status == Pending ==>
              r == Ok(()) &&
              db.travsnaps == old(db.travsnaps)[id - 1 := Decided(old(db.travsnaps)[id - 1], Approved, now)] &&
              db.travsnapModerations ==
                Ledger.DecideInPlace(old(db.travsnapModerations), id, Ledger.Approval(caller, notes.Input(""), now))
    ensures r.Ok? ==>
              Ledger.ActiveCount(db.travsnapModerations, id) ==
                (if old(Ledger.ActiveCount(db.travsnapModerations, id)) == 0 then 1
                 else old(Ledger.ActiveCount(db.travsnapModerations, id)))
    ensures r.Ok? && old(Ledger.Linked(db.travsnaps, db.travsnapModerations)) &&
            old(Ledger.ActiveCount(db.travsnapModerations, id)) > 0 ==>
              Ledger.Linked(db.travsnaps, db.travsnapModerations)
  {
    r := Decide(db, id, Ledger.Approval(caller, notes.Input(""), now), now);
  }

  /** `rejection_reason`: `nullable|string|max:500`, not run on a blank reason. */
  predicate ReasonValid(reason: Param<string>) {
    NullableMax(reason, 500)
  }

  /**
   * `rejectTravsnap`. The reason is validated first (422), then the travsnap must exist (404)
   * and be pending; it becomes rejected and the in-place path records the rejection with
   * reason and notes defaulting to `''`.
   */
  method RejectTravsnap(db: Database, caller: Id, id: Id, reason: Param<string>, notes: Param<string>, now: Time)
    returns (r: Response<()>)
    modifies db`travsnaps, db`travsnapModerations
    ensures !ReasonValid(reason) ==> r == Fail(Unprocessable) && unchanged(db)
    ensures ReasonValid(reason) && !HasRow(old(db.travsnaps), id) ==> r == Fail(NotFound) && unchanged(db)
    ensures ReasonValid(reason) && HasRow(old(db.travsnaps), id) && old(db.travsnaps)[id - 1].status != Pending ==>
              r == Fail(NotPending) && unchanged(db)
    ensures ReasonValid(reason) && HasRow(old(db.travsnaps), id) && old(db.travsnaps)[id - 1].status == Pending ==>
              r == Ok(()) &&
              db.travsnaps == old(db.travsnaps)[id - 1 := Decided(old(db.travsnaps)[id - 1], Rejected, now)] &&
              db.travsnapModerations ==
                Ledger.DecideInPlace(old(db.travsnapModerations), id,
                                     Ledger.Rejection(caller, reason.Input(""), notes.Input(""), now))
    ensures r.Ok? ==>
              Ledger.ActiveCount(db.travsnapModerations, id) ==
                (if old(Ledger.ActiveCount(db.travsnapModerations, id)) == 0 then 1
                 else old(Ledger.ActiveCount(db.travsnapModerations, id))) &&
              Ledger.RejectionDetails(db.travsnapModerations, id) ==
                Ledger.RejectionInfo(reason.Input(""), notes.Input(""), Some(now))
    ensures r.Ok? && old(Ledger.Linked(db.travsnaps, db.travsnapModerations)) &&
            old(Ledger.ActiveCount(db.travsnapModerations, id)) > 0 ==>
              Ledger.Linked(db.travsnaps, db.travsnapModerations)
  {
    if !ReasonValid(reason) {
      return Fail(Unprocessable);
    }
    r := Decide(db, id, Ledger.Rejection(caller, reason.Input(""), notes.Input(""), now), now);
    if r.Ok? {
      Ledger.RejectInPlaceDetails(old(db.travsnapModerations), id, caller, reason.Input(""), notes.Input(""), now);
    }
  }

  /** The status a decision gives the travsnap. */
  function Outcome(d: Ledger.Decision): Status {
    if d.Approval? then Approved else Rejected
  }

  /** The steps the two actions share once the request is valid. */
  method Decide(db: Database, id: Id, d: Ledger.Decision, now: Time) returns (r: Response<()>)
    modifies db`travsnaps, db`travsnapModerations
    ensures !HasRow(old(db.travsnaps), id) ==> r == Fail(NotFound) && unchanged(db)
    ensures HasRow(old(db.travsnaps), id) && old(db.travsnaps)[id - 1].status != Pending ==>
              r == Fail(NotPending) && unchanged(db)
    ensures HasRow(old(db.travsnaps), id) && old(db.travsnaps)[id - 1].status == Pending ==>
              r == Ok(()) &&
              db.travsnaps == old(db.travsnaps)[id - 1 := Decided(old(db.travsnaps)[id - 1], Outcome(d), now)] &&
              db.travsnapModerations == Ledger.DecideInPlace(old(db.travsnapModerations), id, d)
    ensures r.Ok? ==>
              Ledger.ActiveCount(db.travsnapModerations, id) ==
                (if old(Ledger.ActiveCount(db.travsnapModerations, id)) == 0 then 1
                 else old(Ledger.ActiveCount(db.travsnapModerations, id)))
    ensures r.Ok? && old(Ledger.Linked(db.travsnaps, db.travsnapModerations)) &&
            old(Ledger.ActiveCount(db.travsnapModerations, id)) > 0 ==>
              Ledger.Linked(db.travsnaps, db.travsnapModerations)
  {
    if !HasRow(db.travsnaps, id) {
      return Fail(NotFound);
    }
    var t := db.travsnaps[id - 1];
    if t.status != Pending {
      return Fail(NotPending);
    }
    ghost var travsnaps0, records0 := db.travsnaps, db.travsnapModerations;
    var t' := Decided(t, Outcome(d), now);
    db.travsnaps := db.travsnaps[id - 1 := t'];
    db.travsnapModerations := Ledger.DecideInPlace(db.travsnapModerations, id, d);
    Ledger.DecideInPlaceCount(records0, id, d);
    if Ledger.Linked(travsnaps0, records0) && Ledger.ActiveCount(records0, id) > 0 {
      Ledger.EditKeepsLink(travsnaps0, records0, id, t');
      Ledger.DecideInPlaceKeepsLink(db.travsnaps, records0, id, d);
    }
    return Ok(());
  }

  /** A second approval of the same travsnap is always refused, whatever the first one found. */
  method ApproveTwice(db: Database, caller: Id, id: Id, notes: Param<string>, now: Time, later: Time)
    returns (first: Response<()>, second: Response<()>)
    modifies db`travsnaps, db`travsnapModerations
    ensures first.Ok? ==> second == Fail(NotPending)
    ensures first.Fail? ==> second == first && unchanged(db)
  {
    first := ApproveTravsnap(db, caller, id, notes, now);
    second := ApproveTravsnap(db, caller, id, notes, later);
  }

  /** `getPendingTravsnaps`: exactly the pending travsnaps, newest first. */
  function GetPendingTravsnaps(travsnaps: seq<Travsnap>): (r: seq<(Id, Travsnap)>)
    ensures forall id, t :: (id, t) in r <==> HasRow(travsnaps, id) && travsnaps[id - 1] == t && t.status == Pending
    ensures forall i, j :: 0 <= i < j < |r| ==> r[i].1.createdAt >= r[j].1.createdAt
    ensures UniqueIds(r)
  {
    Listing(travsnaps, HasStatus(Pending), CreatedAt())
  }

  /** `getApprovedTravsnaps`: exactly the approved travsnaps, newest first by creation. */
  function GetApprovedTravsnaps(travsnaps: seq<Travsnap>): (r: seq<(Id, Travsnap)>)
    ensures forall id, t :: (id, t) in r <==> HasRow(travsnaps, id) && travsnaps[id - 1] == t && t.status == Approved
    ensures forall i, j :: 0 <= i < j < |r| ==> r[i].1.createdAt >= r[j].1.createdAt
    ensures UniqueIds(r)
  {
    Listing(travsnaps, HasStatus(Approved), CreatedAt())
  }

  /** An entry of the rejected list. */
  datatype RejectedTravsnap = RejectedTravsnap(id: Id, travsnap: Travsnap, reason: Option<string>)

  /**
   * `getRejectedTravsnaps`: exactly the rejected travsnaps, most recently updated first, each
   * with the reason of its first active rejected record (`''` when it has none).
   */
  function GetRejectedTravsnaps(travsnaps: seq<Travsnap>, records: seq<ModerationRecord>): (r: seq<RejectedTravsnap>)
    ensures forall id, t :: RejectedTravsnap(id, t, Ledger.RejectionReason(records, id)) in r <==>
              HasRow(travsnaps, id) && travsnaps[id - 1] == t && t.status == Rejected
    ensures forall i :: 0 <= i < |r| ==> r[i].reason == Ledger.RejectionReason(records, r[i].id)
    ensures forall i, j :: 0 <= i < j < |r| ==> r[i].travsnap.updatedAt >= r[j].travsnap.updatedAt
    ensures forall i, j :: 0 <= i < j < |r| ==> r[i].id != r[j].id
  {
    var listed := Listing(travsnaps, HasStatus(Rejected), UpdatedAt());
    WithReasonsMembers(listed, records);
    WithReasons(listed, records)
  }

  /** Each listed travsnap with its rejection reason, in the same order. */
  function WithReasons(listed: seq<(Id, Travsnap)>, records: seq<ModerationRecord>): (r: seq<RejectedTravsnap>)
    ensures |r| == |listed|
    ensures forall i :: 0 <= i < |r| ==>
              r[i] == RejectedTravsnap(listed[i].0, listed[i].1, Ledger.RejectionReason(records, listed[i].0))
  {
    seq(|listed|, i requires 0 <= i < |listed| =>
        RejectedTravsnap(listed[i].0, listed[i].1, Ledger.RejectionReason(records, listed[i].0)))
  }

  /** Attaching the reasons keeps exactly the listed travsnaps. */
  lemma WithReasonsMembers(listed: seq<(Id, Travsnap)>, records: seq<ModerationRecord>)
    ensures forall id, t :: RejectedTravsnap(id, t, Ledger.RejectionReason(records, id)) in WithReasons(listed, records)
                            <==> (id, t) in listed
  {
    var r := WithReasons(listed, records);
    forall id, t | (id, t) in listed
      ensures RejectedTravsnap(id, t, Ledger.RejectionReason(records, id)) in r
    {
      var i :| 0 <= i < |listed| && listed[i] == (id, t);
      assert r[i] == RejectedTravsnap(id, t, Ledger.RejectionReason(records, id));
    }
  }

  /** `getPendingTravsnapDetails`: the travsnap when it is pending, else 404. */
  function GetPendingTravsnapDetails(travsnaps: seq<Travsnap>, id: Id): (r: Response<Travsnap>)
    ensures r.Ok? <==> HasRow(travsnaps, id) && travsnaps[id - 1].status == Pending
    ensures r.Ok? ==> r.value == travsnaps[id - 1]
    ensures r.Fail? ==> r.failure == NotFound
  {
    Lookup(travsnaps, id, HasStatus(Pending))
  }

  /** `getApprovedTravsnapDetails`: the travsnap when it is approved, else 404. */
  function GetApprovedTravsnapDetails(travsnaps: seq<Travsnap>, id: Id): (r: Response<Travsnap>)
    ensures r.Ok? <==> HasRow(travsnaps, id) && travsnaps[id - 1].status == Approved
    ensures r.Ok? ==> r.value == travsnaps[id - 1]
    ensures r.Fail? ==> r.failure == NotFound
  {
    Lookup(travsnaps, id, HasStatus(Approved))
  }

  /**
   * `getRejectedTravsnapDetails`: the travsnap when it is rejected, with the reason, notes and
   * time of its first active rejected record (`''`, `''` and null when there is none); else 404.
   */
  function GetRejectedTravsnapDetails(travsnaps: seq<Travsnap>, records: seq<ModerationRecord>, id: Id)
    : (r: Response<(Travsnap, Ledger.RejectionInfo)>)
    ensures r.Ok? <==> HasRow(travsnaps, id) && travsnaps[id - 1].status == Rejected
    ensures r.Ok? ==> r.value == (travsnaps[id - 1], Ledger.RejectionDetails(records, id))
    ensures r.Fail? ==> r.failure == NotFound
  {
    match Lookup(travsnaps, id, HasStatus(Rejected))
    case Ok(t) => Ok((t, Ledger.RejectionDetails(records, id)))
    case Fail(f) => Fail(f)
  }
}
