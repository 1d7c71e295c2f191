/**
 * The moderation-record tables (`blog_moderations`, `travsnap_moderations`) and the two ways
 * the controllers write them:
 *
 *  - in place (the moderation controllers): the first active record of the content is
 *    rewritten with the decision, or, when the content has no active record, a new active
 *    record is created; `travsnaps.moderation_id` is not touched;
 *  - by supersession (TravsnapController): a new active record is always created, the one
 *    named by `travsnaps.moderation_id` is deactivated, and the pointer moves to the new one.
 *
 * "A content row has at most one active record" is not an invariant of the code as a whole:
 * it is kept by each path on its own terms, and the fallback create of the first path followed
 * by the second path produces two active records.
 */
module Ledger {
  import opened Wrappers
  import opened Tables
  import opened Schema

  /** `where('<content>_id', cid)->where('is_active', true)`. */
  function ActiveOf(cid: Id): ModerationRecord -> bool {
    (r: ModerationRecord) => r.contentId == cid && r.isActive
  }

  /** `where('<content>_id', cid)->where('status', 'rejected')->where('is_active', true)`. */
  function ActiveRejectedOf(cid: Id): ModerationRecord -> bool {
    (r: ModerationRecord) => r.contentId == cid && r.isActive && r.status == Rejected
  }

  /** The number of active records of content `cid`. */
  function ActiveCount(records: seq<ModerationRecord>, cid: Id): nat {
    Count(records, ActiveOf(cid))
  }

  /** The active record the moderation controllers find with `first()`, if any. */
  function Current(records: seq<ModerationRecord>, cid: Id): (r: Option<ModerationRecord>)
    ensures r.Some? <==> ActiveCount(records, cid) > 0
    ensures r.Some? ==> r.value in records && ActiveOf(cid)(r.value)
  {
    CountZero(records, ActiveOf(cid));
    match FirstMatch(records, ActiveOf(cid))
    case Some(i) => Some(records[i])
    case None => None
  }

  /** What a moderator decided, with the request's notes and reason and the time of the request. */
  datatype Decision =
    | Approval(moderator: Id, notes: Option<string>, at: Time)
    | Rejection(moderator: Id, reason: Option<string>, notes: Option<string>, at: Time)

  /** The columns a decision names in the in-place `update([...])`; every other column is kept. */
  function Patched(r: ModerationRecord, d: Decision): ModerationRecord {
    match d
    case Approval(m, notes, at) =>
      r.(moderatorId := m, status := Approved, moderatorNotes := notes, publishedAt := Some(at))
    case Rejection(m, reason, notes, at) =>
      r.(moderatorId := m, status := Rejected, rejectionReason := reason,
         moderatorNotes := notes, rejectedAt := Some(at))
  }

  /** The record the fallback `create([...])` inserts; unnamed nullable columns are null. */
  function Fresh(cid: Id, d: Decision): ModerationRecord {
    match d
    case Approval(m, notes, at) =>
      ModerationRecord(cid, m, Approved, notes, None, Some(at), None, true)
    case Rejection(m, reason, notes, at) =>
      ModerationRecord(cid, m, Rejected, notes, reason, None, Some(at), true)
  }

  /** The in-place path: rewrite the first active record of `cid`, or create one. */
  function DecideInPlace(records: seq<ModerationRecord>, cid: Id, d: Decision): seq<ModerationRecord> {
    UpdateOrCreate(records, ActiveOf(cid), (r: ModerationRecord) => Patched(r, d), Fresh(cid, d))
  }

  /**
   * The in-place path never adds a second active record and always leaves one: the count is
   * unchanged when the content had an active record, and becomes one when it had none.
   */
  lemma DecideInPlaceCount(records: seq<ModerationRecord>, cid: Id, d: Decision)
    ensures ActiveCount(DecideInPlace(records, cid, d), cid)
         == if ActiveCount(records, cid) == 0 then 1 else ActiveCount(records, cid)
  {
    UpdateOrCreateCount(records, ActiveOf(cid), (r: ModerationRecord) => Patched(r, d), Fresh(cid, d));
  }

  /** The in-place path leaves the records of every other content row exactly as they were. */
  lemma DecideInPlaceOthers(records: seq<ModerationRecord>, cid: Id, d: Decision)
    ensures var after := DecideInPlace(records, cid, d);
      |after| >= |records| &&
      (forall j :: 0 <= j < |records| && records[j].contentId != cid ==> after[j] == records[j]) &&
      (forall j :: |records| <= j < |after| ==> after[j].contentId == cid) &&
      (forall other :: other != cid ==> ActiveCount(after, other) == ActiveCount(records, other))
  {
    forall other | other != cid
      ensures ActiveCount(DecideInPlace(records, cid, d), other) == ActiveCount(records, other)
    {
      match FirstMatch(records, ActiveOf(cid))
      case Some(i) =>
        CountUpdate(records, i, Patched(records[i], d), ActiveOf(other));
      case None =>
        CountAppend(records, Fresh(cid, d), ActiveOf(other));
    }
  }

  /** After the in-place path, the record `first()` finds carries the decision. */
  lemma DecideInPlaceCurrent(records: seq<ModerationRecord>, cid: Id, d: Decision)
    ensures Current(DecideInPlace(records, cid, d), cid)
         == Some(match Current(records, cid)
                 case Some(r) => Patched(r, d)
                 case None => Fresh(cid, d))
  {
    var after := DecideInPlace(records, cid, d);
    match FirstMatch(records, ActiveOf(cid))
    case Some(i) =>
      FirstMatchAt(after, i, ActiveOf(cid));
    case None =>
      FirstMatchAt(after, |records|, ActiveOf(cid));
  }

  /** What the rejected-details query reports for a content row (`reason`, `notes`, `rejected_at`). */
  datatype RejectionInfo = RejectionInfo(reason: Option<string>, notes: Option<string>, rejectedAt: Option<Time>)

  /**
   * The first active rejected record's reason, notes and rejection time, or `''`, `''` and
   * null when there is none.
   */
  function RejectionDetails(records: seq<ModerationRecord>, cid: Id): (info: RejectionInfo)
    ensures (forall j :: 0 <= j < |records| ==> !ActiveRejectedOf(cid)(records[j])) ==>
              info == RejectionInfo(Some(""), Some(""), None)
    ensures forall i :: 0 <= i < |records| && ActiveRejectedOf(cid)(records[i]) &&
                        (forall j :: 0 <= j < i ==> !ActiveRejectedOf(cid)(records[j])) ==>
              info == RejectionInfo(records[i].rejectionReason, records[i].moderatorNotes, records[i].rejectedAt)
  {
    match FirstMatch(records, ActiveRejectedOf(cid))
    case Some(i) => RejectionInfo(records[i].rejectionReason, records[i].moderatorNotes, records[i].rejectedAt)
    case None => RejectionInfo(Some(""), Some(""), None)
  }

  /** The reason shown in the rejected list: the first active rejected record's, else `''`. */
  function RejectionReason(records: seq<ModerationRecord>, cid: Id): Option<string> {
    RejectionDetails(records, cid).reason
  }

  /** After an in-place rejection the rejected-details query reports exactly what was decided. */
  lemma RejectInPlaceDetails(records: seq<ModerationRecord>, cid: Id, m: Id,
                             reason: Option<string>, notes: Option<string>, at: Time)
    ensures RejectionDetails(DecideInPlace(records, cid, Rejection(m, reason, notes, at)), cid)
         == RejectionInfo(reason, notes, Some(at))
  {
    var d := Rejection(m, reason, notes, at);
    var after := DecideInPlace(records, cid, d);
    match FirstMatch(records, ActiveOf(cid))
    case Some(i) =>
      FirstMatchAt(after, i, ActiveRejectedOf(cid));
    case None =>
      FirstMatchAt(after, |records|, ActiveRejectedOf(cid));
  }

  /** `where('id', p)->update(['is_active' => false])`: deactivate the row with id `p`, if any. */
  function DeactivateRow(records: seq<ModerationRecord>, p: Id): (r: seq<ModerationRecord>)
    ensures |r| == |records|
    ensures forall j :: 0 <= j < |r| ==>
              r[j] == if j == p - 1 then records[j].(isActive := false) else records[j]
  {
    if HasRow(records, p) then records[p - 1 := records[p - 1].(isActive := false)] else records
  }

  /** `if ($travsnap->moderation_id)`: null and zero name no record. */
  predicate PointerSet(mid: Option<Id>) {
    mid.Some? && mid.value != 0
  }

  /** The supersession path: append `issued`, then deactivate the record the old `moderation_id` names. */
  function Supersede(records: seq<ModerationRecord>, mid: Option<Id>, issued: ModerationRecord): seq<ModerationRecord> {
    var appended := records + [issued];
    if PointerSet(mid) then DeactivateRow(appended, mid.value) else appended
  }

  /** The pointer `mid` of travsnap `tid` names an existing record of that travsnap. */
  predicate PointsTo(records: seq<ModerationRecord>, mid: Id, tid: Id) {
    HasRow(records, mid) && records[mid - 1].contentId == tid
  }

  /**
   * The link between `travsnaps.moderation_id` and the active records that the travsnap
   * controller maintains: every `moderation_id` names a record of its own travsnap, and every active
   * record is the one its travsnap points to.
   */
  predicate Linked(travsnaps: seq<Travsnap>, records: seq<ModerationRecord>) {
    (forall i :: 0 <= i < |travsnaps| && travsnaps[i].moderationId.Some? ==>
       PointsTo(records, travsnaps[i].moderationId.value, i + 1)) &&
    (forall j :: 0 <= j < |records| && records[j].isActive ==>
       HasRow(travsnaps, records[j].contentId) &&
       travsnaps[records[j].contentId - 1].moderationId == Some(j + 1))
  }

  /** Under the link, a travsnap has at most one active record: the one it points to. */
  lemma LinkedAtMostOne(travsnaps: seq<Travsnap>, records: seq<ModerationRecord>, tid: Id)
    requires Linked(travsnaps, records)
    ensures ActiveCount(records, tid) <= 1
    ensures ActiveCount(records, tid) == 1 ==>
              HasRow(travsnaps, tid) && travsnaps[tid - 1].moderationId.Some? &&
              var k := travsnaps[tid - 1].moderationId.value;
              HasRow(records, k) && ActiveOf(tid)(records[k - 1])
  {
    if j :| 0 <= j < |records| && ActiveOf(tid)(records[j]) {
      CountSingle(records, j, ActiveOf(tid));
    } else {
      CountZero(records, ActiveOf(tid));
    }
  }

  /** A new travsnap row that points to no record (a store interrupted before the pointer was set) keeps the link. */
  lemma AppendUnlinkedKeepsLink(travsnaps: seq<Travsnap>, records: seq<ModerationRecord>, t: Travsnap)
    requires Linked(travsnaps, records)
    requires t.moderationId.None?
    ensures Linked(travsnaps + [t], records)
  {
    var ts := travsnaps + [t];
    forall j | 0 <= j < |records| && records[j].isActive
      ensures HasRow(ts, records[j].contentId) && ts[records[j].contentId - 1].moderationId == Some(j + 1)
    {
      assert ts[records[j].contentId - 1] == travsnaps[records[j].contentId - 1];
    }
  }

  /** A completed store (new travsnap, its first record, the pointer to it) keeps the link. */
  lemma StoreKeepsLink(travsnaps: seq<Travsnap>, records: seq<ModerationRecord>, t: Travsnap, issued: ModerationRecord)
    requires Linked(travsnaps, records)
    requires issued.contentId == |travsnaps| + 1
    requires t.moderationId == Some(|records| + 1)
    ensures Linked(travsnaps + [t], records + [issued])
  {
    var ts := travsnaps + [t];
    var rs := records + [issued];
    forall i | 0 <= i < |ts| && ts[i].moderationId.Some?
      ensures PointsTo(rs, ts[i].moderationId.value, i + 1)
    {
      if i < |travsnaps| {
        assert ts[i] == travsnaps[i];
      }
    }
    forall j | 0 <= j < |rs| && rs[j].isActive
      ensures HasRow(ts, rs[j].contentId) && ts[rs[j].contentId - 1].moderationId == Some(j + 1)
    {
      if j < |records| {
        assert rs[j] == records[j];
        assert ts[rs[j].contentId - 1] == travsnaps[rs[j].contentId - 1];
      }
    }
  }

  /** Rewriting a travsnap's own columns without moving its pointer keeps the link. */
  lemma EditKeepsLink(travsnaps: seq<Travsnap>, records: seq<ModerationRecord>, tid: Id, t: Travsnap)
    requires Linked(travsnaps, records)
    requires HasRow(travsnaps, tid)
    requires t.moderationId == travsnaps[tid - 1].moderationId
    ensures Linked(travsnaps[tid - 1 := t], records)
  {
  }

  /**
   * Supersession keeps the link and leaves exactly one active record for the travsnap, the new
   * one, provided the travsnap's pointer is moved to it.
   */
  lemma SupersedeKeepsLink(travsnaps: seq<Travsnap>, records: seq<ModerationRecord>, tid: Id,
                           issued: ModerationRecord, t: Travsnap)
    requires Linked(travsnaps, records)
    requires HasRow(travsnaps, tid)
    requires issued.contentId == tid && issued.isActive
    requires t.moderationId == Some(|records| + 1)
    ensures var rs := Supersede(records, travsnaps[tid - 1].moderationId, issued);
      Linked(travsnaps[tid - 1 := t], rs) && ActiveCount(rs, tid) == 1 &&
      Current(rs, tid) == Some(issued)
  {
    var mid := travsnaps[tid - 1].moderationId;
    var ts := travsnaps[tid - 1 := t];
    var rs := Supersede(records, mid, issued);
    var n := |records|;
    assert |rs| == n + 1;
    assert rs[n] == issued;
    forall j | 0 <= j < |rs| && rs[j].isActive
      ensures HasRow(ts, rs[j].contentId) && ts[rs[j].contentId - 1].moderationId == Some(j + 1)
    {
      if j < n {
        assert records[j].isActive && rs[j] == records[j];
        assert travsnaps[records[j].contentId - 1].moderationId == Some(j + 1);
      }
    }
    forall i | 0 <= i < |ts| && ts[i].moderationId.Some?
      ensures PointsTo(rs, ts[i].moderationId.value, i + 1)
    {
      if i != tid - 1 {
        assert ts[i] == travsnaps[i];
        assert PointsTo(records, ts[i].moderationId.value, i + 1);
      }
    }
    assert Linked(ts, rs);
    LinkedAtMostOne(ts, rs, tid);
    CountSingle(rs, n, ActiveOf(tid));
    forall j | 0 <= j < n
      ensures !ActiveOf(tid)(rs[j])
    {
    }
    FirstMatchAt(rs, n, ActiveOf(tid));
  }

  /** The in-place path keeps the link when the content already has an active record. */
  lemma DecideInPlaceKeepsLink(travsnaps: seq<Travsnap>, records: seq<ModerationRecord>, tid: Id, d: Decision)
    requires Linked(travsnaps, records)
    requires ActiveCount(records, tid) > 0
    ensures Linked(travsnaps, DecideInPlace(records, tid, d))
  {
    CountZero(records, ActiveOf(tid));
    var rs := DecideInPlace(records, tid, d);
    assert |rs| == |records|;
  }

  /** The in-place path's fallback create breaks the link: the new record is active but unpointed. */
  lemma FallbackBreaksLink(travsnaps: seq<Travsnap>, records: seq<ModerationRecord>, tid: Id, d: Decision)
    requires Linked(travsnaps, records)
    requires HasRow(travsnaps, tid)
    requires ActiveCount(records, tid) == 0
    ensures !Linked(travsnaps, DecideInPlace(records, tid, d))
  {
    CountZero(records, ActiveOf(tid));
    var rs := DecideInPlace(records, tid, d);
    assert rs[|records|] == Fresh(tid, d);
  }

  /**
   * The two paths together break "at most one active record": after the fallback create, the
   * supersession deactivates only the stale record its `moderation_id` names (an inactive one, or
   * none), so the fallback record and the new one are both active.
   */
  lemma FallbackThenSupersede(records: seq<ModerationRecord>, tid: Id, d: Decision,
                              mid: Option<Id>, issued: ModerationRecord)
    requires ActiveCount(records, tid) == 0
    requires mid.Some? ==> mid.value <= |records|
    requires issued.contentId == tid && issued.isActive
    ensures ActiveCount(Supersede(DecideInPlace(records, tid, d), mid, issued), tid) == 2
  {
    var after := DecideInPlace(records, tid, d);
    CountZero(records, ActiveOf(tid));
    assert after == records + [Fresh(tid, d)];
    CountAppend(records, Fresh(tid, d), ActiveOf(tid));
    CountAppend(after, issued, ActiveOf(tid));
    var appended := after + [issued];
    if PointerSet(mid) && HasRow(appended, mid.value) {
      var k := mid.value - 1;
      assert appended[k] == records[k];
      CountUpdate(appended, k, appended[k].(isActive := false), ActiveOf(tid));
    }
  }
}
