/**
 * The moderator-assignment table: rows keyed by the pair (content type string, content id),
 * with no foreign key to the content. An assignment is "active" while its `is_active` flag is
 * set; the pair is meant to have at most one active assignment at a time.
 */
module Registry {
  import opened Wrappers
  import opened Tables
  import opened Schema

  /** `where('content_id', cid)->where('content_type', ctype)->where('is_active', true)`. */
  function ActiveFor(ctype: string, cid: Id): Assignment -> bool {
    (a: Assignment) => a.contentType == ctype && a.contentId == cid && a.isActive
  }

  /** The assignment row belongs to the pair (`ctype`, `cid`), whether active or not. */
  predicate OfPair(a: Assignment, ctype: string, cid: Id) {
    a.contentType == ctype && a.contentId == cid
  }

  /** At most one active assignment per (content type, content id) pair. */
  predicate SingleActive(assignments: seq<Assignment>) {
    forall i, j :: 0 <= i < j < |assignments| && assignments[i].isActive && assignments[j].isActive ==>
      (assignments[i].contentType, assignments[i].contentId) != (assignments[j].contentType, assignments[j].contentId)
  }

  /** Every active travsnap assignment names an existing travsnap. */
  predicate TravsnapAssignmentsExist(assignments: seq<Assignment>, travsnaps: seq<Travsnap>) {
    forall i :: 0 <= i < |assignments| && assignments[i].isActive && assignments[i].contentType == TravsnapType ==>
      HasRow(travsnaps, assignments[i].contentId)
  }

  /** Deactivate every active assignment of the pair (a bulk `update(['is_active' => false])`). */
  function Release(assignments: seq<Assignment>, ctype: string, cid: Id): (r: seq<Assignment>)
    ensures |r| == |assignments|
    ensures forall j :: 0 <= j < |r| ==>
              r[j] == if ActiveFor(ctype, cid)(assignments[j]) then assignments[j].(isActive := false) else assignments[j]
  {
    UpdateWhere(assignments, ActiveFor(ctype, cid), (a: Assignment) => a.(isActive := false))
  }

  /** `assign`'s two writes: release the pair, then insert the new active assignment. */
  function Reassign(assignments: seq<Assignment>, moderator: Id, ctype: string, cid: Id): seq<Assignment> {
    Release(assignments, ctype, cid) + [Assignment(moderator, cid, ctype, true)]
  }

  /** After releasing, the pair has no active assignment and every other row is unchanged. */
  lemma ReleaseEmpties(assignments: seq<Assignment>, ctype: string, cid: Id)
    ensures Count(Release(assignments, ctype, cid), ActiveFor(ctype, cid)) == 0
    ensures forall j :: 0 <= j < |assignments| && !OfPair(assignments[j], ctype, cid) ==>
              Release(assignments, ctype, cid)[j] == assignments[j]
  {
    CountZero(Release(assignments, ctype, cid), ActiveFor(ctype, cid));
  }

  /** Releasing keeps at most one active assignment per pair. */
  lemma ReleaseKeepsSingle(assignments: seq<Assignment>, ctype: string, cid: Id)
    requires SingleActive(assignments)
    ensures SingleActive(Release(assignments, ctype, cid))
  {
  }

  /**
   * After `assign` the pair has exactly one active assignment, the new one naming the chosen
   * moderator; the assignments of every other pair are untouched.
   */
  lemma ReassignSingle(assignments: seq<Assignment>, moderator: Id, ctype: string, cid: Id)
    ensures var r := Reassign(assignments, moderator, ctype, cid);
      Count(r, ActiveFor(ctype, cid)) == 1 &&
      (forall j :: 0 <= j < |r| && ActiveFor(ctype, cid)(r[j]) ==> r[j].moderatorId == moderator) &&
      (forall j :: 0 <= j < |assignments| && !OfPair(assignments[j], ctype, cid) ==> r[j] == assignments[j])
  {
    var released := Release(assignments, ctype, cid);
    ReleaseEmpties(assignments, ctype, cid);
    CountAppend(released, Assignment(moderator, cid, ctype, true), ActiveFor(ctype, cid));
    CountZero(released, ActiveFor(ctype, cid));
  }

  /** `assign` keeps at most one active assignment per pair. */
  lemma ReassignKeepsSingle(assignments: seq<Assignment>, moderator: Id, ctype: string, cid: Id)
    requires SingleActive(assignments)
    ensures SingleActive(Reassign(assignments, moderator, ctype, cid))
  {
    var released := Release(assignments, ctype, cid);
    var r := Reassign(assignments, moderator, ctype, cid);
    forall i, j | 0 <= i < j < |r| && r[i].isActive && r[j].isActive
      ensures (r[i].contentType, r[i].contentId) != (r[j].contentType, r[j].contentId)
    {
      if j == |released| {
        assert !ActiveFor(ctype, cid)(released[i]);
      }
    }
  }

  /**
   * The store action inserts an active assignment without releasing the pair first; this keeps
   * at most one active assignment per pair because the travsnap is new, so no active
   * assignment can name it yet.
   */
  lemma CreateForNewTravsnapKeepsSingle(assignments: seq<Assignment>, travsnaps: seq<Travsnap>, moderator: Id)
    requires SingleActive(assignments)
    requires TravsnapAssignmentsExist(assignments, travsnaps)
    ensures var r := assignments + [Assignment(moderator, |travsnaps| + 1, TravsnapType, true)];
      SingleActive(r) && Count(r, ActiveFor(TravsnapType, |travsnaps| + 1)) == 1
  {
    var a := Assignment(moderator, |travsnaps| + 1, TravsnapType, true);
    var r := assignments + [a];
    forall i, j | 0 <= i < j < |r| && r[i].isActive && r[j].isActive
      ensures (r[i].contentType, r[i].contentId) != (r[j].contentType, r[j].contentId)
    {
      if j == |assignments| {
        assert r[i] == assignments[i];
      }
    }
    CountZero(assignments, ActiveFor(TravsnapType, |travsnaps| + 1));
    CountAppend(assignments, a, ActiveFor(TravsnapType, |travsnaps| + 1));
  }

  /** The content ids of the active assignments of one content type (`pluck('content_id')`). */
  function AssignedIds(assignments: seq<Assignment>, ctype: string): (ids: set<Id>)
    ensures forall c :: c in ids <==>
              exists j :: 0 <= j < |assignments| && ActiveFor(ctype, c)(assignments[j])
  {
    set j | 0 <= j < |assignments| && assignments[j].contentType == ctype && assignments[j].isActive
      :: assignments[j].contentId
  }

  /** The content ids of one moderator's active assignments of one type. */
  function AssignedTo(assignments: seq<Assignment>, moderator: Id, ctype: string): (ids: set<Id>)
    ensures forall c :: c in ids <==>
              exists j :: 0 <= j < |assignments| && ActiveFor(ctype, c)(assignments[j]) &&
                          assignments[j].moderatorId == moderator
  {
    set j | 0 <= j < |assignments| && assignments[j].contentType == ctype && assignments[j].isActive &&
            assignments[j].moderatorId == moderator
      :: assignments[j].contentId
  }
}
