/**
 * ModeratorAssignmentController: a superAdmin assigns a moderator to a piece of content
 * (keyed by the pair content type string and content id), a moderator lists the pending
 * content assigned to them, and a superAdmin lists the unassigned pending content and the
 * available moderators. Every action runs inside a try/catch, so a failed validation, a
 * `findOrFail` miss and a property read on a missing user all answer 500.
 */
module ModeratorAssignments {
  import opened Wrappers
  import opened Http
  import opened Tables
  import opened Schema
  import Registry

  /** The content named by an assignment request exists. */
  predicate ContentExists(blogs: seq<Blog>, travsnaps: seq<Travsnap>, contentType: string, contentId: Id) {
    if contentType == BlogType then HasRow(blogs, contentId) else HasRow(travsnaps, contentId)
  }

  /**
   * `assign`. Only a superAdmin may assign; the target must be an existing admin or superAdmin,
   * the type `blog` or `travsnap`, and the content must exist. The pair's active assignments are
   * then deactivated and one new active assignment naming the moderator is inserted.
   */
  method Assign(db: Database, caller: Option<Id>, moderatorId: Id, contentId: Id, contentType: string)
    returns (r: Response<()>)
    modifies db`assignments
    ensures !IsSuperAdminCaller(db.users, caller) ==> r == Fail(Forbidden) && unchanged(db)
    ensures IsSuperAdminCaller(db.users, caller) && (!HasRow(db.users, moderatorId) || contentType !in [BlogType, TravsnapType]) ==>
              r == Fail(ServerError) && unchanged(db)
    ensures IsSuperAdminCaller(db.users, caller) && HasRow(db.users, moderatorId) && contentType in [BlogType, TravsnapType] &&
            !IsModerator(db.users[moderatorId - 1].role) ==>
              r == Fail(NotAnAdmin) && unchanged(db)
    ensures IsSuperAdminCaller(db.users, caller) && HasRow(db.users, moderatorId) && contentType in [BlogType, TravsnapType] &&
            IsModerator(db.users[moderatorId - 1].role) && !ContentExists(db.blogs, db.travsnaps, contentType, contentId) ==>
              r == Fail(ServerError) && unchanged(db)
    ensures IsSuperAdminCaller(db.users, caller) && HasRow(db.users, moderatorId) && contentType in [BlogType, TravsnapType] &&
            IsModerator(db.users[moderatorId - 1].role) && ContentExists(db.blogs, db.travsnaps, contentType, contentId) ==>
              r == Ok(()) && db.assignments == Registry.Reassign(old(db.assignments), moderatorId, contentType, contentId)
    ensures r.Ok? ==>
              Count(db.assignments, Registry.ActiveFor(contentType, contentId)) == 1 &&
              (forall j :: 0 <= j < |db.assignments| && Registry.ActiveFor(contentType, contentId)(db.assignments[j]) ==>
                 db.assignments[j].moderatorId == moderatorId) &&
              (forall j :: 0 <= j < |old(db.assignments)| && !Registry.OfPair(old(db.assignments)[j], contentType, contentId) ==>
                 db.assignments[j] == old(db.assignments)[j])
    ensures old(Registry.SingleActive(db.assignments)) ==> Registry.SingleActive(db.assignments)
    ensures old(Registry.TravsnapAssignmentsExist(db.assignments, db.travsnaps)) ==>
              Registry.TravsnapAssignmentsExist(db.assignments, db.travsnaps)
  {
    if !IsSuperAdminCaller(db.users, caller) {
      return Fail(Forbidden);
    }
    if !HasRow(db.users, moderatorId) || contentType !in [BlogType, TravsnapType] {
      return Fail(ServerError);
    }
    if !IsModerator(db.users[moderatorId - 1].role) {
      return Fail(NotAnAdmin);
    }
    if !ContentExists(db.blogs, db.travsnaps, contentType, contentId) {
      return Fail(ServerError);
    }
    ghost var assignments0 := db.assignments;
    db.assignments := Registry.Release(db.assignments, contentType, contentId);
    db.assignments := db.assignments + [Assignment(moderatorId, contentId, contentType, true)];
    Registry.ReassignSingle(assignments0, moderatorId, contentType, contentId);
    if Registry.SingleActive(assignments0) {
      Registry.ReassignKeepsSingle(assignments0, moderatorId, contentType, contentId);
    }
    return Ok(());
  }

  /** The lists `getModeratorAssignments` answers with. */
  datatype PendingContent = PendingContent(blogs: seq<(Id, Blog)>, travsnaps: seq<(Id, Travsnap)>)

  /**
   * One pass of the `foreach`: a `'blog'` assignment adds its blog when that blog is pending;
   * an assignment of any other type adds its travsnap when that travsnap is pending.
   */
  function Step(acc: PendingContent, a: Assignment, blogs: seq<Blog>, travsnaps: seq<Travsnap>): PendingContent {
    if a.contentType == BlogType then
      if HasRow(blogs, a.contentId) && blogs[a.contentId - 1].status == Pending
      then acc.(blogs := acc.blogs + [(a.contentId, blogs[a.contentId - 1])])
      else acc
    else
      if HasRow(travsnaps, a.contentId) && travsnaps[a.contentId - 1].status == Pending
      then acc.(travsnaps := acc.travsnaps + [(a.contentId, travsnaps[a.contentId - 1])])
      else acc
  }

  /** The pending content the loop collects from `actives`, in assignment order. */
  function Collect(actives: seq<Assignment>, blogs: seq<Blog>, travsnaps: seq<Travsnap>): PendingContent {
    if actives == [] then PendingContent([], [])
    else Step(Collect(actives[..|actives| - 1], blogs, travsnaps), actives[|actives| - 1], blogs, travsnaps)
  }

  /** Some assignment in `actives` names content `id` of type `blog` (when `blog`) or of another type. */
  predicate Names(actives: seq<Assignment>, id: Id, blog: bool) {
    exists j :: 0 <= j < |actives| && actives[j].contentId == id && (actives[j].contentType == BlogType) == blog
  }

  /**
   * The collected blogs are exactly the pending blogs some `'blog'` assignment names, and the
   * collected travsnaps exactly the pending travsnaps some assignment of another type names.
   */
  lemma {:induction false} CollectMembers(actives: seq<Assignment>, blogs: seq<Blog>, travsnaps: seq<Travsnap>)
    ensures forall id, b :: (id, b) in Collect(actives, blogs, travsnaps).blogs <==>
              HasRow(blogs, id) && blogs[id - 1] == b && b.status == Pending && Names(actives, id, true)
    ensures forall id, t :: (id, t) in Collect(actives, blogs, travsnaps).travsnaps <==>
              HasRow(travsnaps, id) && travsnaps[id - 1] == t && t.status == Pending && Names(actives, id, false)
    decreases |actives|
  {
    if actives != [] {
      var init := actives[..|actives| - 1];
      var a := actives[|actives| - 1];
      CollectMembers(init, blogs, travsnaps);
      forall id, blog: bool
        ensures Names(actives, id, blog) <==> Names(init, id, blog) || (a.contentId == id && (a.contentType == BlogType) == blog)
      {
        if Names(actives, id, blog) {
          var j :| 0 <= j < |actives| && actives[j].contentId == id && (actives[j].contentType == BlogType) == blog;
          if j < |init| {
            assert init[j] == actives[j];
          }
        }
        if Names(init, id, blog) {
          var j :| 0 <= j < |init| && init[j].contentId == id && (init[j].contentType == BlogType) == blog;
          assert actives[j] == init[j];
        }
        if a.contentId == id && (a.contentType == BlogType) == blog {
          assert actives[|actives| - 1] == a;
        }
      }
    }
  }

  /** `ModeratorAssignment::where('moderator_id', m)->where('is_active', true)->get()`; a null id matches nothing. */
  function ActiveAssignmentsOf(assignments: seq<Assignment>, m: Option<Id>): (r: seq<Assignment>)
    ensures forall a :: a in r <==> a in assignments && m.Some? && a.moderatorId == m.value && a.isActive
  {
    Where(assignments, (a: Assignment) => m.Some? && a.moderatorId == m.value && a.isActive)
  }

  /** The `foreach` over the moderator's active assignments. */
  method CollectPending(db: Database, actives: seq<Assignment>) returns (content: PendingContent)
    ensures content == Collect(actives, db.blogs, db.travsnaps)
  {
    content := PendingContent([], []);
    var i := 0;
    while i < |actives|
      invariant 0 <= i <= |actives|
      invariant content == Collect(actives[..i], db.blogs, db.travsnaps)
    {
      assert actives[..i + 1][..i] == actives[..i];
      content := Step(content, actives[i], db.blogs, db.travsnaps);
      i := i + 1;
    }
    assert actives[..|actives|] == actives;
  }

  /** Who may list whose assignments: refused with a failure, or granted for moderator id `m`. */
  datatype Access = Denied(failure: Failure) | Granted(m: Option<Id>)

  /**
   * The check of `getModeratorAssignments` as written. The line that would default the id to
   * the caller is part of a comment, so a missing id stays null: the loose `!=` between the
   * caller's id and null holds, and only a superAdmin gets past it (to an empty list). With
   * no caller and an id, reading the missing user's role throws.
   */
  function AccessAsWritten(users: seq<User>, caller: Option<Id>, moderatorId: Option<Id>): (a: Access)
    ensures a.Granted? ==> a.m == moderatorId
    ensures a.Granted? <==> moderatorId == caller || IsSuperAdminCaller(users, caller)
  {
    if caller == moderatorId then Granted(moderatorId)
    else if caller.None? || !HasRow(users, caller.value) then Denied(ServerError)
    else if users[caller.value - 1].role != RoleSuperAdmin then Denied(Forbidden)
    else Granted(moderatorId)
  }

  /** The check with the intended default: a missing id means the caller's own assignments. */
  function AccessFor(users: seq<User>, caller: Option<Id>, moderatorId: Option<Id>): (a: Access)
    ensures moderatorId.None? ==> a == Granted(caller)
    ensures moderatorId.Some? ==> a == AccessAsWritten(users, caller, moderatorId)
  {
    AccessAsWritten(users, caller, if moderatorId.Some? then moderatorId else caller)
  }

  /**
   * The discrepancy: an admin who asks for their own assignments without giving an id is
   * refused by the code as written, and granted their own list with the default in place.
   */
  lemma AdminWithoutIdRefused(users: seq<User>, c: Id)
    requires HasRow(users, c) && users[c - 1].role == RoleAdmin
    ensures AccessAsWritten(users, Some(c), None) == Denied(Forbidden)
    ensures AccessFor(users, Some(c), None) == Granted(Some(c))
  {
  }

  /**
   * `getModeratorAssignments`, with the id defaulting to the caller: the caller must be that
   * moderator or a superAdmin, and the answer is the pending content of the moderator's active
   * assignments, blogs for `'blog'` rows and travsnaps for every other type.
   */
  method GetModeratorAssignments(db: Database, caller: Option<Id>, moderatorId: Option<Id>)
    returns (r: Response<PendingContent>)
    ensures AccessFor(db.users, caller, moderatorId).Denied? ==> r == Fail(AccessFor(db.users, caller, moderatorId).failure)
    ensures AccessFor(db.users, caller, moderatorId).Granted? ==>
              r == Ok(Collect(ActiveAssignmentsOf(db.assignments, AccessFor(db.users, caller, moderatorId).m),
                              db.blogs, db.travsnaps))
    ensures moderatorId.None? ==>
              r == Ok(Collect(ActiveAssignmentsOf(db.assignments, caller), db.blogs, db.travsnaps))
  {
    var access := AccessFor(db.users, caller, moderatorId);
    if access.Denied? {
      return Fail(access.failure);
    }
    var actives := ActiveAssignmentsOf(db.assignments, access.m);
    var content := CollectPending(db, actives);
    return Ok(content);
  }

  /** Pending and not among `taken`. */
  function UnassignedPending<T>(status: T -> Status, taken: set<Id>): ((Id, T)) -> bool {
    (p: (Id, T)) => status(p.1) == Pending && p.0 !in taken
  }

  /**
   * `getUnassignedContent`: superAdmin only; the pending blogs whose id no active `'blog'`
   * assignment names, and the pending travsnaps whose id no active `'travsnap'` assignment names.
   */
  function GetUnassignedContent(users: seq<User>, blogs: seq<Blog>, travsnaps: seq<Travsnap>,
                                assignments: seq<Assignment>, caller: Option<Id>): (r: Response<PendingContent>)
    ensures caller.None? || !HasRow(users, caller.value) ==> r == Fail(ServerError)
    ensures caller.Some? && HasRow(users, caller.value) && users[caller.value - 1].role != RoleSuperAdmin ==>
              r == Fail(Forbidden)
    ensures r.Ok? <==> IsSuperAdminCaller(users, caller)
    ensures r.Ok? ==>
              (forall id, b :: (id, b) in r.value.blogs <==>
                 HasRow(blogs, id) && blogs[id - 1] == b && b.status == Pending &&
                 id !in Registry.AssignedIds(assignments, BlogType)) &&
              (forall id, t :: (id, t) in r.value.travsnaps <==>
                 HasRow(travsnaps, id) && travsnaps[id - 1] == t && t.status == Pending &&
                 id !in Registry.AssignedIds(assignments, TravsnapType))
    ensures r.Ok? ==> UniqueIds(r.value.blogs) && UniqueIds(r.value.travsnaps)
  {
    if caller.None? || !HasRow(users, caller.value) then Fail(ServerError)
    else if users[caller.value - 1].role != RoleSuperAdmin then Fail(Forbidden)
    else
      IndexedMembers(blogs);
      IndexedMembers(travsnaps);
      var keepBlog := UnassignedPending((b: Blog) => b.status, Registry.AssignedIds(assignments, BlogType));
      var keepTravsnap := UnassignedPending((t: Travsnap) => t.status, Registry.AssignedIds(assignments, TravsnapType));
      WhereIndexedOnce(blogs, keepBlog);
      WhereIndexedOnce(travsnaps, keepTravsnap);
      Ok(PendingContent(Where(Indexed(blogs), keepBlog), Where(Indexed(travsnaps), keepTravsnap)))
  }

  /** `getAvailableModerators`: superAdmin only; exactly the users whose role is admin or superAdmin. */
  function GetAvailableModerators(users: seq<User>, caller: Option<Id>): (r: Response<seq<(Id, User)>>)
    ensures caller.None? || !HasRow(users, caller.value) ==> r == Fail(ServerError)
    ensures r.Ok? <==> IsSuperAdminCaller(users, caller)
    ensures r.Fail? && caller.Some? && HasRow(users, caller.value) ==> r == Fail(Forbidden)
    ensures r.Ok? ==> forall id, u :: (id, u) in r.value <==> HasRow(users, id) && users[id - 1] == u && IsModerator(u.role)
    ensures r.Ok? ==> UniqueIds(r.value)
  {
    if caller.None? || !HasRow(users, caller.value) then Fail(ServerError)
    else if users[caller.value - 1].role != RoleSuperAdmin then Fail(Forbidden)
    else
      IndexedMembers(users);
      var keep := (p: (Id, User)) => IsModerator(p.1.role);
      WhereIndexedOnce(users, keep);
      Ok(Where(Indexed(users), keep))
  }
}
