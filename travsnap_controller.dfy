/**
 * TravsnapController: creating, editing, soft-deleting and featuring travsnaps, the pending
 * list for moderators, and the supersession path of approval and rejection (a new active
 * moderation record, the old one named by `moderation_id` deactivated, the travsnap's
 * assignments released, and the pointer moved to the new record).
 *
 * Every action runs inside a try/catch that turns any exception, a failed validation and
 * a `findOrFail` miss included, into a 500 (`ServerError`).
 */
module TravsnapController {
  import opened Wrappers
  import opened Http
  import opened Tables
  import opened Schema
  import opened Text
  import Ledger
  import Registry

  /** The invariants this controller keeps between requests. */
  predicate Consistent(db: Database)
    reads db
  {
    Ledger.Linked(db.travsnaps, db.travsnapModerations) &&
    Registry.SingleActive(db.assignments) &&
    Registry.TravsnapAssignmentsExist(db.assignments, db.travsnaps)
  }

  /** `User::where('role', 'superAdmin')->first()`, as a user id. */
  function FirstSuperAdmin(users: seq<User>): (r: Option<Id>)
    ensures r.Some? ==> HasRow(users, r.value) && users[r.value - 1].role == RoleSuperAdmin
    ensures r.Some? ==> forall j :: 0 <= j < r.value - 1 ==> users[j].role != RoleSuperAdmin
    ensures r.None? <==> forall j :: 0 <= j < |users| ==> users[j].role != RoleSuperAdmin
  {
    match FirstMatch(users, (u: User) => u.role == RoleSuperAdmin)
    case Some(i) => Some(i + 1)
    case None => None
  }

  /** The storage folder of a travsnap's images. */
  function Folder(id: nat): string {
    "travsnap/" + NatToString(id)
  }

  /** The public path `saveBase64ImageToFolder` returns for a saved image. */
  function SavedPath(folder: string, prefix: string, imageType: string): string {
    "storage/" + folder + "/" + prefix + "." + imageType
  }

  /**
   * One gallery entry after processing, as the `k`-th image: a `data:image` string is saved
   * under the name `img{k}`; any other string is kept as given. `None` when the data URL does
   * not have the shape the save expects (reading the missing regex group throws).
   */
  function GalleryEntry(env: Env, folder: string, k: nat, e: string): Option<string> {
    if StartsWith(e, "data:image") then
      match env.dataUrlType(e)
      case Some(imageType) => Some(SavedPath(folder, "img" + NatToString(k), imageType))
      case None => None
    else
      Some(e)
  }

  /** Every entry of `images` can be processed when numbered from `offset + 1`. */
  predicate GalleryOk(env: Env, folder: string, offset: nat, images: seq<string>) {
    forall i :: 0 <= i < |images| ==> GalleryEntry(env, folder, offset + i + 1, images[i]).Some?
  }

  /** `paths` is `images` processed entry by entry, keeping length and order. */
  predicate GalleryOf(env: Env, folder: string, offset: nat, images: seq<string>, paths: seq<string>) {
    |paths| == |images| &&
    forall i :: 0 <= i < |images| ==> GalleryEntry(env, folder, offset + i + 1, images[i]) == Some(paths[i])
  }

  /** Images saved for the same travsnap under different numbers never share a file. */
  lemma SavedNamesInjective(folder: string, k1: nat, k2: nat, t1: string, t2: string)
    ensures SavedPath(folder, "img" + NatToString(k1), t1) == SavedPath(folder, "img" + NatToString(k2), t2) ==> k1 == k2
  {
    var p1 := SavedPath(folder, "img" + NatToString(k1), t1);
    var p2 := SavedPath(folder, "img" + NatToString(k2), t2);
    var start := |"storage/" + folder + "/img"|;
    var s1, s2 := NatToString(k1), NatToString(k2);
    assert p1[start..] == s1 + ['.'] + t1;
    assert p2[start..] == s2 + ['.'] + t2;
    DigitPrefixOf(s1, '.', t1);
    DigitPrefixOf(s2, '.', t2);
    ParseNatToString(k1);
    ParseNatToString(k2);
  }

  /** The gallery `foreach`: process each entry in order, stopping at the first one that throws. */
  method ProcessGallery(env: Env, images: seq<string>, folder: string, offset: nat)
    returns (paths: Option<seq<string>>)
    ensures paths.Some? <==> GalleryOk(env, folder, offset, images)
    ensures paths.Some? ==> GalleryOf(env, folder, offset, images, paths.value)
  {
    var acc: seq<string> := [];
    var i := 0;
    while i < |images|
      invariant 0 <= i <= |images|
      invariant |acc| == i
      invariant forall j :: 0 <= j < i ==> GalleryEntry(env, folder, offset + j + 1, images[j]) == Some(acc[j])
    {
      var entry := GalleryEntry(env, folder, offset + i + 1, images[i]);
      if entry.None? {
        return None;
      }
      acc := acc + [entry.value];
      i := i + 1;
    }
    return Some(acc);
  }

  /** The `store` request. */
  datatype StoreRequest = StoreRequest(
    title: string, description: string, location: JsonArray, gallery: seq<string>, userId: Id)

  /** `required|string|max:255`, `required|string`, `required|array`, `required|array|min:1`, `exists:users,id`. */
  predicate StoreValid(users: seq<User>, req: StoreRequest) {
    !IsBlank(req.title) && |req.title| <= 255 && !IsBlank(req.description) &&
    |req.location| > 0 && |req.gallery| >= 1 && HasRow(users, req.userId)
  }

  /** The row `store` inserts: pending, not featured, active, with an empty gallery and no pointer yet. */
  function Created(req: StoreRequest, now: Time): Travsnap {
    Travsnap(req.userId, None, req.title, req.description, req.location, Pending, [], false, true, now, now)
  }

  /**
   * `store`. On success the new travsnap points to its new pending record, whose moderator is
   * the first superAdmin (or the creator when there is none), and the superAdmin, if any, gets
   * an active assignment for it. An image that cannot be saved leaves the inserted row behind,
   * with an empty gallery and no moderation record.
   */
  method Store(db: Database, env: Env, req: StoreRequest, now: Time) returns (r: Response<Id>)
    modifies db`travsnaps, db`travsnapModerations, db`assignments
    ensures !StoreValid(db.users, req) ==> r == Fail(ServerError) && unchanged(db)
    ensures StoreValid(db.users, req) && !GalleryOk(env, Folder(|old(db.travsnaps)| + 1), 0, req.gallery) ==>
              r == Fail(ServerError) &&
              db.travsnaps == old(db.travsnaps) + [Created(req, now)] &&
              db.travsnapModerations == old(db.travsnapModerations) && db.assignments == old(db.assignments)
    ensures StoreValid(db.users, req) && GalleryOk(env, Folder(|old(db.travsnaps)| + 1), 0, req.gallery) ==>
              var id := |old(db.travsnaps)| + 1;
              var superAdmin := FirstSuperAdmin(db.users);
              r == Ok(id) && |db.travsnaps| == id && db.travsnaps[..id - 1] == old(db.travsnaps) &&
              var t := db.travsnaps[id - 1];
              t == Created(req, now).(moderationId := Some(|old(db.travsnapModerations)| + 1), gallery := t.gallery) &&
              GalleryOf(env, Folder(id), 0, req.gallery, t.gallery) &&
              db.travsnapModerations == old(db.travsnapModerations) +
                [ModerationRecord(id, superAdmin.GetOr(req.userId), Pending, None, None, None, None, true)] &&
              db.assignments == old(db.assignments) +
                (if superAdmin.Some? then [Assignment(superAdmin.value, id, TravsnapType, true)] else [])
    ensures old(Consistent(db)) ==> Consistent(db)
  {
    if !StoreValid(db.users, req) {
      return Fail(ServerError);
    }
    ghost var wasConsistent := Consistent(db);
    ghost var travsnaps0, records0, assignments0 := db.travsnaps, db.travsnapModerations, db.assignments;
    var id := |db.travsnaps| + 1;
    var row := Created(req, now);
    db.travsnaps := db.travsnaps + [row];
    if wasConsistent {
      Ledger.AppendUnlinkedKeepsLink(travsnaps0, records0, row);
    }
    var paths := ProcessGallery(env, req.gallery, Folder(id), 0);
    if paths.None? {
      return Fail(ServerError);
    }
    row := row.(gallery := paths.value);
    db.travsnaps := db.travsnaps[id - 1 := row];
    var superAdmin := FirstSuperAdmin(db.users);
    var moderator := if superAdmin.Some? then superAdmin.value else req.userId;
    var moderationId := |db.travsnapModerations| + 1;
    var issued := ModerationRecord(id, moderator, Pending, None, None, None, None, true);
    db.travsnapModerations := db.travsnapModerations + [issued];
    if superAdmin.Some? {
      db.assignments := db.assignments + [Assignment(superAdmin.value, id, TravsnapType, true)];
      if wasConsistent {
        Registry.CreateForNewTravsnapKeepsSingle(assignments0, travsnaps0, superAdmin.value);
      }
    }
    row := row.(moderationId := Some(moderationId));
    db.travsnaps := db.travsnaps[id - 1 := row];
    assert db.travsnaps == travsnaps0 + [row];
    if wasConsistent {
      Ledger.StoreKeepsLink(travsnaps0, records0, row, issued);
    }
    return Ok(id);
  }

  /** The `update` request; each field may be absent, null or given. */
  datatype UpdateRequest = UpdateRequest(
    title: Param<string>, description: Param<string>, location: Param<JsonArray>,
    gallery: Param<seq<string>>, status: Param<string>)

  /** `in:pending,approved,rejected`. */
  function ParseStatus(s: string): (st: Option<Status>)
    ensures st.Some? ==> st.value in {Pending, Approved, Rejected}
  {
    if s == "pending" then Some(Pending)
    else if s == "approved" then Some(Approved)
    else if s == "rejected" then Some(Rejected)
    else None
  }

  /**
   * The `sometimes|...` rules: an absent field passes, a null one fails every rule, and a blank
   * title skips `string|max:255`. A status must be one of the three values (a blank status is
   * refused here too; see `Update` under "Left out" in the README).
   */
  predicate UpdateValid(req: UpdateRequest) {
    !req.title.Null? && (Filled(req.title) ==> |req.title.value| <= 255) &&
    !req.description.Null? && !req.location.Null? && !req.gallery.Null? &&
    !req.status.Null? && (req.status.Given? ==> ParseStatus(req.status.value).Some?)
  }

  /** A supplied, non-empty gallery is processed, numbering new images after the existing ones. */
  predicate AppendsImages(req: UpdateRequest) {
    req.gallery.Given? && |req.gallery.value| > 0
  }

  /**
   * The gallery after `update`: the existing gallery followed by the processed entries when a
   * non-empty gallery is supplied; `[]` when an empty one is; the existing one when absent.
   */
  predicate NewGallery(env: Env, folder: string, existing: seq<string>, req: UpdateRequest, g: seq<string>) {
    if AppendsImages(req) then
      |g| == |existing| + |req.gallery.value| && g[..|existing|] == existing &&
      GalleryOf(env, folder, |existing|, req.gallery.value, g[|existing|..])
    else
      g == req.gallery.OrElse(existing)
  }

  /**
   * `update`. Each of title, description, location, gallery and status takes the request value
   * when present and keeps the stored one when absent; status may be set to pending, approved
   * or rejected without touching the moderation records or the assignments.
   */
  method Update(db: Database, env: Env, id: Id, req: UpdateRequest, now: Time) returns (r: Response<()>)
    modifies db`travsnaps
    ensures !UpdateValid(req) || !HasRow(old(db.travsnaps), id) ==> r == Fail(ServerError) && unchanged(db)
    ensures UpdateValid(req) && HasRow(old(db.travsnaps), id) && AppendsImages(req) &&
            !GalleryOk(env, Folder(id), |old(db.travsnaps)[id - 1].gallery|, req.gallery.value) ==>
              r == Fail(ServerError) && unchanged(db)
    ensures r.Ok? ==>
              HasRow(old(db.travsnaps), id) && |db.travsnaps| == |old(db.travsnaps)| &&
              (forall j :: 0 <= j < |db.travsnaps| && j != id - 1 ==> db.travsnaps[j] == old(db.travsnaps)[j]) &&
              var t := old(db.travsnaps)[id - 1];
              var t' := db.travsnaps[id - 1];
              t'.title == req.title.OrElse(t.title) &&
              t'.description == req.description.OrElse(t.description) &&
              t'.location == req.location.OrElse(t.location) &&
              NewGallery(env, Folder(id), t.gallery, req, t'.gallery) &&
              t'.status == (if req.status.Given? then ParseStatus(req.status.value).value else t.status) &&
              t'.userId == t.userId && t'.moderationId == t.moderationId &&
              t'.isFeatured == t.isFeatured && t'.isActive == t.isActive && t'.createdAt == t.createdAt &&
              (t' == t || t'.updatedAt == now)
    ensures UpdateValid(req) && HasRow(old(db.travsnaps), id) &&
            (AppendsImages(req) ==> GalleryOk(env, Folder(id), |old(db.travsnaps)[id - 1].gallery|, req.gallery.value)) ==>
              r.Ok?
    ensures old(Consistent(db)) ==> Consistent(db)
  {
    if !UpdateValid(req) || !HasRow(db.travsnaps, id) {
      return Fail(ServerError);
    }
    var t := db.travsnaps[id - 1];
    var gallery := req.gallery.OrElse(t.gallery);
    if AppendsImages(req) {
      var paths := ProcessGallery(env, req.gallery.value, Folder(id), |t.gallery|);
      if paths.None? {
        return Fail(ServerError);
      }
      gallery := t.gallery + paths.value;
      assert gallery[..|t.gallery|] == t.gallery && gallery[|t.gallery|..] == paths.value;
    }
    var status := if req.status.Given? then ParseStatus(req.status.value).value else t.status;
    var merged := t.(title := req.title.OrElse(t.title), description := req.description.OrElse(t.description),
                     location := req.location.OrElse(t.location), gallery := gallery, status := status);
    db.travsnaps := db.travsnaps[id - 1 := SaveTravsnap(t, merged, now)];
    return Ok(());
  }

  /** `destroy`: a soft delete that clears `is_active` and nothing else. */
  method Destroy(db: Database, id: Id, now: Time) returns (r: Response<()>)
    modifies db`travsnaps
    ensures !HasRow(old(db.travsnaps), id) ==> r == Fail(ServerError) && unchanged(db)
    ensures HasRow(old(db.travsnaps), id) ==>
              r == Ok(()) &&
              db.travsnaps == old(db.travsnaps)[id - 1 := SaveTravsnap(old(db.travsnaps)[id - 1],
                                                                       old(db.travsnaps)[id - 1].(isActive := false), now)]
    ensures old(Consistent(db)) ==> Consistent(db)
  {
    if !HasRow(db.travsnaps, id) {
      return Fail(ServerError);
    }
    var t := db.travsnaps[id - 1];
    db.travsnaps := db.travsnaps[id - 1 := SaveTravsnap(t, t.(isActive := false), now)];
    return Ok(());
  }

  /** The featured flag negated. */
  function Featured(t: Travsnap): (t': Travsnap)
    ensures t'.isFeatured != t.isFeatured
    ensures t'.(isFeatured := t.isFeatured) == t
  {
    t.(isFeatured := !t.isFeatured)
  }

  /** `toggleFeatured` applied twice restores the travsnap. */
  lemma FeaturedTwice(t: Travsnap)
    ensures Featured(Featured(t)) == t
  {
  }

  /**
   * `toggleFeatured`. `isAdmin` is the caller's `is_admin` attribute as the request finds it
   * (false when there is no caller); the action answers the new flag.
   */
  method ToggleFeatured(db: Database, isAdmin: bool, id: Id, now: Time) returns (r: Response<bool>)
    modifies db`travsnaps
    ensures !isAdmin ==> r == Fail(Forbidden) && unchanged(db)
    ensures isAdmin && !HasRow(old(db.travsnaps), id) ==> r == Fail(ServerError) && unchanged(db)
    ensures isAdmin && HasRow(old(db.travsnaps), id) ==>
              var t := old(db.travsnaps)[id - 1];
              r == Ok(!t.isFeatured) &&
              db.travsnaps == old(db.travsnaps)[id - 1 := Featured(t).(updatedAt := now)]
    ensures old(Consistent(db)) ==> Consistent(db)
  {
    if !isAdmin {
      return Fail(Forbidden);
    }
    if !HasRow(db.travsnaps, id) {
      return Fail(ServerError);
    }
    var t := db.travsnaps[id - 1];
    db.travsnaps := db.travsnaps[id - 1 := SaveTravsnap(t, Featured(t), now)];
    return Ok(!t.isFeatured);
  }

  /** Pending, active, and (when `restrict` is given) among the listed ids. */
  function PendingIn(restrict: Option<set<Id>>): ((Id, Travsnap)) -> bool {
    (p: (Id, Travsnap)) => p.1.status == Pending && p.1.isActive && (restrict.Some? ==> p.0 in restrict.value)
  }

  /**
   * `getPending`: moderators only; a superAdmin sees every pending active travsnap, an admin
   * only those with an active travsnap assignment to them. Rows are (id, travsnap) pairs.
   */
  function GetPending(users: seq<User>, travsnaps: seq<Travsnap>, assignments: seq<Assignment>,
                      caller: Option<Id>): (r: Response<seq<(Id, Travsnap)>>)
    ensures r.Fail? <==> !IsModeratorCaller(users, caller)
    ensures r.Fail? ==> r.failure == Forbidden
    ensures r.Ok? ==> forall id, t :: (id, t) in r.value <==>
              HasRow(travsnaps, id) && travsnaps[id - 1] == t && t.status == Pending && t.isActive &&
              (users[caller.value - 1].role == RoleAdmin ==>
                 id in Registry.AssignedTo(assignments, caller.value, TravsnapType))
    ensures r.Ok? ==> UniqueIds(r.value)
  {
    if !IsModeratorCaller(users, caller) then
      Fail(Forbidden)
    else
      IndexedMembers(travsnaps);
      var restrict := if users[caller.value - 1].role == RoleSuperAdmin then None
                      else Some(Registry.AssignedTo(assignments, caller.value, TravsnapType));
      WhereIndexedOnce(travsnaps, PendingIn(restrict));
      Ok(Where(Indexed(travsnaps), PendingIn(restrict)))
  }

  /** `notes` of `reject`: `required|string|max:500`. */
  predicate RejectNotesValid(notes: Param<string>) {
    notes.Given? && !IsBlank(notes.value) && |notes.value| <= 500
  }

  /**
   * The record approval or rejection by this controller inserts. An approval names the first
   * superAdmin (else the caller) and the notes with their default; a rejection names the caller
   * and stores the notes as both notes and reason.
   */
  function Issued(users: seq<User>, caller: Id, id: Id, approve: bool, notes: Param<string>, now: Time): ModerationRecord {
    if approve then
      ModerationRecord(id, FirstSuperAdmin(users).GetOr(caller), Approved, notes.Input("Approved by admin"),
                       None, Some(now), None, true)
    else
      ModerationRecord(id, caller, Rejected, notes.ToOption(), notes.ToOption(), None, Some(now), true)
  }

  /**
   * One supersession keeps the controller's invariants, and afterwards the travsnap has exactly
   * one active record, the issued one, and no active assignment.
   */
  lemma SupersessionKeepsConsistent(travsnaps: seq<Travsnap>, records: seq<ModerationRecord>,
                                    assignments: seq<Assignment>, id: Id, issued: ModerationRecord, t: Travsnap)
    requires Ledger.Linked(travsnaps, records) && Registry.SingleActive(assignments)
    requires Registry.TravsnapAssignmentsExist(assignments, travsnaps)
    requires HasRow(travsnaps, id) && issued.contentId == id && issued.isActive
    requires t.moderationId == Some(|records| + 1)
    ensures var ts, rs := travsnaps[id - 1 := t], Ledger.Supersede(records, travsnaps[id - 1].moderationId, issued);
            var rel := Registry.Release(assignments, TravsnapType, id);
            Ledger.Linked(ts, rs) && Registry.SingleActive(rel) && Registry.TravsnapAssignmentsExist(rel, ts) &&
            Ledger.ActiveCount(rs, id) == 1 && Ledger.Current(rs, id) == Some(issued)
  {
    Ledger.SupersedeKeepsLink(travsnaps, records, id, issued, t);
    Registry.ReleaseKeepsSingle(assignments, TravsnapType, id);
  }

  /**
   * `approve` (when `approve`) and `reject`: moderators only, and a rejection needs notes; no
   * pending precondition. The travsnap takes the new status and points to the new record, the
   * record the old `moderation_id` named is deactivated, and so are the travsnap's assignments.
   */
  method Decide(db: Database, caller: Option<Id>, id: Id, approve: bool, notes: Param<string>, now: Time)
    returns (r: Response<()>)
    modifies db`travsnaps, db`travsnapModerations, db`assignments
    ensures !IsModeratorCaller(db.users, caller) ==> r == Fail(Forbidden) && unchanged(db)
    ensures IsModeratorCaller(db.users, caller) && ((!approve && !RejectNotesValid(notes)) || !HasRow(old(db.travsnaps), id)) ==>
              r == Fail(ServerError) && unchanged(db)
    ensures IsModeratorCaller(db.users, caller) && (approve || RejectNotesValid(notes)) && HasRow(old(db.travsnaps), id) ==>
              var t := old(db.travsnaps)[id - 1];
              var issued := Issued(db.users, caller.value, id, approve, notes, now);
              r == Ok(()) &&
              db.travsnaps == old(db.travsnaps)[id - 1 := t.(status := if approve then Approved else Rejected,
                                                           moderationId := Some(|old(db.travsnapModerations)| + 1),
                                                           updatedAt := now)] &&
              db.travsnapModerations == Ledger.Supersede(old(db.travsnapModerations), t.moderationId, issued) &&
              db.assignments == Registry.Release(old(db.assignments), TravsnapType, id)
    ensures old(Consistent(db)) && r.Ok? ==>
              Consistent(db) && Ledger.ActiveCount(db.travsnapModerations, id) == 1 &&
              Ledger.Current(db.travsnapModerations, id) == Some(Issued(db.users, caller.value, id, approve, notes, now)) &&
              Count(db.assignments, Registry.ActiveFor(TravsnapType, id)) == 0
    ensures old(Consistent(db)) ==> Consistent(db)
  {
    if !IsModeratorCaller(db.users, caller) {
      return Fail(Forbidden);
    }
    if !approve && !RejectNotesValid(notes) {
      return Fail(ServerError);
    }
    if !HasRow(db.travsnaps, id) {
      return Fail(ServerError);
    }
    var t := db.travsnaps[id - 1];
    var issued := Issued(db.users, caller.value, id, approve, notes, now);
    var t' := t.(status := if approve then Approved else Rejected,
                 moderationId := Some(|db.travsnapModerations| + 1), updatedAt := now);
    var records := db.travsnapModerations + [issued];
    if Ledger.PointerSet(t.moderationId) {
      records := Ledger.DeactivateRow(records, t.moderationId.value);
    }
    Registry.ReleaseEmpties(db.assignments, TravsnapType, id);
    if Consistent(db) {
      SupersessionKeepsConsistent(db.travsnaps, db.travsnapModerations, db.assignments, id, issued, t');
    }
    db.travsnaps, db.travsnapModerations, db.assignments :=
      db.travsnaps[id - 1 := t'], records, Registry.Release(db.assignments, TravsnapType, id);
    return Ok(());
  }

  /** `approve`: the supersession path with an approval record. */
  method Approve(db: Database, caller: Option<Id>, id: Id, notes: Param<string>, now: Time) returns (r: Response<()>)
    modifies db`travsnaps, db`travsnapModerations, db`assignments
    ensures !IsModeratorCaller(db.users, caller) ==> r == Fail(Forbidden) && unchanged(db)
    ensures IsModeratorCaller(db.users, caller) && !HasRow(old(db.travsnaps), id) ==> r == Fail(ServerError) && unchanged(db)
    ensures IsModeratorCaller(db.users, caller) && HasRow(old(db.travsnaps), id) ==>
              var t := old(db.travsnaps)[id - 1];
              r == Ok(()) &&
              db.travsnaps == old(db.travsnaps)[id - 1 := t.(status := Approved,
                                                           moderationId := Some(|old(db.travsnapModerations)| + 1),
                                                           updatedAt := now)] &&
              db.travsnapModerations == Ledger.Supersede(old(db.travsnapModerations), t.moderationId,
                ModerationRecord(id, FirstSuperAdmin(db.users).GetOr(caller.value), Approved,
                                 notes.Input("Approved by admin"), None, Some(now), None, true)) &&
              db.assignments == Registry.Release(old(db.assignments), TravsnapType, id)
    ensures old(Consistent(db)) && r.Ok? ==>
              Consistent(db) && Ledger.ActiveCount(db.travsnapModerations, id) == 1 &&
              Count(db.assignments, Registry.ActiveFor(TravsnapType, id)) == 0
    ensures old(Consistent(db)) ==> Consistent(db)
  {
    r := Decide(db, caller, id, true, notes, now);
  }

  /** `reject`: the supersession path with a rejection record; the notes are required. */
  method Reject(db: Database, caller: Option<Id>, id: Id, notes: Param<string>, now: Time) returns (r: Response<()>)
    modifies db`travsnaps, db`travsnapModerations, db`assignments
    ensures !IsModeratorCaller(db.users, caller) ==> r == Fail(Forbidden) && unchanged(db)
    ensures IsModeratorCaller(db.users, caller) && (!RejectNotesValid(notes) || !HasRow(old(db.travsnaps), id)) ==>
              r == Fail(ServerError) && unchanged(db)
    ensures IsModeratorCaller(db.users, caller) && RejectNotesValid(notes) && HasRow(old(db.travsnaps), id) ==>
              var t := old(db.travsnaps)[id - 1];
              r == Ok(()) &&
              db.travsnaps == old(db.travsnaps)[id - 1 := t.(status := Rejected,
                                                           moderationId := Some(|old(db.travsnapModerations)| + 1),
                                                           updatedAt := now)] &&
              db.travsnapModerations == Ledger.Supersede(old(db.travsnapModerations), t.moderationId,
                ModerationRecord(id, caller.value, Rejected, Some(notes.value), Some(notes.value), None, Some(now), true)) &&
              db.assignments == Registry.Release(old(db.assignments), TravsnapType, id)
    ensures old(Consistent(db)) && r.Ok? ==>
              Consistent(db) && Ledger.ActiveCount(db.travsnapModerations, id) == 1 &&
              Count(db.assignments, Registry.ActiveFor(TravsnapType, id)) == 0
    ensures old(Consistent(db)) ==> Consistent(db)
  {
    r := Decide(db, caller, id, false, notes, now);
  }
}
