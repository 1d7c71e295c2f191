/**
 * `AdminUserController`: listing the users and changing one user's role. The role rule admits
 * only `user` and `admin`, so this action can demote a superAdmin but never create one.
 */
module AdminUserController {
  import opened Wrappers
  import opened Http
  import opened Tables
  import opened Schema
  import opened Text

  /** `index`: every user, as (id, row) pairs in id order. */
  function Index(users: seq<User>): (r: seq<(Id, User)>)
    ensures |r| == |users|
    ensures forall id, u :: (id, u) in r <==> HasRow(users, id) && users[id - 1] == u
  {
    IndexedMembers(users);
    Indexed(users)
  }

  /** `required|in:user,admin`, as the role it names. */
  function ParseRole(role: Param<string>): (r: Option<Role>)
    ensures r.Some? <==> role == Given("user") || role == Given("admin")
    ensures r.Some? ==> r.value != RoleSuperAdmin
  {
    if role == Given("user") then Some(RoleUser)
    else if role == Given("admin") then Some(RoleAdmin)
    else None
  }

  /** The superAdmin users. */
  function IsSuperAdmin(u: User): bool {
    u.role == RoleSuperAdmin
  }

  /** Giving one user a role other than superAdmin never adds a superAdmin. */
  lemma RoleUpdateAddsNoSuperAdmin(users: seq<User>, i: nat, role: Role)
    requires i < |users| && role != RoleSuperAdmin
    ensures Count(users[i := users[i].(role := role)], IsSuperAdmin) ==
            Count(users, IsSuperAdmin) - (if IsSuperAdmin(users[i]) then 1 else 0)
    ensures Count(users[i := users[i].(role := role)], IsSuperAdmin) <= Count(users, IsSuperAdmin)
  {
    CountUpdate(users, i, users[i].(role := role), IsSuperAdmin);
  }

  /**
   * `updateRole`: a role other than `user` or `admin` answers 422, an unknown id 404, both with
   * no change; otherwise only the target user's role changes.
   */
  method UpdateRole(db: Database, id: Id, role: Param<string>) returns (r: Response<()>)
    modifies db`users
    ensures ParseRole(role).None? ==> r == Fail(Unprocessable) && unchanged(db)
    ensures ParseRole(role).Some? && !HasRow(old(db.users), id) ==> r == Fail(NotFound) && unchanged(db)
    ensures r.Ok? <==> ParseRole(role).Some? && HasRow(old(db.users), id)
    ensures r.Ok? ==> db.users == old(db.users)[id - 1 := old(db.users)[id - 1].(role := ParseRole(role).value)]
    ensures forall j :: 0 <= j < |db.users| && db.users[j].role == RoleSuperAdmin ==>
              j < |old(db.users)| && old(db.users)[j].role == RoleSuperAdmin
    ensures Count(db.users, IsSuperAdmin) <= Count(old(db.users), IsSuperAdmin)
  {
    var parsed := ParseRole(role);
    if parsed.None? {
      return Fail(Unprocessable);
    }
    if !HasRow(db.users, id) {
      return Fail(NotFound);
    }
    RoleUpdateAddsNoSuperAdmin(db.users, id - 1, parsed.value);
    db.users := db.users[id - 1 := db.users[id - 1].(role := parsed.value)];
    r := Ok(());
  }
}
