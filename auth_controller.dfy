/**
 * `AuthController`: registration (which seeds the first OTP), the strict OTP check of
 * `verifyEmail`, the verification flag, the profile image chosen at login, and the account
 * update with its password rule.
 */
module AuthController {
  import opened Wrappers
  import opened Http
  import opened Tables
  import opened Schema
  import opened Text
  import opened Accounts
  import EmailVerification

  datatype RegisterRequest = RegisterRequest(
    fullName: Param<string>,
    email: Param<string>,
    phone: Param<string>,
    password: Param<string>,
    passwordConfirmation: Param<string>)

  /** The `confirmed` rule: the `_confirmation` field is present and equal to the value. */
  predicate Confirmed(value: string, confirmation: Param<string>) {
    confirmation == Given(value)
  }

  /** The rules of `register`. */
  predicate RegisterValid(env: Env, users: seq<User>, req: RegisterRequest) {
    Filled(req.fullName) && |req.fullName.value| <= 255 &&
    Filled(req.email) && env.isEmail(req.email.value) && |req.email.value| <= 255 &&
    UserByEmail(users, req.email.value).None? &&
    NullableMax(req.phone, 20) &&
    Filled(req.password) && |req.password.value| >= 6 && Confirmed(req.password.value, req.passwordConfirmation)
  }

  /** The user `register` creates: role `user` (the column default) and not yet verified. */
  function Registered(env: Env, req: RegisterRequest): User
    requires req.fullName.Given? && req.email.Given? && req.password.Given?
  {
    User(req.fullName.value, req.email.value, req.phone.ToOption(), env.hash(req.password.value),
         RoleUser, None, None)
  }

  /**
   * `register`: a valid request appends an unverified user and stores a fresh OTP under the
   * address's key. Sending the mail happens after the OTP is stored and its failure is only
   * logged, so the result does not depend on it.
   */
  method Register(db: Database, env: Env, req: RegisterRequest, draw: OtpDraw) returns (r: Response<Id>)
    modifies db`users, db`cache
    ensures !RegisterValid(env, old(db.users), req) ==> r == Fail(Unprocessable) && unchanged(db)
    ensures RegisterValid(env, old(db.users), req) ==>
              r == Ok(|old(db.users)| + 1) &&
              db.users == old(db.users) + [Registered(env, req)] &&
              db.cache == old(db.cache)[OtpKey(req.email.value) := FormatOtp(draw)]
    ensures r.Ok? ==>
              HasRow(db.users, r.value) && db.users[r.value - 1].emailVerifiedAt.None? &&
              db.users[r.value - 1].role == RoleUser &&
              UserByEmail(db.users, req.email.value) == Some(r.value) &&
              !OtpMissing(db.cache, req.email.value)
  {
    if !RegisterValid(env, db.users, req) {
      return Fail(Unprocessable);
    }
    ghost var before := db.users;
    db.users := db.users + [Registered(env, req)];
    db.cache := db.cache[OtpKey(req.email.value) := FormatOtp(draw)];
    r := Ok(|db.users|);
    assert forall j :: 0 <= j < |before| ==> db.users[j].email == before[j].email;
  }

  /** `checkEmailVerification`: verified exactly when `email_verified_at` is set. */
  function CheckEmailVerification(users: seq<User>, caller: Option<Id>): (r: Response<bool>)
    ensures r.Ok? <==> IsCaller(users, caller)
    ensures r.Fail? ==> r.failure == Unauthenticated
    ensures r.Ok? ==> (r.value <==> users[caller.value - 1].emailVerifiedAt.Some?)
  {
    if !IsCaller(users, caller) then Fail(Unauthenticated)
    else Ok(users[caller.value - 1].emailVerifiedAt != None)
  }

  /** `required|email`, and `required|string|size:6`. */
  predicate VerifyEmailValid(env: Env, email: Param<string>, otp: Param<string>) {
    Filled(email) && env.isEmail(email.value) && EmailVerification.OtpValid(otp)
  }

  /**
   * `verifyEmail`: no stored OTP, an OTP that is not identical to the stored one, or an address
   * no user has, change nothing. Otherwise the user becomes verified, the OTP is forgotten and
   * the detail row is upserted, this time also copying the user's `profile_image`.
   */
  method VerifyEmail(db: Database, env: Env, email: Param<string>, otp: Param<string>, now: Time) returns (r: Response<()>)
    modifies db`users, db`userDetails, db`cache
    ensures !VerifyEmailValid(env, email, otp) ==> r == Fail(Unprocessable) && unchanged(db)
    ensures VerifyEmailValid(env, email, otp) && OtpMissing(old(db.cache), email.value) ==>
              r == Fail(OtpExpired) && unchanged(db)
    ensures VerifyEmailValid(env, email, otp) && !OtpMissing(old(db.cache), email.value) &&
            old(db.cache)[OtpKey(email.value)] != otp.value ==>
              r == Fail(OtpInvalid) && unchanged(db)
    ensures VerifyEmailValid(env, email, otp) && !OtpMissing(old(db.cache), email.value) &&
            old(db.cache)[OtpKey(email.value)] == otp.value && UserByEmail(old(db.users), email.value).None? ==>
              r == Fail(NotFound) && unchanged(db)
    ensures r.Ok? <==>
              VerifyEmailValid(env, email, otp) && !OtpMissing(old(db.cache), email.value) &&
              old(db.cache)[OtpKey(email.value)] == otp.value && UserByEmail(old(db.users), email.value).Some?
    ensures r.Ok? ==>
              var uid := UserByEmail(old(db.users), email.value).value;
              db.users == old(db.users)[uid - 1 := old(db.users)[uid - 1].(emailVerifiedAt := Some(now))] &&
              db.userDetails ==
                UpsertDetail(old(db.userDetails), uid, db.users[uid - 1], now, Some(old(db.users)[uid - 1].profileImage)) &&
              db.cache == old(db.cache) - {OtpKey(email.value)}
  {
    if !VerifyEmailValid(env, email, otp) {
      return Fail(Unprocessable);
    }
    if OtpMissing(db.cache, email.value) {
      return Fail(OtpExpired);
    }
    if db.cache[OtpKey(email.value)] != otp.value {
      return Fail(OtpInvalid);
    }
    var found := UserByEmail(db.users, email.value);
    if found.None? {
      return Fail(NotFound);
    }
    var uid := found.value;
    db.cache := db.cache - {OtpKey(email.value)};
    EmailVerification.MarkVerified(db, uid, now, true);
    r := Ok(());
  }

  datatype AccountUpdate = AccountUpdate(
    name: Param<string>,
    email: Param<string>,
    password: Param<string>,
    passwordConfirmation: Param<string>)

  /** The rules of `updateProfile`; the address must be unused by every OTHER user. */
  predicate AccountUpdateValid(env: Env, users: seq<User>, uid: Id, req: AccountUpdate) {
    Filled(req.name) && |req.name.value| <= 255 &&
    Filled(req.email) && env.isEmail(req.email.value) && |req.email.value| <= 255 &&
    (forall j :: 0 <= j < |users| && j != uid - 1 ==> users[j].email != req.email.value) &&
    (Filled(req.password) ==> |req.password.value| >= 6 && Confirmed(req.password.value, req.passwordConfirmation))
  }

  /**
   * A blank password skips `min:6` and `confirmed`, so the request is judged as if it carried
   * no password at all.
   */
  lemma BlankPasswordIgnored(env: Env, users: seq<User>, uid: Id, req: AccountUpdate, confirmation: Param<string>)
    requires req.password.Given? && IsBlank(req.password.value)
    ensures AccountUpdateValid(env, users, uid, req.(passwordConfirmation := confirmation)) ==
            AccountUpdateValid(env, users, uid, req.(password := Missing, passwordConfirmation := Missing))
  {
  }

  /**
   * `updateProfile`: name and address are always overwritten; the password hash changes only
   * when a non-blank password is supplied. No other user changes.
   */
  method UpdateAccount(db: Database, env: Env, caller: Option<Id>, req: AccountUpdate) returns (r: Response<()>)
    modifies db`users
    ensures !IsCaller(old(db.users), caller) ==> r == Fail(Unauthenticated) && unchanged(db)
    ensures IsCaller(old(db.users), caller) && !AccountUpdateValid(env, old(db.users), caller.value, req) ==>
              r == Fail(Unprocessable) && unchanged(db)
    ensures r.Ok? <==> IsCaller(old(db.users), caller) && AccountUpdateValid(env, old(db.users), caller.value, req)
    ensures r.Ok? ==>
              var u := old(db.users)[caller.value - 1];
              |db.users| == |old(db.users)| &&
              db.users[caller.value - 1] ==
                u.(name := req.name.value, email := req.email.value,
                   passwordHash := if Filled(req.password) then env.hash(req.password.value) else u.passwordHash) &&
              forall j :: 0 <= j < |db.users| && j != caller.value - 1 ==> db.users[j] == old(db.users)[j]
    ensures r.Ok? ==> UserByEmail(db.users, req.email.value) == caller
  {
    if !IsCaller(db.users, caller) {
      return Fail(Unauthenticated);
    }
    var uid := caller.value;
    if !AccountUpdateValid(env, db.users, uid, req) {
      return Fail(Unprocessable);
    }
    var u := db.users[uid - 1].(name := req.name.value, email := req.email.value);
    if Filled(req.password) {
      u := u.(passwordHash := env.hash(req.password.value));
    }
    db.users := db.users[uid - 1 := u];
    r := Ok(());
  }
}
