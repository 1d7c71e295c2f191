/**
 * `EmailVerificationController`: one-time passwords kept in the cache under a per-address key,
 * and the verification that consumes one, marks the user verified and writes the user's detail
 * row.
 */
module EmailVerification {
  import opened Wrappers
  import opened Http
  import opened Tables
  import opened Schema
  import opened Text
  import opened Accounts

  /** `required|email|exists:users,email`. */
  predicate EmailValid(env: Env, users: seq<User>, email: Param<string>) {
    Filled(email) && env.isEmail(email.value) && UserByEmail(users, email.value).Some?
  }

  /** `required|string|size:6`. */
  predicate OtpValid(otp: Param<string>) {
    Filled(otp) && |otp.value| == 6
  }

  /**
   * `sendOTP`: the formatted draw replaces whatever the address's key held, and is then mailed.
   * A failed mail answers 500, and the OTP stays stored.
   */
  method SendOtp(db: Database, env: Env, email: Param<string>, draw: OtpDraw, mailOk: bool) returns (r: Response<string>)
    modifies db`cache
    ensures !EmailValid(env, old(db.users), email) ==> r == Fail(Unprocessable) && unchanged(db)
    ensures EmailValid(env, old(db.users), email) ==>
              db.cache == old(db.cache)[OtpKey(email.value) := FormatOtp(draw)] &&
              r == (if mailOk then Ok(email.value) else Fail(MailFailed))
    ensures EmailValid(env, old(db.users), email) ==>
              !OtpMissing(db.cache, email.value) && db.cache[OtpKey(email.value)] == FormatOtp(draw)
  {
    if !EmailValid(env, db.users, email) {
      return Fail(Unprocessable);
    }
    db.cache := db.cache[OtpKey(email.value) := FormatOtp(draw)];
    if mailOk {
      r := Ok(email.value);
    } else {
      r := Fail(MailFailed);
    }
  }

  /**
   * The successful end of a verification: the user's `email_verified_at` becomes `now` and the
   * user's detail row is upserted from the updated user; `image` says whether the upsert also
   * writes `profile_image_path` (see `Accounts.Refreshed`).
   */
  method MarkVerified(db: Database, uid: Id, now: Time, image: bool)
    requires HasRow(db.users, uid)
    modifies db`users, db`userDetails
    ensures db.users == old(db.users)[uid - 1 := old(db.users)[uid - 1].(emailVerifiedAt := Some(now))]
    ensures db.userDetails ==
              UpsertDetail(old(db.userDetails), uid, db.users[uid - 1], now,
                           if image then Some(old(db.users)[uid - 1].profileImage) else None)
  {
    var u := db.users[uid - 1].(emailVerifiedAt := Some(now));
    db.users := db.users[uid - 1 := u];
    db.userDetails := UpsertDetail(db.userDetails, uid, u, now, if image then Some(u.profileImage) else None);
  }

  /**
   * `verifyOTP`: without a stored OTP the answer is "expired", with a different one "invalid",
   * and in both cases nothing changes (the stored OTP stays usable). With the stored OTP the user
   * becomes verified, the detail row is upserted (leaving `profile_image_path` alone) and the
   * OTP is forgotten.
   */
  method VerifyOtp(db: Database, env: Env, email: Param<string>, otp: Param<string>, now: Time) returns (r: Response<()>)
    modifies db`users, db`userDetails, db`cache
    ensures !EmailValid(env, old(db.users), email) || !OtpValid(otp) ==> r == Fail(Unprocessable) && unchanged(db)
    ensures EmailValid(env, old(db.users), email) && OtpValid(otp) && OtpMissing(old(db.cache), email.value) ==>
              r == Fail(OtpExpired) && unchanged(db)
    ensures EmailValid(env, old(db.users), email) && OtpValid(otp) && !OtpMissing(old(db.cache), email.value) &&
            otp.value != old(db.cache)[OtpKey(email.value)] ==>
              r == Fail(OtpInvalid) && unchanged(db)
    ensures r.Ok? <==>
              EmailValid(env, old(db.users), email) && OtpValid(otp) && !OtpMissing(old(db.cache), email.value) &&
              otp.value == old(db.cache)[OtpKey(email.value)]
    ensures r.Ok? ==>
              var uid := UserByEmail(old(db.users), email.value).value;
              db.users == old(db.users)[uid - 1 := old(db.users)[uid - 1].(emailVerifiedAt := Some(now))] &&
              db.userDetails == UpsertDetail(old(db.userDetails), uid, db.users[uid - 1], now, None) &&
              db.cache == old(db.cache) - {OtpKey(email.value)}
    ensures r.Ok? ==> OtpMissing(db.cache, email.value)
  {
    if !EmailValid(env, db.users, email) || !OtpValid(otp) {
      return Fail(Unprocessable);
    }
    if OtpMissing(db.cache, email.value) {
      return Fail(OtpExpired);
    }
    if otp.value != db.cache[OtpKey(email.value)] {
      return Fail(OtpInvalid);
    }
    var uid := UserByEmail(db.users, email.value).value;
    MarkVerified(db, uid, now, false);
    db.cache := db.cache - {OtpKey(email.value)};
    r := Ok(());
  }

  /** `resendOTP`: forget the address's entry, then send; the net effect is a fresh stored OTP. */
  method ResendOtp(db: Database, env: Env, email: Param<string>, draw: OtpDraw, mailOk: bool) returns (r: Response<string>)
    modifies db`cache
    ensures !EmailValid(env, old(db.users), email) ==> r == Fail(Unprocessable) && unchanged(db)
    ensures EmailValid(env, old(db.users), email) ==>
              db.cache == old(db.cache)[OtpKey(email.value) := FormatOtp(draw)] &&
              r == (if mailOk then Ok(email.value) else Fail(MailFailed))
  {
    if !EmailValid(env, db.users, email) {
      return Fail(Unprocessable);
    }
    ghost var before := db.cache;
    db.cache := db.cache - {OtpKey(email.value)};
    r := SendOtp(db, env, email, draw, mailOk);
    assert db.cache == before[OtpKey(email.value) := FormatOtp(draw)];
  }

  /** An OTP that was just sent verifies, whether or not the mail went out. */
  method SendThenVerify(db: Database, env: Env, email: Param<string>, draw: OtpDraw, mailOk: bool, now: Time)
    returns (sent: Response<string>, verified: Response<()>)
    requires EmailValid(env, db.users, email)
    modifies db`users, db`userDetails, db`cache
    ensures verified.Ok?
    ensures OtpMissing(db.cache, email.value)
  {
    var otp := FormatOtp(draw);
    assert IsDigit(otp[0]) && !IsTrimmed(otp[0]);
    sent := SendOtp(db, env, email, draw, mailOk);
    verified := VerifyOtp(db, env, email, Given(otp), now);
  }

  /** An OTP verifies at most once: the second attempt finds nothing stored. */
  method VerifyTwice(db: Database, env: Env, email: Param<string>, otp: Param<string>, now: Time)
    returns (first: Response<()>, second: Response<()>)
    modifies db`users, db`userDetails, db`cache
    ensures first.Ok? ==> second == Fail(OtpExpired)
  {
    first := VerifyOtp(db, env, email, otp, now);
    ghost var users := db.users;
    second := VerifyOtp(db, env, email, otp, now);
    if first.Ok? {
      assert EmailValid(env, users, email) by {
        var e := email.value;
        var uid := UserByEmail(users, e).value;
        assert users[uid - 1].email == e;
      }
    }
  }
}
