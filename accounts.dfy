/**
 * The pieces of the e-mail verification flow that are values: the one-time password, the
 * cache key it is stored under, the split of a full name into first and last name, the
 * user-detail row written on successful verification, and the profile image shown at login.
 */
module Accounts {
  import opened Wrappers
  import opened Tables
  import opened Schema
  import opened Text

  /** The values `mt_rand(1, 999999)` can draw. */
  type OtpDraw = n: nat | 1 <= n <= 999999 witness 1

  /** `sprintf("%06d", n)`: six decimal digits that read back as the drawn number, never all zeros. */
  function FormatOtp(n: OtpDraw): (otp: string)
    ensures |otp| == 6 && AllDigits(otp)
    ensures ParseDigits(otp) == n
    ensures otp != "000000"
    ensures Truthy(otp)
  {
    assert Pow10(6) == 1000000;
    NatToStringLength(n, 6);
    ParseZeros(6);
    assert Repeat('0', 6) == "000000";
    ZeroPad(n, 6)
  }

  /** The cache key of an address's pending OTP. */
  function OtpKey(email: string): string {
    "email_verification_" + email
  }

  /** Different addresses never share an OTP entry. */
  lemma OtpKeyInjective(a: string, b: string)
    ensures OtpKey(a) == OtpKey(b) <==> a == b
  {
    var prefix := "email_verification_";
    if OtpKey(a) == OtpKey(b) {
      assert a == OtpKey(a)[|prefix|..];
      assert b == OtpKey(b)[|prefix|..];
    }
  }

  /** `if (!$storedOtp)`: no entry, or an entry PHP reads as false. */
  predicate OtpMissing(cache: map<string, string>, email: string) {
    OtpKey(email) !in cache || !Truthy(cache[OtpKey(email)])
  }

  /**
   * `explode(' ', $name)[0]` and the rest of the pieces joined back with spaces
   * (`''` when there is only one piece).
   */
  function SplitFullName(name: string): (r: (string, string)) {
    var parts := Explode(' ', name);
    (parts[0], if |parts| > 1 then Implode(' ', parts[1..]) else "")
  }

  /**
   * The split cuts the name at its first space: the first name holds no space, and first name,
   * a space and last name give the full name back; a name without a space is all first name.
   */
  lemma SplitFullNameSound(name: string)
    ensures ' ' !in SplitFullName(name).0
    ensures ' ' in name ==> SplitFullName(name).0 + " " + SplitFullName(name).1 == name
    ensures ' ' !in name ==> SplitFullName(name) == (name, "")
  {
    var parts := Explode(' ', name);
    ImplodeExplode(' ', name);
    ExplodeCount(' ', name);
  }

  /** `where('email', email)`: the users with this address. */
  function HasEmail(email: string): User -> bool {
    (u: User) => u.email == email
  }

  /** `User::where('email', email)->first()`, as the id of the user found. */
  function UserByEmail(users: seq<User>, email: string): (r: Option<Id>)
    ensures r.Some? ==> HasRow(users, r.value) && users[r.value - 1].email == email
    ensures r.Some? ==> forall j :: 0 <= j < r.value - 1 ==> users[j].email != email
    ensures r.None? <==> forall j :: 0 <= j < |users| ==> users[j].email != email
  {
    match FirstMatch(users, HasEmail(email))
    case None => None
    case Some(i) => Some(i + 1)
  }

  /** `where('user_id', uid)`: the user-detail rows of one user. */
  function DetailOf(uid: Id): UserDetail -> bool {
    (d: UserDetail) => d.userId == uid
  }

  /** The user's detail row (`$user->detail`, the first row with this `user_id`). */
  function Detail(details: seq<UserDetail>, uid: Id): (r: Option<nat>)
    ensures r.Some? ==> r.value < |details| && details[r.value].userId == uid
    ensures r.None? <==> forall j :: 0 <= j < |details| ==> details[j].userId != uid
  {
    FirstMatch(details, DetailOf(uid))
  }

  /**
   * `$user->detail` as the code stands: `User` declares no `detail` relation and the users
   * table has no `detail` column, so Eloquent's attribute lookup answers null for every user.
   */
  function DetailAsWritten(details: seq<UserDetail>, uid: Id): (r: Option<nat>)
    ensures r.Some? ==> r.value < |details| && details[r.value].userId == uid
    ensures r.None?
  {
    None
  }

  /** The `$userDetail` value an action reads: the row a lookup found, or null. */
  function Found(details: seq<UserDetail>, found: Option<nat>): (d: Option<UserDetail>)
    requires found.Some? ==> found.value < |details|
    ensures d.Some? <==> found.Some?
    ensures d.Some? ==> d.value in details
  {
    if found.Some? then Some(details[found.value]) else None
  }

  /** A detail row with every nullable column null and every counter at its default 0. */
  function BlankDetail(uid: Id, now: Time): UserDetail {
    UserDetail(uid, None, None, None, now, None, None, None, None, None, None, None, 0, 0, 0, 0)
  }

  /**
   * The attribute values of the verification `updateOrCreate`: names split from the user's name,
   * joined date now, phone as mobile number, counters reset. `image` is `Some(path)` when the
   * action also writes `profile_image_path` (the AuthController variant) and `None` when it
   * leaves that column alone.
   */
  function Refreshed(d: UserDetail, u: User, now: Time, image: Option<Option<string>>): UserDetail {
    var names := SplitFullName(u.name);
    var d' := d.(firstName := Some(names.0), lastName := Some(names.1), joinedDate := now,
                 mobileNumber := u.phone, blogCount := 0, travsnapCount := 0, totalLikes := 0,
                 totalViews := 0);
    if image.Some? then d'.(profileImagePath := image.value) else d'
  }

  /** `UserDetail::updateOrCreate(['user_id' => uid], ...)` at verification. */
  function UpsertDetail(details: seq<UserDetail>, uid: Id, u: User, now: Time, image: Option<Option<string>>): seq<UserDetail> {
    UpdateOrCreate(details, DetailOf(uid), (d: UserDetail) => Refreshed(d, u, now, image),
                   Refreshed(BlankDetail(uid, now), u, now, image))
  }

  /**
   * After verification the user has a detail row (and never a second one): it carries the
   * split name, the phone and zeroed counters, keeps the columns the upsert does not name,
   * and no other user's row changes.
   */
  lemma UpsertDetailSound(details: seq<UserDetail>, uid: Id, u: User, now: Time, image: Option<Option<string>>)
    ensures var after := UpsertDetail(details, uid, u, now, image);
      Count(after, DetailOf(uid)) == (if Count(details, DetailOf(uid)) == 0 then 1 else Count(details, DetailOf(uid))) &&
      Detail(after, uid).Some? &&
      var row := after[Detail(after, uid).value];
      row.firstName == Some(SplitFullName(u.name).0) && row.lastName == Some(SplitFullName(u.name).1) &&
      row.mobileNumber == u.phone && row.joinedDate == now &&
      row.blogCount == 0 && row.travsnapCount == 0 && row.totalLikes == 0 && row.totalViews == 0 &&
      (image.Some? ==> row.profileImagePath == image.value) &&
      (image.None? && Detail(details, uid).Some? ==> row.profileImagePath == details[Detail(details, uid).value].profileImagePath) &&
      (image.None? && Detail(details, uid).None? ==> row.profileImagePath.None?) &&
      (Detail(details, uid).Some? ==> row.bio == details[Detail(details, uid).value].bio) &&
      (forall j :: 0 <= j < |details| && details[j].userId != uid ==> after[j] == details[j])
  {
    var update := (d: UserDetail) => Refreshed(d, u, now, image);
    var create := Refreshed(BlankDetail(uid, now), u, now, image);
    UpdateOrCreateCount(details, DetailOf(uid), update, create);
    var after := UpsertDetail(details, uid, u, now, image);
    match Detail(details, uid)
    case Some(i) =>
      FirstMatchAt(after, i, DetailOf(uid));
    case None =>
      FirstMatchAt(after, |details|, DetailOf(uid));
  }

  /**
   * The profile image path `login` answers with: the detail row's path when PHP reads it as
   * true, else the user's `profile_image` when PHP reads that as true, else null.
   */
  function LoginImage(detail: Option<UserDetail>, u: User): (r: Option<string>)
    ensures r.Some? ==> Truthy(r.value)
    ensures detail.Some? && detail.value.profileImagePath.Some? && Truthy(detail.value.profileImagePath.value) ==>
              r == detail.value.profileImagePath
    ensures r.Some? && r != u.profileImage ==> detail.Some? && r == detail.value.profileImagePath
    ensures r.None? <==>
              (detail.None? || detail.value.profileImagePath.None? || !Truthy(detail.value.profileImagePath.value)) &&
              (u.profileImage.None? || !Truthy(u.profileImage.value))
  {
    if detail.Some? && detail.value.profileImagePath.Some? && Truthy(detail.value.profileImagePath.value) then
      detail.value.profileImagePath
    else if u.profileImage.Some? && Truthy(u.profileImage.value) then
      u.profileImage
    else
      None
  }

  /**
   * As written, `login` never reads a detail row: the image is the user's own `profile_image`
   * when PHP reads it as true, else null, whatever detail rows exist.
   */
  lemma LoginAsWrittenFallback(details: seq<UserDetail>, uid: Id, u: User)
    ensures LoginImage(Found(details, DetailAsWritten(details, uid)), u) ==
            if u.profileImage.Some? && Truthy(u.profileImage.value) then u.profileImage else None
  {
  }

}
