/**
 * `ProfileController`: the caller's profile, the `??` merge of a partial profile update into the
 * detail row, and the classification of an uploaded profile image.
 */
module ProfileController {
  import opened Wrappers
  import opened Http
  import opened Tables
  import opened Schema
  import opened Text
  import opened Accounts

  /** What `getProfile` answers with: the user's own columns and the user's detail row. */
  datatype Profile = Profile(user: User, detail: UserDetail)

  /** `getProfile`: the caller's profile, or 404 when the caller has no detail row yet. */
  function GetProfile(users: seq<User>, details: seq<UserDetail>, caller: Option<Id>): (r: Response<Profile>)
    ensures !IsCaller(users, caller) ==> r == Fail(Unauthenticated)
    ensures IsCaller(users, caller) ==> (r.Ok? <==> Detail(details, caller.value).Some?)
    ensures IsCaller(users, caller) && r.Fail? ==> r.failure == NotFound
    ensures r.Ok? ==> r.value.user == users[caller.value - 1] && r.value.detail.userId == caller.value &&
                      r.value.detail in details
  {
    if !IsCaller(users, caller) then Fail(Unauthenticated)
    else ProfileWith(users, details, caller.value, Detail(details, caller.value))
  }

  /** What `getProfile` answers once `$user->detail` has been read as `found`. */
  function ProfileWith(users: seq<User>, details: seq<UserDetail>, uid: Id, found: Option<nat>): Response<Profile>
    requires HasRow(users, uid)
    requires found.Some? ==> found.value < |details|
  {
    match found
    case None => Fail(NotFound)
    case Some(i) => Ok(Profile(users[uid - 1], details[i]))
  }

  /** `getProfile` as the code stands, with `$user->detail` read through `DetailAsWritten`. */
  function GetProfileAsWritten(users: seq<User>, details: seq<UserDetail>, caller: Option<Id>): (r: Response<Profile>)
    ensures !IsCaller(users, caller) ==> r == Fail(Unauthenticated)
  {
    if !IsCaller(users, caller) then Fail(Unauthenticated)
    else ProfileWith(users, details, caller.value, DetailAsWritten(details, caller.value))
  }

  /** As written, every authenticated caller gets 404, whatever detail rows exist. */
  lemma ProfileAsWrittenNotFound(users: seq<User>, details: seq<UserDetail>, caller: Option<Id>)
    requires IsCaller(users, caller)
    ensures GetProfileAsWritten(users, details, caller) == Fail(NotFound)
  {
  }

  /** The request fields of `updateProfile`. */
  datatype ProfileUpdate = ProfileUpdate(
    firstName: Param<string>,
    lastName: Param<string>,
    location: Param<string>,
    bio: Param<string>,
    xLink: Param<string>,
    instagramLink: Param<string>,
    facebookLink: Param<string>,
    linkedinLink: Param<string>,
    mobileNumber: Param<string>,
    profileImagePath: Param<string>)

  /** The request carrying only `bio`. */
  function BioOnly(bio: string): ProfileUpdate {
    ProfileUpdate(Missing, Missing, Missing, Given(bio), Missing, Missing, Missing, Missing, Missing, Missing)
  }

  /** `nullable|url|max:255`: neither rule is run on a blank value. */
  predicate NullableUrl(env: Env, p: Param<string>) {
    Filled(p) ==> env.isUrl(p.value) && |p.value| <= 255
  }

  /** The rules of `updateProfile`. */
  predicate ProfileUpdateValid(env: Env, req: ProfileUpdate) {
    NullableMax(req.firstName, 255) && NullableMax(req.lastName, 255) && NullableMax(req.location, 255) &&
    NullableUrl(env, req.xLink) && NullableUrl(env, req.instagramLink) &&
    NullableUrl(env, req.facebookLink) && NullableUrl(env, req.linkedinLink) &&
    NullableMax(req.mobileNumber, 20) && NullableMax(req.profileImagePath, 255)
  }

  /** A request whose every supplied field is blank passes the rules: none of them is implicit. */
  lemma BlankFieldsValid(env: Env, req: ProfileUpdate)
    requires forall k :: Asked(req, k).Given? ==> IsBlank(Asked(req, k).value)
    ensures ProfileUpdateValid(env, req)
  {
    assert Asked(req, FirstName) == req.firstName && Asked(req, LastName) == req.lastName;
    assert Asked(req, Location) == req.location && Asked(req, XLink) == req.xLink;
    assert Asked(req, InstagramLink) == req.instagramLink && Asked(req, FacebookLink) == req.facebookLink;
    assert Asked(req, LinkedinLink) == req.linkedinLink && Asked(req, MobileNumber) == req.mobileNumber;
    assert Asked(req, ProfileImagePath) == req.profileImagePath;
  }

  /** The ten columns `updateProfile` writes. */
  datatype ProfileField =
    | FirstName | LastName | Location | Bio | XLink | InstagramLink | FacebookLink | LinkedinLink
    | MobileNumber | ProfileImagePath

  /** A detail row's value of one of the ten columns. */
  function Field(d: UserDetail, k: ProfileField): Option<string> {
    match k
    case FirstName => d.firstName
    case LastName => d.lastName
    case Location => d.location
    case Bio => d.bio
    case XLink => d.xLink
    case InstagramLink => d.instagramLink
    case FacebookLink => d.facebookLink
    case LinkedinLink => d.linkedinLink
    case MobileNumber => d.mobileNumber
    case ProfileImagePath => d.profileImagePath
  }

  /** The request's value for one of the ten columns. */
  function Asked(req: ProfileUpdate, k: ProfileField): Param<string> {
    match k
    case FirstName => req.firstName
    case LastName => req.lastName
    case Location => req.location
    case Bio => req.bio
    case XLink => req.xLink
    case InstagramLink => req.instagramLink
    case FacebookLink => req.facebookLink
    case LinkedinLink => req.linkedinLink
    case MobileNumber => req.mobileNumber
    case ProfileImagePath => req.profileImagePath
  }

  /** The same row with the ten columns taken from `other`. */
  function WithFieldsOf(d: UserDetail, other: UserDetail): UserDetail {
    d.(firstName := other.firstName, lastName := other.lastName, location := other.location, bio := other.bio,
       xLink := other.xLink, instagramLink := other.instagramLink, facebookLink := other.facebookLink,
       linkedinLink := other.linkedinLink, mobileNumber := other.mobileNumber,
       profileImagePath := other.profileImagePath)
  }

  /**
   * The `update([...])` of `updateProfile`: every one of the ten columns takes the request's
   * value when it is present and not null, and keeps the stored value otherwise; no other
   * column changes.
   */
  function MergeProfile(d: UserDetail, req: ProfileUpdate): (r: UserDetail)
    ensures forall k :: Field(r, k) == if Asked(req, k).Given? then Some(Asked(req, k).value) else Field(d, k)
    ensures WithFieldsOf(r, d) == d
  {
    d.(firstName := req.firstName.OrElseOpt(d.firstName),
       lastName := req.lastName.OrElseOpt(d.lastName),
       location := req.location.OrElseOpt(d.location),
       bio := req.bio.OrElseOpt(d.bio),
       xLink := req.xLink.OrElseOpt(d.xLink),
       instagramLink := req.instagramLink.OrElseOpt(d.instagramLink),
       facebookLink := req.facebookLink.OrElseOpt(d.facebookLink),
       linkedinLink := req.linkedinLink.OrElseOpt(d.linkedinLink),
       mobileNumber := req.mobileNumber.OrElseOpt(d.mobileNumber),
       profileImagePath := req.profileImagePath.OrElseOpt(d.profileImagePath))
  }

  /** Two rows that agree on the ten columns and on the rest are the same row. */
  lemma SameFields(a: UserDetail, b: UserDetail)
    requires forall k :: Field(a, k) == Field(b, k)
    requires WithFieldsOf(a, b) == b
    ensures a == b
  {
    assert Field(a, FirstName) == Field(b, FirstName) && Field(a, LastName) == Field(b, LastName);
    assert Field(a, Location) == Field(b, Location) && Field(a, Bio) == Field(b, Bio);
    assert Field(a, XLink) == Field(b, XLink) && Field(a, InstagramLink) == Field(b, InstagramLink);
    assert Field(a, FacebookLink) == Field(b, FacebookLink) && Field(a, LinkedinLink) == Field(b, LinkedinLink);
    assert Field(a, MobileNumber) == Field(b, MobileNumber) && Field(a, ProfileImagePath) == Field(b, ProfileImagePath);
  }

  /** A null (or absent) request field never clears a stored column, and only supplied fields change. */
  lemma MergeNeverClears(d: UserDetail, req: ProfileUpdate)
    ensures forall k :: Field(d, k).Some? ==> Field(MergeProfile(d, req), k).Some?
    ensures forall k :: Field(MergeProfile(d, req), k) != Field(d, k) ==> Asked(req, k).Given?
  {
  }

  /** Supplying only `bio` changes `bio` and nothing else. */
  lemma MergeBioOnly(d: UserDetail, bio: string)
    ensures MergeProfile(d, BioOnly(bio)) == d.(bio := Some(bio))
  {
    var r := MergeProfile(d, BioOnly(bio));
    var e := d.(bio := Some(bio));
    forall k ensures Field(r, k) == Field(e, k) {
    }
    SameFields(r, e);
  }

  /** Repeating the same update changes nothing more. */
  lemma MergeIdempotent(d: UserDetail, req: ProfileUpdate)
    ensures MergeProfile(MergeProfile(d, req), req) == MergeProfile(d, req)
  {
    var once := MergeProfile(d, req);
    var twice := MergeProfile(once, req);
    SameFields(twice, once);
  }

  /** A request with no field present leaves the row as it is. */
  lemma MergeEmpty(d: UserDetail)
    ensures MergeProfile(d, ProfileUpdate(Missing, Missing, Missing, Missing, Missing, Missing, Missing, Missing, Missing, Missing)) == d
  {
    var r := MergeProfile(d, ProfileUpdate(Missing, Missing, Missing, Missing, Missing, Missing, Missing, Missing, Missing, Missing));
    SameFields(r, d);
  }

  /**
   * `updateProfile`: a request that breaks a rule answers 422, a caller without a detail row
   * 404, and in both cases nothing is written; otherwise the caller's detail row becomes the
   * merge and no other row changes.
   */
  method UpdateProfile(db: Database, env: Env, caller: Option<Id>, req: ProfileUpdate) returns (r: Response<()>)
    modifies db`userDetails
    ensures !ProfileUpdateValid(env, req) ==> r == Fail(Unprocessable) && unchanged(db)
    ensures ProfileUpdateValid(env, req) && !IsCaller(db.users, caller) ==> r == Fail(Unauthenticated) && unchanged(db)
    ensures ProfileUpdateValid(env, req) && IsCaller(db.users, caller) && Detail(old(db.userDetails), caller.value).None? ==>
              r == Fail(NotFound) && unchanged(db)
    ensures r.Ok? <==> ProfileUpdateValid(env, req) && IsCaller(db.users, caller) &&
                       Detail(old(db.userDetails), caller.value).Some?
    ensures r.Ok? ==>
              var i := Detail(old(db.userDetails), caller.value).value;
              db.userDetails == old(db.userDetails)[i := MergeProfile(old(db.userDetails)[i], req)]
  {
    if !ProfileUpdateValid(env, req) {
      return Fail(Unprocessable);
    }
    if !IsCaller(db.users, caller) {
      return Fail(Unauthenticated);
    }
    match Detail(db.userDetails, caller.value)
    case None =>
      r := Fail(NotFound);
    case Some(i) =>
      db.userDetails := db.userDetails[i := MergeProfile(db.userDetails[i], req)];
      r := Ok(());
  }

  /** A multipart file: the extension guessed from its content, the client's extension, its size in bytes. */
  datatype UploadedFile = UploadedFile(guessedExtension: string, clientExtension: string, size: nat)

  /** The two ways an image arrives: a multipart `profile_image` file, or a raw body with a `Content-Type`. */
  datatype ImageUpload = ImageUpload(file: Option<UploadedFile>, body: string, contentType: Option<string>)

  /** 2048 kilobytes, the bound of both the `max:2048` rule and the raw-body check. */
  const MaxImageBytes: nat := 2048 * 1024

  /** The content types the raw-body path accepts. */
  const AllowedTypes: set<string> := {"image/jpeg", "image/png", "image/jpg", "image/gif"}

  /** The extensions the `mimes:jpeg,png,jpg,gif` rule accepts. */
  const AllowedMimes: set<string> := {"jpeg", "png", "jpg", "gif"}

  /**
   * The extension of a raw-body image: the content type with `image/` removed, `jpeg` written
   * `jpg`; `None` for a content type outside the whitelist.
   */
  function RawImageExtension(contentType: string): (e: Option<string>)
    ensures e.Some? <==> contentType in AllowedTypes
    ensures contentType == "image/jpeg" || contentType == "image/jpg" ==> e == Some("jpg")
    ensures contentType == "image/png" ==> e == Some("png")
    ensures contentType == "image/gif" ==> e == Some("gif")
  {
    if contentType !in AllowedTypes then None
    else
      RemoveAllPrefix("image/", "jpeg");
      RemoveAllPrefix("image/", "jpg");
      RemoveAllPrefix("image/", "png");
      RemoveAllPrefix("image/", "gif");
      var ext := RemoveAll(contentType, "image/");
      Some(if ext == "jpeg" then "jpg" else ext)
  }

  /** `'images/profiles/' . time() . '.' . $extension`. */
  function UploadPath(now: Time, ext: string): string {
    "images/profiles/" + NatToString(now) + "." + ext
  }

  /** The raw-body path is taken: PHP reads both the body and the `Content-Type` header as true. */
  predicate HasRawImage(u: ImageUpload) {
    Truthy(u.body) && u.contentType.Some? && Truthy(u.contentType.value)
  }

  /**
   * Where `uploadProfileImage` stores an image, or why it refuses it. A file is accepted when its
   * guessed extension is one of the four and it is at most 2 MB, and keeps the client's
   * extension; a raw body when its content type is whitelisted and it is at most 2 MB. Without
   * either the answer is "no image data".
   */
  function ClassifyUpload(u: ImageUpload, now: Time): (r: Response<string>)
    ensures u.file.Some? ==>
              (r.Ok? <==> u.file.value.guessedExtension in AllowedMimes && u.file.value.size <= MaxImageBytes)
    ensures u.file.Some? && r.Ok? ==> r.value == UploadPath(now, u.file.value.clientExtension)
    ensures u.file.None? && HasRawImage(u) ==>
              (r.Ok? <==> u.contentType.value in AllowedTypes && |u.body| <= MaxImageBytes)
    ensures u.file.None? && HasRawImage(u) && r.Ok? ==>
              r.value in {UploadPath(now, "jpg"), UploadPath(now, "png"), UploadPath(now, "gif")}
    ensures u.file.None? && HasRawImage(u) && u.contentType.value == "image/jpeg" && r.Ok? ==>
              r.value == UploadPath(now, "jpg")
    ensures u.file.None? && !HasRawImage(u) ==> r == Fail(NoImageData)
    ensures (u.file.Some? || HasRawImage(u)) && r.Fail? ==> r.failure == Unprocessable
  {
    if u.file.Some? then
      var f := u.file.value;
      if f.guessedExtension in AllowedMimes && f.size <= MaxImageBytes then Ok(UploadPath(now, f.clientExtension))
      else Fail(Unprocessable)
    else if HasRawImage(u) then
      match RawImageExtension(u.contentType.value)
      case None => Fail(Unprocessable)
      case Some(ext) =>
        if |u.body| > MaxImageBytes then Fail(Unprocessable) else Ok(UploadPath(now, ext))
    else
      Fail(NoImageData)
  }

  /** Uploads in different seconds get different paths, whatever their extensions. */
  lemma UploadPathsBySecond(t1: Time, t2: Time, e1: string, e2: string)
    ensures UploadPath(t1, e1) == UploadPath(t2, e2) ==> t1 == t2
  {
    var prefix := "images/profiles/";
    if UploadPath(t1, e1) == UploadPath(t2, e2) {
      var s := UploadPath(t1, e1);
      assert s[|prefix|..] == NatToString(t1) + "." + e1;
      assert s[|prefix|..] == NatToString(t2) + "." + e2 by {
        assert s == UploadPath(t2, e2);
      }
      DigitPrefixOf(NatToString(t1), '.', e1);
      DigitPrefixOf(NatToString(t2), '.', e2);
      assert NatToString(t1) + "." + e1 == NatToString(t1) + ['.'] + e1;
      assert NatToString(t2) + "." + e2 == NatToString(t2) + ['.'] + e2;
      ParseNatToString(t1);
      ParseNatToString(t2);
    }
  }

  /**
   * `uploadProfileImage`: a caller without a detail row gets 404; an accepted image sets the
   * row's `profile_image_path` to its path; a refused one changes nothing.
   */
  method UploadProfileImage(db: Database, caller: Option<Id>, u: ImageUpload, now: Time) returns (r: Response<string>)
    modifies db`userDetails
    ensures !IsCaller(db.users, caller) ==> r == Fail(Unauthenticated) && unchanged(db)
    ensures IsCaller(db.users, caller) && Detail(old(db.userDetails), caller.value).None? ==>
              r == Fail(NotFound) && unchanged(db)
    ensures IsCaller(db.users, caller) && Detail(old(db.userDetails), caller.value).Some? ==>
              r == ClassifyUpload(u, now)
    ensures r.Fail? ==> unchanged(db)
    ensures r.Ok? ==>
              var i := Detail(old(db.userDetails), caller.value).value;
              db.userDetails == old(db.userDetails)[i := old(db.userDetails)[i].(profileImagePath := Some(r.value))]
  {
    if !IsCaller(db.users, caller) {
      return Fail(Unauthenticated);
    }
    match Detail(db.userDetails, caller.value)
    case None =>
      r := Fail(NotFound);
    case Some(i) =>
      r := ClassifyUpload(u, now);
      if r.Ok? {
        db.userDetails := db.userDetails[i := db.userDetails[i].(profileImagePath := Some(r.value))];
      }
  }
}
