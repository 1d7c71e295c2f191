/**
 * The rows of the application's tables and the database that holds them.
 *
 * Every auto-increment table that these controllers never delete from is a sequence whose
 * row with id `k` sits at position `k - 1` (see `Tables.HasRow`); highlights are deleted,
 * so they carry their own ids.
 */
module Schema {
  import opened Wrappers
  import opened Tables

  /** A timestamp (`now()` / `time()`), supplied by the caller of every action. */
  type Time = nat

  /** A JSON array column (`location`, `categories`, `gallery`), as the list of its elements. */
  type JsonArray = seq<string>

  /** `users.role`: `'user'` (the column default), `'admin'` or `'superAdmin'`. */
  datatype Role = RoleUser | RoleAdmin | RoleSuperAdmin

  /** `in_array($user->role, ['admin', 'superAdmin'])`. */
  predicate IsModerator(r: Role) {
    r == RoleAdmin || r == RoleSuperAdmin
  }

  /**
   * The status column of blogs (enum draft|published|pending|approved|rejected), of travsnaps
   * (a string, default 'pending') and of moderation records (enum pending|approved|rejected).
   */
  datatype Status = Draft | Published | Pending | Approved | Rejected

  /** There is an authenticated caller (`Auth::user()` / `$request->user()`) and it is a user row. */
  predicate IsCaller(users: seq<User>, caller: Option<Id>) {
    caller.Some? && HasRow(users, caller.value)
  }

  /** The authenticated caller (`Auth::user()`) exists and is an admin or a superAdmin. */
  predicate IsModeratorCaller(users: seq<User>, caller: Option<Id>) {
    caller.Some? && HasRow(users, caller.value) && IsModerator(users[caller.value - 1].role)
  }

  /** The authenticated caller exists and is a superAdmin. */
  predicate IsSuperAdminCaller(users: seq<User>, caller: Option<Id>) {
    caller.Some? && HasRow(users, caller.value) && users[caller.value - 1].role == RoleSuperAdmin
  }

  datatype User = User(
    name: string,
    email: string,
    phone: Option<string>,
    passwordHash: string,
    role: Role,
    emailVerifiedAt: Option<Time>,
    profileImage: Option<string>)

  /**
   * A blog row. The `author` request field is not in `Blog::$fillable`, so no column of the
   * row ever receives it; the row has no author.
   */
  datatype Blog = Blog(
    title: string,
    slug: string,
    description: string,
    additionalInfo: string,
    content: string,
    userId: Option<Id>,
    categories: JsonArray,
    location: JsonArray,
    image: Option<string>,
    gallery: JsonArray,
    review: string,
    status: Status,
    createdAt: Time,
    updatedAt: Time)

  datatype Travsnap = Travsnap(
    userId: Id,
    moderationId: Option<Id>,
    title: string,
    description: string,
    location: JsonArray,
    status: Status,
    gallery: seq<string>,
    isFeatured: bool,
    isActive: bool,
    createdAt: Time,
    updatedAt: Time)

  /**
   * A row of `blog_moderations` or `travsnap_moderations`; `contentId` is the `blog_id` or
   * `travsnap_id` column.
   */
  datatype ModerationRecord = ModerationRecord(
    contentId: Id,
    moderatorId: Id,
    status: Status,
    moderatorNotes: Option<string>,
    rejectionReason: Option<string>,
    publishedAt: Option<Time>,
    rejectedAt: Option<Time>,
    isActive: bool)

  /** A row of `moderator_assignments`: keyed by the pair (content type string, content id). */
  datatype Assignment = Assignment(
    moderatorId: Id,
    contentId: Id,
    contentType: string,
    isActive: bool)

  const BlogType: string := "blog"
  const TravsnapType: string := "travsnap"

  datatype UserDetail = UserDetail(
    userId: Id,
    firstName: Option<string>,
    lastName: Option<string>,
    location: Option<string>,
    joinedDate: Time,
    bio: Option<string>,
    xLink: Option<string>,
    instagramLink: Option<string>,
    facebookLink: Option<string>,
    linkedinLink: Option<string>,
    mobileNumber: Option<string>,
    profileImagePath: Option<string>,
    blogCount: int,
    travsnapCount: int,
    totalLikes: int,
    totalViews: int)

  datatype Highlight = Highlight(id: Id, blogId: Id, category: string, isActive: bool)

  /**
   * The framework services the actions call and this model does not interpret: password
   * hashing, `Str::slug`, the `email` and `url` validation rules, and the image type captured
   * by the data-URL regular expression (`None` when the string does not match it).
   */
  datatype Env = Env(
    hash: string -> string,
    slug: string -> string,
    isEmail: string -> bool,
    isUrl: string -> bool,
    dataUrlType: string -> Option<string>)

  /** A row saved through Eloquent gets a new `updated_at` only when one of its columns changed. */
  function SaveTravsnap(before: Travsnap, after: Travsnap, now: Time): (r: Travsnap)
    requires after.updatedAt == before.updatedAt
    ensures r == before <==> after == before
    ensures r.(updatedAt := before.updatedAt) == after
  {
    if after == before then before else after.(updatedAt := now)
  }

  /** As `SaveTravsnap`, for blogs. */
  function SaveBlog(before: Blog, after: Blog, now: Time): (r: Blog)
    requires after.updatedAt == before.updatedAt
    ensures r == before <==> after == before
    ensures r.(updatedAt := before.updatedAt) == after
  {
    if after == before then before else after.(updatedAt := now)
  }

  /** Every id is positive and below `next`, and no two rows share an id. */
  predicate ValidIds(hs: seq<Highlight>, next: Id) {
    1 <= next &&
    (forall i :: 0 <= i < |hs| ==> 1 <= hs[i].id < next) &&
    (forall i, j :: 0 <= i < j < |hs| ==> hs[i].id != hs[j].id)
  }

  /** The whole database the controllers read and write. */
  class Database {
    var users: seq<User>
    var blogs: seq<Blog>
    var travsnaps: seq<Travsnap>
    var blogModerations: seq<ModerationRecord>
    var travsnapModerations: seq<ModerationRecord>
    var assignments: seq<Assignment>
    var userDetails: seq<UserDetail>
    /** The `blog_user_bookmarks` pivot table as (user id, blog id) pairs. */
    var bookmarks: set<(Id, Id)>
    var highlights: seq<Highlight>
    var nextHighlightId: Id
    /** The cache store, by key. */
    var cache: map<string, string>

    /** Highlight ids are positive, unique, and below the next id to be handed out. */
    predicate HighlightsValid()
      reads this
    {
      ValidIds(highlights, nextHighlightId)
    }

    constructor ()
      ensures users == [] && blogs == [] && travsnaps == []
      ensures blogModerations == [] && travsnapModerations == [] && assignments == []
      ensures userDetails == [] && bookmarks == {} && highlights == [] && cache == map[]
      ensures nextHighlightId == 1
      ensures HighlightsValid()
    {
      users := [];
      blogs := [];
      travsnaps := [];
      blogModerations := [];
      travsnapModerations := [];
      assignments := [];
      userDetails := [];
      bookmarks := {};
      highlights := [];
      nextHighlightId := 1;
      cache := map[];
    }
  }
}
