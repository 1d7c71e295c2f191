/**
 * `BlogController`: creating a blog and the partial update of one. Both actions run inside a
 * try/catch, so a failed rule, an unknown id and a duplicate slug all answer 500.
 */
module BlogController {
  import opened Wrappers
  import opened Http
  import opened Tables
  import opened Schema
  import opened Text

  /** The fields of a `store` or `update` request. */
  datatype BlogRequest = BlogRequest(
    title: Param<string>,
    description: Param<string>,
    additionalInfo: Param<string>,
    content: Param<string>,
    author: Param<string>,
    categories: Param<JsonArray>,
    location: Param<JsonArray>,
    image: Param<string>,
    gallery: Param<JsonArray>,
    review: Param<string>,
    status: Param<string>)

  /** `in:draft,published`, as the status it names. */
  function ParseBlogStatus(status: Param<string>): (r: Option<Status>)
    ensures r.Some? <==> status == Given("draft") || status == Given("published")
    ensures r.Some? ==> r.value == Draft || r.value == Published
  {
    if status == Given("draft") then Some(Draft)
    else if status == Given("published") then Some(Published)
    else None
  }

  /** No two blogs share a slug (the unique index on `blogs.slug`). */
  predicate UniqueSlugs(blogs: seq<Blog>) {
    forall i, j :: 0 <= i < j < |blogs| ==> blogs[i].slug != blogs[j].slug
  }

  /** Some blog other than position `except` already has this slug. */
  predicate SlugTaken(blogs: seq<Blog>, slug: string, except: int) {
    exists j :: 0 <= j < |blogs| && j != except && blogs[j].slug == slug
  }

  /** The rules of `store`. */
  predicate StoreValid(req: BlogRequest) {
    Filled(req.title) && |req.title.value| <= 255 && Filled(req.description) &&
    Filled(req.content) && Filled(req.author) &&
    req.categories.Given? && |req.categories.value| >= 1 &&
    ParseBlogStatus(req.status).Some?
  }

  /**
   * The row `store` inserts: the slug of the title, `''` for a missing or null additional info
   * and review, `[]` for a missing or null location and gallery, the requested status, and no
   * author or user id (neither is a fillable column that the action writes).
   */
  function NewBlog(env: Env, req: BlogRequest, now: Time): (b: Blog)
    requires StoreValid(req)
    ensures b.slug == env.slug(b.title) && b.title == req.title.value
    ensures b.status == Draft || b.status == Published
    ensures !req.additionalInfo.Given? ==> b.additionalInfo == ""
    ensures !req.review.Given? ==> b.review == ""
    ensures !req.location.Given? ==> b.location == []
    ensures !req.gallery.Given? ==> b.gallery == []
    ensures |b.categories| >= 1 && b.userId.None?
  {
    Blog(req.title.value, env.slug(req.title.value), req.description.value, req.additionalInfo.OrElse(""),
         req.content.value, None, req.categories.value, req.location.OrElse([]), req.image.ToOption(),
         req.gallery.OrElse([]), req.review.OrElse(""), ParseBlogStatus(req.status).value, now, now)
  }

  /**
   * `store`: a request that breaks a rule, or whose title gives a slug some blog already has,
   * answers 500 and creates nothing; otherwise the new blog is appended.
   */
  method Store(db: Database, env: Env, req: BlogRequest, now: Time) returns (r: Response<Id>)
    modifies db`blogs
    ensures !StoreValid(req) ==> r == Fail(ServerError) && unchanged(db)
    ensures StoreValid(req) && SlugTaken(old(db.blogs), env.slug(req.title.value), -1) ==>
              r == Fail(ServerError) && unchanged(db)
    ensures r.Ok? <==> StoreValid(req) && !SlugTaken(old(db.blogs), env.slug(req.title.value), -1)
    ensures r.Ok? ==> r.value == |old(db.blogs)| + 1 && db.blogs == old(db.blogs) + [NewBlog(env, req, now)]
    ensures old(UniqueSlugs(db.blogs)) ==> UniqueSlugs(db.blogs)
  {
    if !StoreValid(req) {
      return Fail(ServerError);
    }
    var b := NewBlog(env, req, now);
    if SlugTaken(db.blogs, b.slug, -1) {
      return Fail(ServerError);
    }
    db.blogs := db.blogs + [b];
    r := Ok(|db.blogs|);
  }

  /**
   * The rules of `update`: a `sometimes` field may be absent but not null, and a blank title
   * skips `string|max:255`. A blank status skips `in:`, but the `status` enum column refuses
   * `''` when the row is saved inside the try, which answers 500 as a refused status does.
   */
  predicate UpdateValid(req: BlogRequest) {
    !req.title.Null? && (Filled(req.title) ==> |req.title.value| <= 255) &&
    !req.description.Null? && !req.content.Null? && !req.author.Null? &&
    !req.categories.Null? && (req.categories.Given? ==> |req.categories.value| >= 1) &&
    (req.status.Missing? || ParseBlogStatus(req.status).Some?)
  }

  /**
   * The `update([...])` of `update`: every field that is present and not null replaces the
   * stored one, the others are kept, and the slug follows a supplied title.
   */
  function MergeBlog(env: Env, b: Blog, req: BlogRequest): (r: Blog)
    requires UpdateValid(req)
    ensures req.title.Given? ==> r.title == req.title.value
    ensures !req.title.Given? ==> r.title == b.title
    ensures r.slug == if req.title.Given? then env.slug(req.title.value) else b.slug
    ensures req.description.Given? ==> r.description == req.description.value
    ensures !req.description.Given? ==> r.description == b.description
    ensures req.additionalInfo.Given? ==> r.additionalInfo == req.additionalInfo.value
    ensures !req.additionalInfo.Given? ==> r.additionalInfo == b.additionalInfo
    ensures req.content.Given? ==> r.content == req.content.value
    ensures !req.content.Given? ==> r.content == b.content
    ensures req.categories.Given? ==> r.categories == req.categories.value
    ensures !req.categories.Given? ==> r.categories == b.categories
    ensures req.location.Given? ==> r.location == req.location.value
    ensures !req.location.Given? ==> r.location == b.location
    ensures req.image.Given? ==> r.image == Some(req.image.value)
    ensures !req.image.Given? ==> r.image == b.image
    ensures req.gallery.Given? ==> r.gallery == req.gallery.value
    ensures !req.gallery.Given? ==> r.gallery == b.gallery
    ensures req.review.Given? ==> r.review == req.review.value
    ensures !req.review.Given? ==> r.review == b.review
    ensures req.status.Given? ==> r.status == ParseBlogStatus(req.status).value
    ensures !req.status.Given? ==> r.status == b.status
    ensures r.status == b.status || r.status == Draft || r.status == Published
    ensures r.userId == b.userId && r.createdAt == b.createdAt && r.updatedAt == b.updatedAt
  {
    Blog(req.title.OrElse(b.title),
         if req.title.IsSet() then env.slug(req.title.value) else b.slug,
         req.description.OrElse(b.description),
         req.additionalInfo.OrElse(b.additionalInfo),
         req.content.OrElse(b.content),
         b.userId,
         if req.categories.IsSet() then req.categories.value else b.categories,
         if req.location.IsSet() then req.location.value else b.location,
         req.image.OrElseOpt(b.image),
         if req.gallery.IsSet() then req.gallery.value else b.gallery,
         req.review.OrElse(b.review),
         if req.status.Given? then ParseBlogStatus(req.status).value else b.status,
         b.createdAt,
         b.updatedAt)
  }

  /** The request with no field present. */
  const NoFields: BlogRequest :=
    BlogRequest(Missing, Missing, Missing, Missing, Missing, Missing, Missing, Missing, Missing, Missing, Missing)

  /** Absent fields are kept: an update with no field leaves the blog as it is. */
  lemma MergeNoFields(env: Env, b: Blog)
    ensures MergeBlog(env, b, NoFields) == b
  {
  }

  /**
   * A null in a nullable field never clears the stored value, one field at a time, whatever
   * the other fields of the request are.
   */
  lemma MergeNullKeeps(env: Env, b: Blog, req: BlogRequest)
    requires UpdateValid(req)
    ensures var r := MergeBlog(env, b, req);
            (req.additionalInfo.Null? ==> r.additionalInfo == b.additionalInfo) &&
            (req.location.Null? ==> r.location == b.location) &&
            (req.image.Null? ==> r.image == b.image) &&
            (req.gallery.Null? ==> r.gallery == b.gallery) &&
            (req.review.Null? ==> r.review == b.review)
  {
  }

  /** Saving the same update twice gives the blog the first save gave it. */
  lemma MergeBlogIdempotent(env: Env, b: Blog, req: BlogRequest)
    requires UpdateValid(req)
    ensures MergeBlog(env, MergeBlog(env, b, req), req) == MergeBlog(env, b, req)
  {
  }

  /**
   * `update`: a request that breaks a rule, an unknown id, or a new slug that another blog has,
   * answers 500 and changes nothing; otherwise the blog becomes the merge, saved with a new
   * `updated_at` when something changed. The status can only stay or become draft or published.
   */
  method Update(db: Database, env: Env, id: Id, req: BlogRequest, now: Time) returns (r: Response<()>)
    modifies db`blogs
    ensures !UpdateValid(req) || !HasRow(old(db.blogs), id) ==> r == Fail(ServerError) && unchanged(db)
    ensures UpdateValid(req) && HasRow(old(db.blogs), id) &&
            SlugTaken(old(db.blogs), MergeBlog(env, old(db.blogs)[id - 1], req).slug, id - 1) ==>
              r == Fail(ServerError) && unchanged(db)
    ensures r.Ok? <==>
              UpdateValid(req) && HasRow(old(db.blogs), id) &&
              !SlugTaken(old(db.blogs), MergeBlog(env, old(db.blogs)[id - 1], req).slug, id - 1)
    ensures r.Ok? ==>
              var b := old(db.blogs)[id - 1];
              db.blogs == old(db.blogs)[id - 1 := SaveBlog(b, MergeBlog(env, b, req), now)]
    ensures r.Ok? ==>
              var s := db.blogs[id - 1].status;
              s == old(db.blogs)[id - 1].status || s == Draft || s == Published
    ensures old(UniqueSlugs(db.blogs)) ==> UniqueSlugs(db.blogs)
  {
    if !UpdateValid(req) || !HasRow(db.blogs, id) {
      return Fail(ServerError);
    }
    var b := db.blogs[id - 1];
    var merged := MergeBlog(env, b, req);
    if SlugTaken(db.blogs, merged.slug, id - 1) {
      return Fail(ServerError);
    }
    db.blogs := db.blogs[id - 1 := SaveBlog(b, merged, now)];
    r := Ok(());
  }
}
