/**
 * `BlogHighlightController`: highlights are keyed by (blog id, category); `storeOrUpdate` is an
 * `updateOrCreate` on that key whose only written value is `is_active`, and `destroy` deletes
 * one row by id.
 *
 * The controller refers to `BlogHighlight` without importing `App\Models\BlogHighlight`, so as
 * written every action that reaches that name fails with a class-not-found error
 * (`StoreOrUpdateAsWritten`, `DestroyAsWritten`). The methods `StoreOrUpdate` and `Destroy`
 * model the actions with the import in place.
 */
module BlogHighlightController {
  import opened Wrappers
  import opened Http
  import opened Tables
  import opened Schema
  import opened Text

  datatype HighlightRequest = HighlightRequest(
    blogId: Param<Id>,
    category: Param<string>,
    isActive: Param<bool>,
    isBlog: Param<bool>)

  /** The `boolean` rule without `nullable` or `required`: an absent field passes, a null one fails. */
  predicate OptionalBool(p: Param<bool>) {
    !p.Null?
  }

  /** `required|exists:blogs,id`, `required|string|max:50`, `boolean`, `boolean`. */
  predicate HighlightValid(blogs: seq<Blog>, req: HighlightRequest) {
    req.blogId.Given? && HasRow(blogs, req.blogId.value) &&
    Filled(req.category) && |req.category.value| <= 50 &&
    OptionalBool(req.isActive) && OptionalBool(req.isBlog)
  }

  /** The highlights of one (blog id, category) key. */
  function KeyIs(blogId: Id, category: string): Highlight -> bool {
    (h: Highlight) => h.blogId == blogId && h.category == category
  }

  /** No two highlights share a (blog id, category) key. */
  predicate UniqueKeys(hs: seq<Highlight>) {
    forall i, j :: 0 <= i < j < |hs| ==> hs[i].blogId != hs[j].blogId || hs[i].category != hs[j].category
  }

  /** The update half of the upsert: only `is_active` is written. */
  function SetActive(active: bool): Highlight -> Highlight {
    (h: Highlight) => h.(isActive := active)
  }

  /** `updateOrCreate([blog_id, category], [is_active])`, a new row taking the id `next`. */
  function Upsert(hs: seq<Highlight>, next: Id, blogId: Id, category: string, active: bool): seq<Highlight> {
    UpdateOrCreate(hs, KeyIs(blogId, category), SetActive(active), Highlight(next, blogId, category, active))
  }

  /**
   * With unique keys before, the upsert keeps keys unique and leaves exactly one row for the
   * key, carrying `is_active`; the row keeps its id when it existed and gets `next` otherwise.
   */
  lemma {:induction false} UpsertSound(hs: seq<Highlight>, next: Id, blogId: Id, category: string, active: bool)
    requires UniqueKeys(hs)
    ensures UniqueKeys(Upsert(hs, next, blogId, category, active))
    ensures Count(Upsert(hs, next, blogId, category, active), KeyIs(blogId, category)) == 1
    ensures var after := Upsert(hs, next, blogId, category, active);
            forall i :: 0 <= i < |after| && KeyIs(blogId, category)(after[i]) ==>
              after[i].isActive == active &&
              after[i].id == (match FirstMatch(hs, KeyIs(blogId, category))
                              case Some(k) => hs[k].id
                              case None => next)
  {
    var key := KeyIs(blogId, category);
    var after := Upsert(hs, next, blogId, category, active);
    match FirstMatch(hs, key)
    case Some(k) =>
      assert forall j :: 0 <= j < |hs| && key(hs[j]) ==> j == k;
      assert forall j :: 0 <= j < |after| ==> after[j].blogId == hs[j].blogId && after[j].category == hs[j].category;
      CountSingle(after, k, key);
    case None =>
      assert after == hs + [Highlight(next, blogId, category, active)];
      CountZero(hs, key);
      CountAppend(hs, Highlight(next, blogId, category, active), key);
  }

  /** The upsert keeps highlight ids valid; it consumes the next id exactly when it creates a row. */
  lemma UpsertIds(hs: seq<Highlight>, next: Id, blogId: Id, category: string, active: bool)
    requires ValidIds(hs, next)
    ensures ValidIds(Upsert(hs, next, blogId, category, active),
                     if FirstMatch(hs, KeyIs(blogId, category)).Some? then next else next + 1)
  {
    var after := Upsert(hs, next, blogId, category, active);
    match FirstMatch(hs, KeyIs(blogId, category))
    case Some(k) =>
      assert forall j :: 0 <= j < |hs| ==> after[j].id == hs[j].id;
    case None =>
      assert after == hs + [Highlight(next, blogId, category, active)];
  }

  /**
   * `storeOrUpdate`: a request that breaks a rule answers 422 and writes nothing; otherwise the
   * highlight of (blog id, category) is updated, or created when there is none, with `is_active`
   * defaulting to true. `is_blog` is validated but never stored.
   */
  method StoreOrUpdate(db: Database, req: HighlightRequest) returns (r: Response<Id>)
    requires db.HighlightsValid()
    modifies db`highlights, db`nextHighlightId
    ensures db.HighlightsValid()
    ensures !HighlightValid(db.blogs, req) ==> r == Fail(Unprocessable) && unchanged(db)
    ensures HighlightValid(db.blogs, req) ==>
              var key := KeyIs(req.blogId.value, req.category.value);
              db.highlights == Upsert(old(db.highlights), old(db.nextHighlightId), req.blogId.value,
                                      req.category.value, req.isActive.OrElse(true)) &&
              db.nextHighlightId == old(db.nextHighlightId) + (if FirstMatch(old(db.highlights), key).Some? then 0 else 1) &&
              r == Ok(match FirstMatch(old(db.highlights), key)
                      case Some(k) => old(db.highlights)[k].id
                      case None => old(db.nextHighlightId))
    ensures old(UniqueKeys(db.highlights)) ==> UniqueKeys(db.highlights)
    ensures old(UniqueKeys(db.highlights)) && r.Ok? ==>
              Count(db.highlights, KeyIs(req.blogId.value, req.category.value)) == 1 &&
              forall i :: 0 <= i < |db.highlights| && KeyIs(req.blogId.value, req.category.value)(db.highlights[i]) ==>
                db.highlights[i].id == r.value && db.highlights[i].isActive == req.isActive.OrElse(true)
  {
    if !HighlightValid(db.blogs, req) {
      return Fail(Unprocessable);
    }
    var blogId, category, active := req.blogId.value, req.category.value, req.isActive.OrElse(true);
    var hs, next := db.highlights, db.nextHighlightId;
    if UniqueKeys(hs) {
      UpsertSound(hs, next, blogId, category, active);
    }
    UpsertIds(hs, next, blogId, category, active);
    db.highlights := Upsert(hs, next, blogId, category, active);
    match FirstMatch(hs, KeyIs(blogId, category))
    case Some(k) =>
      r := Ok(hs[k].id);
    case None =>
      r := Ok(next);
      db.nextHighlightId := next + 1;
  }

  /** The highlight with this id. */
  function IdIs(id: Id): Highlight -> bool {
    (h: Highlight) => h.id == id
  }

  /** A sequence that is `hs` without position `k`, described position by position. */
  predicate Without(hs: seq<Highlight>, k: nat, rest: seq<Highlight>) {
    k < |hs| && |rest| == |hs| - 1 &&
    (forall j :: 0 <= j < |rest| ==> rest[j] == hs[if j < k then j else j + 1])
  }

  /** Deleting a row keeps ids valid and keys unique. */
  lemma DeleteKeepsValid(hs: seq<Highlight>, next: Id, k: nat, rest: seq<Highlight>)
    requires ValidIds(hs, next) && Without(hs, k, rest)
    ensures ValidIds(rest, next)
    ensures UniqueKeys(hs) ==> UniqueKeys(rest)
  {
    forall i, j | 0 <= i < j < |rest|
      ensures rest[i].id != rest[j].id
      ensures UniqueKeys(hs) ==> rest[i].blogId != rest[j].blogId || rest[i].category != rest[j].category
    {
      var i', j' := if i < k then i else i + 1, if j < k then j else j + 1;
      assert rest[i] == hs[i'] && rest[j] == hs[j'] && i' < j';
    }
  }

  /** Deleting a row removes exactly the rows carrying its id, which is that row alone. */
  lemma DeleteMembers(hs: seq<Highlight>, next: Id, k: nat, rest: seq<Highlight>)
    requires ValidIds(hs, next) && Without(hs, k, rest)
    ensures forall h :: h in rest <==> h in hs && h.id != hs[k].id
  {
    forall h | h in hs && h.id != hs[k].id
      ensures h in rest
    {
      var j :| 0 <= j < |hs| && hs[j] == h;
      var j' := if j < k then j else j - 1;
      assert rest[j'] == h;
    }
    forall h | h in rest
      ensures h in hs && h.id != hs[k].id
    {
      var j :| 0 <= j < |rest| && rest[j] == h;
      var j' := if j < k then j else j + 1;
      assert hs[j'] == h && j' != k;
    }
  }

  /**
   * `destroy`: an unknown id answers 404 and deletes nothing; a known one deletes exactly that
   * row, the others staying in order.
   */
  method Destroy(db: Database, id: Id) returns (r: Response<()>)
    requires db.HighlightsValid()
    modifies db`highlights
    ensures db.HighlightsValid()
    ensures (forall i :: 0 <= i < |old(db.highlights)| ==> old(db.highlights)[i].id != id) ==>
              r == Fail(NotFound) && unchanged(db)
    ensures r.Ok? <==> exists i :: 0 <= i < |old(db.highlights)| && old(db.highlights)[i].id == id
    ensures r.Ok? ==>
              |db.highlights| == |old(db.highlights)| - 1 &&
              forall h :: h in db.highlights <==> h in old(db.highlights) && h.id != id
    ensures r.Ok? ==>
              var k := FirstMatch(old(db.highlights), IdIs(id)).value;
              db.highlights == old(db.highlights)[..k] + old(db.highlights)[k + 1..]
    ensures old(UniqueKeys(db.highlights)) ==> UniqueKeys(db.highlights)
  {
    var hs := db.highlights;
    match FirstMatch(hs, IdIs(id))
    case None =>
      r := Fail(NotFound);
    case Some(k) =>
      var rest := hs[..k] + hs[k + 1..];
      assert Without(hs, k, rest);
      DeleteKeepsValid(hs, db.nextHighlightId, k, rest);
      DeleteMembers(hs, db.nextHighlightId, k, rest);
      db.highlights := rest;
      r := Ok(());
  }

  /**
   * `storeOrUpdate` as written: the rules run and a failing request answers 422, but a valid
   * request then reaches the unimported class name and fails with 500; no highlight is ever
   * saved.
   */
  function StoreOrUpdateAsWritten(blogs: seq<Blog>, req: HighlightRequest): (r: Response<Id>)
    ensures r.Fail?
    ensures r.failure == if HighlightValid(blogs, req) then ServerError else Unprocessable
  {
    if HighlightValid(blogs, req) then Fail(ServerError) else Fail(Unprocessable)
  }

  /** `destroy` as written: `BlogHighlight::findOrFail` fails with 500 before any lookup. */
  function DestroyAsWritten(hs: seq<Highlight>, id: Id): (r: Response<()>)
    ensures r == Fail(ServerError)
  {
    Fail(ServerError)
  }

  /**
   * The discrepancy: for a valid request on any highlight table the code as written answers 500,
   * while the intended upsert leaves a highlight for the requested key.
   */
  lemma ValidHighlightRefused(blogs: seq<Blog>, hs: seq<Highlight>, next: Id, req: HighlightRequest)
    requires HighlightValid(blogs, req) && UniqueKeys(hs)
    ensures StoreOrUpdateAsWritten(blogs, req) == Fail(ServerError)
    ensures Count(Upsert(hs, next, req.blogId.value, req.category.value, req.isActive.OrElse(true)),
                  KeyIs(req.blogId.value, req.category.value)) == 1
  {
    UpsertSound(hs, next, req.blogId.value, req.category.value, req.isActive.OrElse(true));
  }
}
