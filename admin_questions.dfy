/** The admin question routes (routes/admin/questions.js). Unlike the post
    routes, a NotFound from `getQuestion` on update or delete lands in a
    catch block that answers every non-validation error as unexpected. */
module AdminQuestions {
  import opened Common
  import opened Tables
  import opened Schema
  import opened Queries
  import opened Paging
  import opened Records
  import opened Writes
  import opened Cascade
  import opened Storage
  import opened AdminCommon

  /** The request body fields the routes read. */
  datatype QuestionBody = QuestionBody(
    title: Option<string>,
    content: Option<string>,
    categoryId: Option<int>,
    parentId: Option<int>,
    likes: Option<int>,
    views: Option<int>,
    favorites: Option<int>,
    recommended: Option<bool>,
    video: Option<string>,
    kind: Option<int>,
    difficulty: Option<int>,
    status: Option<string>)

  /** `filterBody`: the whitelisted fields with their `||` defaults, and no
      `user_id`. */
  function FilterBody(b: QuestionBody): (a: ContentAttrs)
    ensures a.userId.None?
  {
    ContentAttrs(b.title, b.content, None, b.categoryId, b.parentId,
                 Some(OrZero(b.likes)), Some(OrZero(b.views)), Some(OrZero(b.favorites)),
                 Some(OrFalse(b.recommended)), b.video, b.kind, b.difficulty, Some(OrPublished(b.status)), None)
  }

  function ContentFilter(q: Option<string>): Entry<Content> -> bool {
    (e: Entry<Content>) => Like(e.val.body, q)
  }

  lemma NoContentSelectsAll(rows: seq<Entry<Content>>, q: Option<string>)
    ensures !Filled(q) ==> Select(rows, ContentFilter(q)) == rows
  {
    if !Filled(q) {
      SelectAll(rows, ContentFilter(q));
    }
  }

  /** GET /admin/questions: every question, newest first, paged; filtered
      by a substring of `content` only when one is given. */
  function ListByContent(db: Db, content: Option<string>, rawPage: Option<int>, rawSize: Option<int>): (r: Paginated<Entry<Content>>)
    requires db.questions.Valid()
    ensures r.total == |Select(db.questions.rows, ContentFilter(content))|
    ensures !Filled(content) ==> r.total == |db.questions.rows|
    ensures |r.items| <= r.pageSize
    ensures forall e :: e in r.items ==> e in db.questions.rows && Like(e.val.body, content)
    ensures forall a, b :: 0 <= a < b < |r.items| ==> r.items[a].id > r.items[b].id
    ensures PageOf(r.items, NewestFirst(Select(db.questions.rows, ContentFilter(content))), ParsePage(rawPage, rawSize))
  {
    NoContentSelectsAll(db.questions.rows, content);
    ListNewest(db.questions.rows, ContentFilter(content), rawPage, rawSize)
  }

  /** The route's own category check: a truthy `category_id` must name a
      category. */
  predicate MissingCategory(db: Db, categoryId: Option<int>) {
    Truthy(categoryId) && categoryId.value !in IdsOf(db.categories.rows)
  }

  /** `Question.create(attrs)` and, when it saves, the row it inserts. */
  method SaveQuestion(s: Store, a: ContentAttrs) returns (r: Result<Entry<Content>>)
    requires s.Valid()
    modifies s
    ensures s.Valid()
    ensures var saved := CreateContent(a, IdsOf(old(s.users.rows)), IdsOf(old(s.categories.rows)),
                                       IdsOf(old(s.questions.rows)), "category_id");
      && (saved.Saved? ==> r == Ok(Entry(old(s.questions.nextId), saved.value))
                           && s.State() == old(s.State()).(questions := Insert(old(s.questions), saved.value)))
      && (saved.Failed? ==> r == Err(KindOf(saved.error)) && s.State() == old(s.State()))
  {
    var saved := CreateContent(a, IdsOf(s.users.rows), IdsOf(s.categories.rows), IdsOf(s.questions.rows), "category_id");
    match saved
    case Failed(e) =>
      r := Err(KindOf(e));
    case Saved(v) =>
      InsertQuestionKeepsIntegrity(s.State(), v);
      r := Ok(Entry(s.questions.nextId, v));
      s.questions := Insert(s.questions, v);
  }

  /** POST /admin/questions, as written: 400 when a truthy `category_id`
      names no category; otherwise the create, which always fails
      validation because nothing supplies the non-null `user_id`. No
      question is ever created. */
  method CreateQuestion(s: Store, b: QuestionBody) returns (r: Result<Entry<Content>>)
    requires s.Valid()
    modifies s
    ensures s.Valid() && s.State() == old(s.State())
    ensures MissingCategory(old(s.State()), b.categoryId) ==> r == Err(BadRequest)
    ensures !MissingCategory(old(s.State()), b.categoryId) ==> r == Err(Validation)
  {
    if Truthy(b.categoryId) && Find(s.categories.rows, b.categoryId.value).None? {
      return Err(BadRequest);
    }
    r := SaveQuestion(s, FilterBody(b));
  }

  /** POST /admin/questions with the authenticated admin as the owner, as
      the post route does: a question with a title and content, no category
      or parent and an accepted status is created and owned by the admin. */
  method CreateOwnedQuestion(s: Store, adminId: nat, b: QuestionBody) returns (r: Result<Entry<Content>>)
    requires s.Valid() && adminId in IdsOf(s.users.rows)
    modifies s
    ensures s.Valid()
    ensures MissingCategory(old(s.State()), b.categoryId) ==> r == Err(BadRequest) && s.State() == old(s.State())
    ensures !MissingCategory(old(s.State()), b.categoryId) ==>
      var saved := CreateContent(FilterBody(b).(userId := Some(adminId)), IdsOf(old(s.users.rows)),
                                 IdsOf(old(s.categories.rows)), IdsOf(old(s.questions.rows)), "category_id");
      && (saved.Saved? ==> r == Ok(Entry(old(s.questions.nextId), saved.value))
                           && s.State() == old(s.State()).(questions := Insert(old(s.questions), saved.value)))
      && (saved.Failed? ==> r == Err(KindOf(saved.error)) && s.State() == old(s.State()))
    ensures r.Ok? ==> r.value.val.userId == adminId
    ensures (&& b.title.Some? && b.content.Some? && b.categoryId.None? && b.parentId.None?
             && OrPublished(b.status) in TableStatuses) ==> r.Ok?
  {
    if Truthy(b.categoryId) && Find(s.categories.rows, b.categoryId.value).None? {
      return Err(BadRequest);
    }
    r := SaveQuestion(s, FilterBody(b).(userId := Some(adminId)));
  }

  /** PUT /admin/questions/:id: an unknown id fails before the category
      check, and as an unexpected error; then the route's category check;
      then the update. */
  method UpdateQuestion(s: Store, id: int, b: QuestionBody) returns (r: Result<Entry<Content>>)
    requires s.Valid()
    modifies s
    ensures s.Valid()
    ensures var found := Lookup(old(s.questions.rows), id);
      && (found.Err? ==> r == Err(Unexpected) && s.State() == old(s.State()))
      && (found.Ok? && MissingCategory(old(s.State()), b.categoryId) ==> r == Err(BadRequest) && s.State() == old(s.State()))
      && (found.Ok? && !MissingCategory(old(s.State()), b.categoryId) ==>
            var saved := UpdateContent(found.value.val, FilterBody(b), IdsOf(old(s.users.rows)),
                                       IdsOf(old(s.categories.rows)), IdsOf(old(s.questions.rows)), "category_id");
            && (saved.Saved? ==> r == Ok(Entry(found.value.id, saved.value))
                                 && s.State() == old(s.State()).(questions := Update(old(s.questions), id, saved.value)))
            && (saved.Failed? ==> r == Err(KindOf(saved.error)) && s.State() == old(s.State())))
    ensures r.Ok? ==>
      var v := r.value.val;
      && v.likes == OrZero(b.likes) && v.views == OrZero(b.views) && v.favorites == OrZero(b.favorites)
      && v.recommended == OrFalse(b.recommended) && v.status == OrPublished(b.status)
  {
    var found := Lookup(s.questions.rows, id);
    if found.Err? {
      return Err(Unexpected);
    }
    if Truthy(b.categoryId) && Find(s.categories.rows, b.categoryId.value).None? {
      return Err(BadRequest);
    }
    var saved := UpdateContent(found.value.val, FilterBody(b), IdsOf(s.users.rows), IdsOf(s.categories.rows),
                               IdsOf(s.questions.rows), "category_id");
    match saved
    case Failed(e) =>
      r := Err(KindOf(e));
    case Saved(v) =>
      UpdateQuestionKeepsIntegrity(s.State(), id, v);
      r := Ok(Entry(found.value.id, v));
      s.questions := Update(s.questions, id, v);
  }

  /** DELETE /admin/questions/:id: an unknown id is an unexpected error, not
      NotFound; otherwise the question goes with its replies, transitively,
      and their likes and favourites. */
  method DeleteQuestion(s: Store, id: int) returns (r: Result<()>)
    requires s.Valid()
    modifies s
    ensures s.Valid()
    ensures var found := Lookup(old(s.questions.rows), id);
      && (found.Err? ==> r == Err(Unexpected) && s.State() == old(s.State()))
      && (found.Ok? ==> r == Ok(()) && s.State() == DeleteQuestions(old(s.State()), {found.value.id}))
  {
    var found := Lookup(s.questions.rows, id);
    if found.Err? {
      return Err(Unexpected);
    }
    DeleteQuestionsKeepsIntegrity(s.State(), {found.value.id});
    s.Commit(DeleteQuestions(s.State(), {found.value.id}));
    r := Ok(());
  }
}
