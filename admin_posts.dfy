/** The admin post routes (routes/admin/posts.js): list, create, update and
    delete over the Posts table. The detail route is `Threads.PostDetail`. */
module AdminPosts {
  import opened Common
  import opened Tables
  import opened Schema
  import opened Queries
  import opened Paging
  import opened Records
  import opened Writes
  import opened Cascade
  import opened Storage
  import opened AdminCommon

  /** The request body fields the routes read. */
  datatype PostBody = PostBody(
    title: Option<string>,
    content: Option<string>,
    schoolId: Option<int>,
    parentId: Option<int>,
    likes: Option<int>,
    views: Option<int>,
    favorites: Option<int>,
    recommended: Option<bool>,
    video: Option<string>,
    kind: Option<int>,
    status: Option<string>,
    coverImage: Option<string>)

  /** `filterBody`: the whitelisted fields with their `||` defaults. The
      counters, `is_recommended` and `status` are always given, so an update
      that omits them writes their defaults; `user_id` is never taken from
      the request. */
  function FilterBody(b: PostBody): (a: ContentAttrs)
    ensures a.userId.None?
  {
    ContentAttrs(b.title, b.content, None, b.schoolId, b.parentId,
                 Some(OrZero(b.likes)), Some(OrZero(b.views)), Some(OrZero(b.favorites)),
                 Some(OrFalse(b.recommended)), b.video, b.kind, None, Some(OrPublished(b.status)), b.coverImage)
  }

  function TitleFilter(q: Option<string>): Entry<Content> -> bool {
    (e: Entry<Content>) => Like(e.val.title, q)
  }

  lemma NoTitleSelectsAll(rows: seq<Entry<Content>>, q: Option<string>)
    ensures !Filled(q) ==> Select(rows, TitleFilter(q)) == rows
  {
    if !Filled(q) {
      SelectAll(rows, TitleFilter(q));
    }
  }

  /** GET /admin/posts: every post, replies included, newest first, paged;
      filtered by a title substring only when a title is given. */
  function ListByTitle(db: Db, title: Option<string>, rawPage: Option<int>, rawSize: Option<int>): (r: Paginated<Entry<Content>>)
    requires db.posts.Valid()
    ensures r.total == |Select(db.posts.rows, TitleFilter(title))|
    ensures !Filled(title) ==> r.total == |db.posts.rows|
    ensures |r.items| <= r.pageSize
    ensures forall e :: e in r.items ==> e in db.posts.rows && Like(e.val.title, title)
    ensures forall a, b :: 0 <= a < b < |r.items| ==> r.items[a].id > r.items[b].id
    ensures PageOf(r.items, NewestFirst(Select(db.posts.rows, TitleFilter(title))), ParsePage(rawPage, rawSize))
  {
    NoTitleSelectsAll(db.posts.rows, title);
    ListNewest(db.posts.rows, TitleFilter(title), rawPage, rawSize)
  }

  /** POST /admin/posts: the authenticated admin `adminId` becomes the
      owner; a validation failure is reported as such, any other failure as
      unexpected. */
  method CreatePost(s: Store, adminId: nat, b: PostBody) returns (r: Result<Entry<Content>>)
    requires s.Valid() && adminId in IdsOf(s.users.rows)
    modifies s
    ensures s.Valid()
    ensures var saved := CreateContent(FilterBody(b).(userId := Some(adminId)), IdsOf(old(s.users.rows)),
                                       IdsOf(old(s.schools.rows)), IdsOf(old(s.posts.rows)), "school_id");
      && (saved.Saved? ==> r == Ok(Entry(old(s.posts.nextId), saved.value))
                           && s.State() == old(s.State()).(posts := Insert(old(s.posts), saved.value)))
      && (saved.Failed? ==> r == Err(KindOf(saved.error)) && s.State() == old(s.State()))
    ensures r.Ok? ==>
      var v := r.value.val;
      && v.userId == adminId && Some(v.title) == b.title && Some(v.body) == b.content
      && v.likes == OrZero(b.likes) && v.views == OrZero(b.views) && v.favorites == OrZero(b.favorites)
      && v.recommended == OrFalse(b.recommended) && v.status == OrPublished(b.status)
      && v.kind == Or(b.kind, DefaultKind)
    ensures (&& b.title.Some? && b.content.Some? && b.schoolId.None? && b.parentId.None?
             && OrPublished(b.status) in TableStatuses) ==> r.Ok?
  {
    var a := FilterBody(b).(userId := Some(adminId));
    var saved := CreateContent(a, IdsOf(s.users.rows), IdsOf(s.schools.rows), IdsOf(s.posts.rows), "school_id");
    match saved
    case Failed(e) =>
      r := Err(KindOf(e));
    case Saved(v) =>
      InsertPostKeepsIntegrity(s.State(), v);
      r := Ok(Entry(s.posts.nextId, v));
      s.posts := Insert(s.posts, v);
  }

  /** PUT /admin/posts/:id: NotFound for an unknown id; 400 when the title
      or the content is missing or empty, before any write; otherwise the
      update, whose failures are all unexpected ones. */
  method UpdatePost(s: Store, id: int, b: PostBody) returns (r: Result<Entry<Content>>)
    requires s.Valid()
    modifies s
    ensures s.Valid()
    ensures var found := Lookup(old(s.posts.rows), id);
      && (found.Err? ==> r == Err(NotFound) && s.State() == old(s.State()))
      && (found.Ok? && !(Filled(b.title) && Filled(b.content)) ==> r == Err(BadRequest) && s.State() == old(s.State()))
      && (found.Ok? && Filled(b.title) && Filled(b.content) ==>
            var saved := UpdateContent(found.value.val, FilterBody(b), IdsOf(old(s.users.rows)),
                                       IdsOf(old(s.schools.rows)), IdsOf(old(s.posts.rows)), "school_id");
            && (saved.Saved? ==> r == Ok(Entry(found.value.id, saved.value))
                                 && s.State() == old(s.State()).(posts := Update(old(s.posts), id, saved.value)))
            && (saved.Failed? ==> r == Err(KindOf(saved.error)) && s.State() == old(s.State())))
    ensures r.Err? ==> r.kind != Validation
    ensures r.Ok? ==>
      var v := r.value.val;
      && Some(v.title) == b.title && Some(v.body) == b.content
      && v.likes == OrZero(b.likes) && v.views == OrZero(b.views) && v.favorites == OrZero(b.favorites)
      && v.recommended == OrFalse(b.recommended) && v.status == OrPublished(b.status)
  {
    var found := Lookup(s.posts.rows, id);
    if found.Err? {
      return Err(NotFound);
    }
    if !(Filled(b.title) && Filled(b.content)) {
      return Err(BadRequest);
    }
    var saved := UpdateContent(found.value.val, FilterBody(b), IdsOf(s.users.rows), IdsOf(s.schools.rows),
                               IdsOf(s.posts.rows), "school_id");
    match saved
    case Failed(e) =>
      r := Err(KindOf(e));
    case Saved(v) =>
      UpdatePostKeepsIntegrity(s.State(), id, v);
      r := Ok(Entry(found.value.id, v));
      s.posts := Update(s.posts, id, v);
  }

  /** DELETE /admin/posts/:id: NotFound for an unknown id; otherwise the
      post goes with every reply under it and their likes and favourites. */
  method DeletePost(s: Store, id: int) returns (r: Result<()>)
    requires s.Valid()
    modifies s
    ensures s.Valid()
    ensures var found := Lookup(old(s.posts.rows), id);
      && (found.Err? ==> r == Err(NotFound) && s.State() == old(s.State()))
      && (found.Ok? ==> r == Ok(()) && s.State() == DeletePosts(old(s.State()), {found.value.id}))
  {
    var found := Lookup(s.posts.rows, id);
    if found.Err? {
      return Err(NotFound);
    }
    DeletePostsKeepsIntegrity(s.State(), {found.value.id});
    s.Commit(DeletePosts(s.State(), {found.value.id}));
    r := Ok(());
  }
}
