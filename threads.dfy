/** The public content routes (routes/posts.js, routes/questions.js) and the
    detail fetch the admin routes share (`getPost` in routes/admin/posts.js):
    a content row and its replies form a forest through `parent_id`. */
module Threads {
  import opened Common
  import opened Tables
  import opened Schema
  import opened Queries
  import opened Paging

  /** The `children` association: the rows whose parent is `id`. */
  function Children(rows: seq<Entry<Content>>, id: nat): (r: seq<Entry<Content>>)
    ensures forall e :: e in r <==> e in rows && e.val.parentId == Some(id)
    ensures Ascending(rows) ==> Ascending(r)
  {
    Select(rows, (e: Entry<Content>) => e.val.parentId == Some(id))
  }

  /** A direct reply with its own replies, which carry no further level. */
  datatype Reply = Reply(id: nat, row: Content, replies: seq<Entry<Content>>)

  /** The detail response: the row, two levels of replies, its author and
      its topic (the school of a post, the category of a question). */
  datatype Thread<T> = Thread(id: nat, row: Content, replies: seq<Reply>, user: Option<User>, topic: Option<T>)

  function Expand(rows: seq<Entry<Content>>, children: seq<Entry<Content>>): (r: seq<Reply>)
    ensures |r| == |children|
    ensures forall k :: 0 <= k < |r| ==>
              r[k].id == children[k].id && r[k].row == children[k].val
              && r[k].replies == Children(rows, children[k].id)
  {
    seq(|children|, k requires 0 <= k < |children| =>
          Reply(children[k].id, children[k].val, Children(rows, children[k].id)))
  }

  function TopicOf<T>(topics: seq<Entry<T>>, v: Content): Option<T> {
    match v.topicId
    case None => None
    case Some(t) => Find(topics, t)
  }

  /** findByPk(id) with `children` nested twice, `user` and the topic:
      NotFound when no row has that id. */
  function Detail<T>(rows: seq<Entry<Content>>, users: seq<Entry<User>>, topics: seq<Entry<T>>, id: int): (r: Result<Thread<T>>)
    ensures r.Ok? <==> id in IdsOf(rows)
    ensures r.Err? ==> r.kind == NotFound
    ensures r.Ok? ==> r.value.id == id && Entry(r.value.id, r.value.row) in rows
    ensures r.Ok? ==> (r.value.user.Some? <==> r.value.row.userId in IdsOf(users))
    ensures r.Ok? && r.value.user.Some? ==> Entry(r.value.row.userId, r.value.user.value) in users
    ensures r.Ok? ==> (r.value.topic.Some? <==> r.value.row.topicId.Some? && r.value.row.topicId.value in IdsOf(topics))
    ensures r.Ok? && r.value.topic.Some? ==> Entry(r.value.row.topicId.value, r.value.topic.value) in topics
  {
    match Find(rows, id)
    case None => Err(NotFound)
    case Some(v) =>
      var user := Find(users, v.userId);
      Ok(Thread(id, v, Expand(rows, Children(rows, id)), user, TopicOf(topics, v)))
  }

  /** The detail holds exactly the row's replies and exactly their replies,
      and nothing from a third level: every row it carries is a child or a
      grandchild of the requested row, and every child and grandchild is
      there. */
  lemma DetailTwoLevels<T>(rows: seq<Entry<Content>>, users: seq<Entry<User>>, topics: seq<Entry<T>>, id: int)
    requires Ascending(rows)
    ensures var r := Detail(rows, users, topics, id);
      r.Ok? ==>
        && (forall c :: c in r.value.replies ==>
              Entry(c.id, c.row) in rows && c.row.parentId == Some(id))
        && (forall e :: e in rows && e.val.parentId == Some(id) ==>
              exists c :: c in r.value.replies && c.id == e.id && c.row == e.val)
        && (forall c, g :: c in r.value.replies && g in c.replies ==>
              g in rows && g.val.parentId == Some(c.id))
        && (forall c, g :: c in r.value.replies && g in rows && g.val.parentId == Some(c.id) ==>
              g in c.replies)
  {
    var r := Detail(rows, users, topics, id);
    if r.Ok? {
      var kids := Children(rows, r.value.id);
      assert r.value.replies == Expand(rows, kids);
      forall c | c in r.value.replies ensures Entry(c.id, c.row) in rows && c.row.parentId == Some(id) {
        var k :| 0 <= k < |r.value.replies| && r.value.replies[k] == c;
        assert kids[k] in kids;
      }
      forall e | e in rows && e.val.parentId == Some(id)
        ensures exists c :: c in r.value.replies && c.id == e.id && c.row == e.val
      {
        assert e in kids;
        var k :| 0 <= k < |kids| && kids[k] == e;
        assert r.value.replies[k] in r.value.replies;
      }
      forall c, g | c in r.value.replies && g in c.replies
        ensures g in rows && g.val.parentId == Some(c.id)
      {
        var k :| 0 <= k < |r.value.replies| && r.value.replies[k] == c;
      }
      forall c, g | c in r.value.replies && g in rows && g.val.parentId == Some(c.id)
        ensures g in c.replies
      {
        var k :| 0 <= k < |r.value.replies| && r.value.replies[k] == c;
      }
    }
  }

  /** The root rows, those with a null `parent_id`. */
  function Roots(rows: seq<Entry<Content>>): (r: seq<Entry<Content>>)
    ensures forall e :: e in r <==> e in rows && e.val.parentId.None?
    ensures Ascending(rows) ==> Ascending(r)
  {
    Select(rows, (e: Entry<Content>) => e.val.parentId.None?)
  }

  ghost function RootIds(rows: seq<Entry<Content>>): set<nat> {
    set i | 0 <= i < |rows| && rows[i].val.parentId.None? :: rows[i].id
  }

  /** The public list: root rows without `content`, by id descending, one
      page of them, with the number of root rows. */
  function RootList(rows: seq<Entry<Content>>, page: Page): (r: Paginated<Summary>)
    requires Ascending(rows) && page.currentPage >= 1
    ensures r.total == |Roots(rows)|
    ensures PageOf(r.items, Summaries(NewestFirst(Roots(rows))), page)
  {
    Paginate(Summaries(NewestFirst(Roots(rows))), page)
  }

  lemma {:induction false} RootCount(rows: seq<Entry<Content>>)
    requires Ascending(rows)
    ensures |Roots(rows)| == |RootIds(rows)|
  {
    var sel := Roots(rows);
    CountIsDistinctIds(sel);
    forall x | x in IdsOf(sel) ensures x in RootIds(rows) {
      var i :| 0 <= i < |sel| && sel[i].id == x;
      assert sel[i] in sel;
      var j :| 0 <= j < |rows| && rows[j] == sel[i];
    }
    forall x | x in RootIds(rows) ensures x in IdsOf(sel) {
      var j :| 0 <= j < |rows| && rows[j].id == x && rows[j].val.parentId.None?;
      assert rows[j] in sel;
      var i :| 0 <= i < |sel| && sel[i] == rows[j];
    }
    assert IdsOf(sel) == RootIds(rows);
  }

  /** Only roots are listed, newest first and at most `pageSize` of them;
      each item is a stored row with its body left out; `total` counts all
      roots whatever the page. */
  lemma RootListSpec(rows: seq<Entry<Content>>, page: Page)
    requires Ascending(rows) && page.currentPage >= 1
    ensures var r := RootList(rows, page);
      && r.total == |RootIds(rows)|
      && |r.items| <= page.pageSize
      && (forall k :: 0 <= k < |r.items| ==>
            r.items[k].parentId.None? &&
            exists e :: e in rows && e.id == r.items[k].id && Summarize(e) == r.items[k])
      && (forall a, b :: 0 <= a < b < |r.items| ==> r.items[a].id > r.items[b].id)
      && PageOf(r.items, Summaries(NewestFirst(Roots(rows))), page)
  {
    var roots := NewestFirst(Roots(rows));
    RootCount(rows);
    var r := RootList(rows, page);
    forall k | 0 <= k < |r.items|
      ensures r.items[k].parentId.None?
      ensures exists e :: e in rows && e.id == r.items[k].id && Summarize(e) == r.items[k]
    {
      var e := roots[Offset(page) + k];
      assert e in roots;
    }
    forall a, b | 0 <= a < b < |r.items| ensures r.items[a].id > r.items[b].id {
      assert roots[Offset(page) + a].id > roots[Offset(page) + b].id;
    }
  }

  /** GET /posts. */
  function ListPosts(db: Db, rawPage: Option<int>, rawSize: Option<int>): (r: Paginated<Summary>)
    requires db.posts.Valid()
    ensures r.total == |RootIds(db.posts.rows)|
    ensures |r.items| <= r.pageSize
    ensures forall k :: 0 <= k < |r.items| ==> r.items[k].parentId.None?
    ensures forall a, b :: 0 <= a < b < |r.items| ==> r.items[a].id > r.items[b].id
    ensures PageOf(r.items, Summaries(NewestFirst(Roots(db.posts.rows))), ParsePage(rawPage, rawSize))
  {
    var page := ParsePage(rawPage, rawSize);
    RootListSpec(db.posts.rows, page);
    RootList(db.posts.rows, page)
  }

  /** GET /questions. */
  function ListQuestions(db: Db, rawPage: Option<int>, rawSize: Option<int>): (r: Paginated<Summary>)
    requires db.questions.Valid()
    ensures r.total == |RootIds(db.questions.rows)|
    ensures |r.items| <= r.pageSize
    ensures forall k :: 0 <= k < |r.items| ==> r.items[k].parentId.None?
    ensures forall a, b :: 0 <= a < b < |r.items| ==> r.items[a].id > r.items[b].id
    ensures PageOf(r.items, Summaries(NewestFirst(Roots(db.questions.rows))), ParsePage(rawPage, rawSize))
  {
    var page := ParsePage(rawPage, rawSize);
    RootListSpec(db.questions.rows, page);
    RootList(db.questions.rows, page)
  }

  /** GET /posts/:id, and `getPost` of the admin routes. */
  function PostDetail(db: Db, id: int): (r: Result<Thread<School>>)
    ensures r.Ok? <==> id in IdsOf(db.posts.rows)
    ensures r.Err? ==> r.kind == NotFound
    ensures r.Ok? ==> r.value.id == id && Entry(r.value.id, r.value.row) in db.posts.rows
    ensures r.Ok? ==> (r.value.user.Some? <==> r.value.row.userId in IdsOf(db.users.rows))
    ensures r.Ok? && r.value.user.Some? ==> Entry(r.value.row.userId, r.value.user.value) in db.users.rows
    ensures r.Ok? ==> (r.value.topic.Some? <==> r.value.row.topicId.Some? && r.value.row.topicId.value in IdsOf(db.schools.rows))
    ensures r.Ok? && r.value.topic.Some? ==> Entry(r.value.row.topicId.value, r.value.topic.value) in db.schools.rows
  {
    Detail(db.posts.rows, db.users.rows, db.schools.rows, id)
  }

  /** GET /questions/:id. */
  function QuestionDetail(db: Db, id: int): (r: Result<Thread<Category>>)
    ensures r.Ok? <==> id in IdsOf(db.questions.rows)
    ensures r.Err? ==> r.kind == NotFound
    ensures r.Ok? ==> r.value.id == id && Entry(r.value.id, r.value.row) in db.questions.rows
    ensures r.Ok? ==> (r.value.user.Some? <==> r.value.row.userId in IdsOf(db.users.rows))
    ensures r.Ok? && r.value.user.Some? ==> Entry(r.value.row.userId, r.value.user.value) in db.users.rows
    ensures r.Ok? ==> (r.value.topic.Some? <==> r.value.row.topicId.Some? && r.value.row.topicId.value in IdsOf(db.categories.rows))
    ensures r.Ok? && r.value.topic.Some? ==> Entry(r.value.row.topicId.value, r.value.topic.value) in db.categories.rows
  {
    Detail(db.questions.rows, db.users.rows, db.categories.rows, id)
  }
}
