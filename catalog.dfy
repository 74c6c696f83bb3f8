/** The public category routes (routes/categories.js): the two-level
    category tree a user's target school examines, and the questions filed
    under a category or one of its direct sub-categories. */
module Catalog {
  import opened Common
  import opened Tables
  import opened Schema
  import opened Queries

  /** A SchoolCategory row links category `cid` to school `sid`. */
  predicate Linked(links: seq<Entry<SchoolCategory>>, cid: int, sid: int) {
    exists i :: 0 <= i < |links| && links[i].val.categoryId == cid && links[i].val.schoolId == sid
  }

  /** The direct sub-categories of `id`, in table order. */
  function SubCategories(categories: seq<Entry<Category>>, id: nat): (r: seq<Entry<Category>>)
    ensures forall e :: e in r <==> e in categories && e.val.parentId == Some(id)
  {
    Select(categories, (e: Entry<Category>) => e.val.parentId == Some(id))
  }

  /** A first-level category with the second-level ones under it. */
  datatype Node = Node(id: nat, category: Category, children: seq<Entry<Category>>)

  /** The children of `id` that are linked to school `sid`. */
  function LinkedChildren(categories: seq<Entry<Category>>, links: seq<Entry<SchoolCategory>>, id: nat, sid: nat): (r: seq<Entry<Category>>)
    ensures forall c :: c in r <==> c in categories && c.val.parentId == Some(id) && Linked(links, c.id, sid)
  {
    Select(SubCategories(categories, id), (c: Entry<Category>) => Linked(links, c.id, sid))
  }

  /** A top-level category linked to school `sid`. */
  predicate LinkedTop(links: seq<Entry<SchoolCategory>>, sid: nat, e: Entry<Category>) {
    e.val.parentId.None? && Linked(links, e.id, sid)
  }

  /** The top-level categories linked to school `sid`, each with its linked
      children. */
  function Tree(categories: seq<Entry<Category>>, links: seq<Entry<SchoolCategory>>, sid: nat): (r: seq<Node>)
    ensures |r| == |Select(categories, (e: Entry<Category>) => LinkedTop(links, sid, e))|
    ensures forall n :: n in r ==> Entry(n.id, n.category) in categories && LinkedTop(links, sid, Entry(n.id, n.category))
  {
    var tops := Select(categories, (e: Entry<Category>) => LinkedTop(links, sid, e));
    seq(|tops|, k requires 0 <= k < |tops| =>
          Node(tops[k].id, tops[k].val, LinkedChildren(categories, links, tops[k].id, sid)))
  }

  lemma TreeSound(categories: seq<Entry<Category>>, links: seq<Entry<SchoolCategory>>, sid: nat)
    ensures forall n :: n in Tree(categories, links, sid) ==>
              && Entry(n.id, n.category) in categories && LinkedTop(links, sid, Entry(n.id, n.category))
              && n.children == LinkedChildren(categories, links, n.id, sid)
  {
    var tops := Select(categories, (e: Entry<Category>) => LinkedTop(links, sid, e));
    var r := Tree(categories, links, sid);
    forall n | n in r
      ensures Entry(n.id, n.category) in categories && LinkedTop(links, sid, Entry(n.id, n.category))
      ensures n.children == LinkedChildren(categories, links, n.id, sid)
    {
      var k :| 0 <= k < |r| && r[k] == n;
      assert tops[k] == Entry(n.id, n.category);
      assert tops[k] in tops;
    }
  }

  lemma TreeComplete(categories: seq<Entry<Category>>, links: seq<Entry<SchoolCategory>>, sid: nat)
    ensures forall e :: e in categories && LinkedTop(links, sid, e) ==>
              exists n :: n in Tree(categories, links, sid) && n.id == e.id
  {
    var tops := Select(categories, (e: Entry<Category>) => LinkedTop(links, sid, e));
    var r := Tree(categories, links, sid);
    forall e | e in categories && LinkedTop(links, sid, e) ensures exists n :: n in r && n.id == e.id {
      assert e in tops;
      var k :| 0 <= k < |tops| && tops[k] == e;
      assert r[k] in r;
    }
  }

  /** GET /categories for the authenticated user `userId`: NotFound when the
      user, or the school the user targets, does not resolve; otherwise the
      top-level categories linked to that school, each with exactly its
      children linked to the same school (a link to another school does not
      count). A top-level category with no linked child is still listed,
      with no children. */
  function CategoryTree(db: Db, userId: int): (r: Result<seq<Node>>)
    ensures r.Err? ==> r.kind == NotFound
    ensures r.Ok? <==>
      && userId in IdsOf(db.users.rows)
      && var u := Find(db.users.rows, userId).value;
         u.targetSchoolId.Some? && u.targetSchoolId.value in IdsOf(db.schools.rows)
    ensures r.Ok? ==>
      var sid := Find(db.users.rows, userId).value.targetSchoolId.value;
      var links := db.schoolCategories.rows;
      && (forall n :: n in r.value ==>
            && Entry(n.id, n.category) in db.categories.rows && LinkedTop(links, sid, Entry(n.id, n.category))
            && n.children == LinkedChildren(db.categories.rows, links, n.id, sid))
      && (forall e :: e in db.categories.rows && LinkedTop(links, sid, e) ==>
            exists n :: n in r.value && n.id == e.id)
  {
    match Find(db.users.rows, userId)
    case None => Err(NotFound)
    case Some(u) =>
      if u.targetSchoolId.None? || Find(db.schools.rows, u.targetSchoolId.value).None? then Err(NotFound)
      else
        TreeSound(db.categories.rows, db.schoolCategories.rows, u.targetSchoolId.value);
        TreeComplete(db.categories.rows, db.schoolCategories.rows, u.targetSchoolId.value);
        Ok(Tree(db.categories.rows, db.schoolCategories.rows, u.targetSchoolId.value))
  }

  /** A question as this route returns it: `id` and `content` (and the
      creation time, which the model leaves out). */
  datatype Brief = Brief(id: nat, content: string)

  /** `[category.id, ...category.children.map(child => child.id)]`. */
  function CategoryIds(categories: seq<Entry<Category>>, id: nat): (ids: set<nat>)
    ensures forall x :: x in ids <==>
      x == id || exists c :: c in categories && c.val.parentId == Some(id) && c.id == x
  {
    var kids := SubCategories(categories, id);
    var ids := {id} + IdsOf(kids);
    assert forall x :: x in IdsOf(kids) <==>
      exists c :: c in categories && c.val.parentId == Some(id) && c.id == x by {
      forall x | x in IdsOf(kids)
        ensures exists c :: c in categories && c.val.parentId == Some(id) && c.id == x
      {
        var i :| 0 <= i < |kids| && kids[i].id == x;
        assert kids[i] in kids;
      }
      forall x | exists c :: c in categories && c.val.parentId == Some(id) && c.id == x
        ensures x in IdsOf(kids)
      {
        var c :| c in categories && c.val.parentId == Some(id) && c.id == x;
        assert c in kids;
        var i :| 0 <= i < |kids| && kids[i] == c;
      }
    }
    ids
  }

  /** GET /categories/:categoryId/questions: a not-found response when no
      category has that id; otherwise the questions whose category is the
      category itself or one of its direct children. */
  function QuestionsUnder(db: Db, categoryId: int): (r: Result<seq<Brief>>)
    ensures r.Err? ==> r.kind == NotFound
    ensures r.Ok? <==> categoryId in IdsOf(db.categories.rows)
  {
    match Find(db.categories.rows, categoryId)
    case None => Err(NotFound)
    case Some(_) =>
      var ids := CategoryIds(db.categories.rows, categoryId);
      var qs := Select(db.questions.rows,
                       (q: Entry<Content>) => q.val.topicId.Some? && q.val.topicId.value in ids);
      Ok(seq(|qs|, k requires 0 <= k < |qs| => Brief(qs[k].id, qs[k].val.body)))
  }

  /** The questions returned are exactly those filed under the category or
      a direct child of it: one filed under a grandchild that is not also a
      child is not returned. */
  lemma QuestionsUnderSpec(db: Db, categoryId: int)
    ensures var r := QuestionsUnder(db, categoryId);
      r.Ok? ==>
        && (forall b :: b in r.value ==>
              exists q :: q in db.questions.rows && q.id == b.id && q.val.body == b.content
                && q.val.topicId.Some?
                && (q.val.topicId.value == categoryId
                    || exists c :: c in db.categories.rows && c.id == q.val.topicId.value
                                   && c.val.parentId == Some(categoryId)))
        && (forall q :: q in db.questions.rows && q.val.topicId == Some(categoryId) ==>
              Brief(q.id, q.val.body) in r.value)
        && (forall q, c ::
              (q in db.questions.rows && c in db.categories.rows
               && c.val.parentId == Some(categoryId) && q.val.topicId == Some(c.id)) ==>
              Brief(q.id, q.val.body) in r.value)
  {
    var r := QuestionsUnder(db, categoryId);
    if r.Ok? {
      var ids := CategoryIds(db.categories.rows, categoryId);
      var qs := Select(db.questions.rows,
                       (q: Entry<Content>) => q.val.topicId.Some? && q.val.topicId.value in ids);
      forall b | b in r.value
        ensures exists q :: (q in db.questions.rows && q.id == b.id && q.val.body == b.content
                             && q.val.topicId.Some?
                             && (q.val.topicId.value == categoryId
                                 || exists c :: c in db.categories.rows && c.id == q.val.topicId.value
                                                && c.val.parentId == Some(categoryId)))
      {
        var k :| 0 <= k < |r.value| && r.value[k] == b;
        assert qs[k] in qs;
      }
      forall q | q in db.questions.rows && q.val.topicId == Some(categoryId)
        ensures Brief(q.id, q.val.body) in r.value
      {
        assert q in qs;
        var k :| 0 <= k < |qs| && qs[k] == q;
        assert r.value[k] == Brief(q.id, q.val.body);
      }
      forall q, c | q in db.questions.rows && c in db.categories.rows
              && c.val.parentId == Some(categoryId) && q.val.topicId == Some(c.id)
        ensures Brief(q.id, q.val.body) in r.value
      {
        assert c.id in ids;
        assert q in qs;
        var k :| 0 <= k < |qs| && qs[k] == q;
        assert r.value[k] == Brief(q.id, q.val.body);
      }
    }
  }
}
