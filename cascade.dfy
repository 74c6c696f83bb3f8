/** The delete policies the migrations declare, as operations over the
    store: ON DELETE CASCADE removes the referencing rows (and what
    references them in turn), ON DELETE SET NULL clears the reference. */
module Cascade {
  import opened Common
  import opened Tables
  import opened Schema
  import opened Queries

  // ---------------------------------------------------------------------
  // The parent_id forest

  /** The ids of the rows whose parent is in `s`. */
  function Replies(rows: seq<Entry<Content>>, s: set<nat>): set<nat> {
    set i | 0 <= i < |rows| && rows[i].val.parentId.Some? && rows[i].val.parentId.value in s :: rows[i].id
  }

  /** Every reply to a row in `s` is in `s`. */
  ghost predicate ChildClosed(rows: seq<Entry<Content>>, s: set<nat>) {
    forall i :: 0 <= i < |rows| && rows[i].val.parentId.Some? && rows[i].val.parentId.value in s ==> rows[i].id in s
  }

  lemma ProperSubsetSmaller(a: set<nat>, b: set<nat>, x: nat)
    requires a <= b && x in b && x !in a
    ensures |a| < |b|
  {
    assert b == a + (b - a);
    assert x in b - a;
  }

  /** The rows `s` and all their replies, transitively: what ON DELETE
      CASCADE on `parent_id` removes together with `s`. */
  function Subtree(rows: seq<Entry<Content>>, s: set<nat>): (r: set<nat>)
    ensures s <= r && r <= s + IdsOf(rows)
    ensures ChildClosed(rows, r)
    decreases |IdsOf(rows) - s|
  {
    var grown := s + Replies(rows, s);
    if grown <= s then s
    else
      var x :| x in grown && x !in s;
      assert x in IdsOf(rows);
      ProperSubsetSmaller(IdsOf(rows) - grown, IdsOf(rows) - s, x);
      Subtree(rows, grown)
  }

  /** The subtree is the least child-closed set holding `s`: a row is in it
      only if following `parent_id` from it reaches `s`. */
  lemma {:induction false} SubtreeLeast(rows: seq<Entry<Content>>, s: set<nat>, t: set<nat>)
    requires s <= t && ChildClosed(rows, t)
    ensures Subtree(rows, s) <= t
    decreases |IdsOf(rows) - s|
  {
    var grown := s + Replies(rows, s);
    if !(grown <= s) {
      var x :| x in grown && x !in s;
      assert x in IdsOf(rows);
      ProperSubsetSmaller(IdsOf(rows) - grown, IdsOf(rows) - s, x);
      assert Replies(rows, s) <= t;
      SubtreeLeast(rows, grown, t);
    }
  }

  /** The ids of the rows `userId` owns. */
  function OwnedBy(rows: seq<Entry<Content>>, userId: nat): (r: set<nat>)
    ensures forall i :: 0 <= i < |rows| && rows[i].val.userId == userId ==> rows[i].id in r
    ensures r <= IdsOf(rows)
  {
    set i | 0 <= i < |rows| && rows[i].val.userId == userId :: rows[i].id
  }

  // ---------------------------------------------------------------------
  // Table-level statements

  /** DELETE ... WHERE NOT keep. */
  function Where<T(!new)>(t: Table<T>, keep: Entry<T> -> bool): (r: Table<T>)
    ensures r.nextId == t.nextId
    ensures forall e :: e in r.rows <==> e in t.rows && keep(e)
    ensures t.Valid() ==> r.Valid()
  {
    var r := Table(Select(t.rows, keep), t.nextId);
    assert t.Valid() ==> forall i :: 0 <= i < |r.rows| ==> 1 <= r.rows[i].id < r.nextId by {
      if t.Valid() {
        forall i | 0 <= i < |r.rows| ensures 1 <= r.rows[i].id < r.nextId {
          assert r.rows[i] in t.rows;
        }
      }
    }
    r
  }

  /** UPDATE ... SET school_id/category_id = NULL WHERE it is `topic`. */
  function ClearTopic(t: Table<Content>, topic: nat): (r: Table<Content>)
    ensures r.nextId == t.nextId && |r.rows| == |t.rows|
    ensures forall i :: 0 <= i < |t.rows| ==>
      && r.rows[i].id == t.rows[i].id
      && r.rows[i].val == (if t.rows[i].val.topicId == Some(topic) then t.rows[i].val.(topicId := None) else t.rows[i].val)
  {
    Table(seq(|t.rows|, i requires 0 <= i < |t.rows| =>
                if t.rows[i].val.topicId == Some(topic)
                then Entry(t.rows[i].id, t.rows[i].val.(topicId := None)) else t.rows[i]),
          t.nextId)
  }

  /** UPDATE Users SET target_school_id = NULL WHERE it is `school`. */
  function ClearTarget(t: Table<User>, school: nat): (r: Table<User>)
    ensures r.nextId == t.nextId && |r.rows| == |t.rows|
    ensures forall i :: 0 <= i < |t.rows| ==>
      && r.rows[i].id == t.rows[i].id
      && r.rows[i].val == (if t.rows[i].val.targetSchoolId == Some(school) then t.rows[i].val.(targetSchoolId := None) else t.rows[i].val)
  {
    Table(seq(|t.rows|, i requires 0 <= i < |t.rows| =>
                if t.rows[i].val.targetSchoolId == Some(school)
                then Entry(t.rows[i].id, t.rows[i].val.(targetSchoolId := None)) else t.rows[i]),
          t.nextId)
  }

  lemma SameIdsValid<T, U>(t: Table<T>, r: Table<U>)
    requires t.Valid() && r.nextId == t.nextId && |r.rows| == |t.rows|
    requires forall i :: 0 <= i < |t.rows| ==> r.rows[i].id == t.rows[i].id
    ensures r.Valid() && IdsOf(r.rows) == IdsOf(t.rows)
  {
    forall k | k in IdsOf(r.rows) ensures k in IdsOf(t.rows) {
      var i :| 0 <= i < |r.rows| && r.rows[i].id == k;
      assert t.rows[i].id == k;
    }
    forall k | k in IdsOf(t.rows) ensures k in IdsOf(r.rows) {
      var i :| 0 <= i < |t.rows| && t.rows[i].id == k;
      assert r.rows[i].id == k;
    }
  }

  // ---------------------------------------------------------------------
  // The delete statements

  /** No reaction row for a content id in `doomed`. */
  predicate Spared(doomed: set<nat>, e: Entry<Reaction>) { e.val.contentId !in doomed }

  /** DELETE FROM Posts WHERE id IN roots: the replies go with them,
      transitively, and so do the likes and favourites of every post that
      goes. */
  function DeletePosts(db: Db, roots: set<nat>): (r: Db)
    ensures var doomed := Subtree(db.posts.rows, roots);
      && (forall e :: e in r.posts.rows <==> e in db.posts.rows && e.id !in doomed)
      && (forall e :: e in r.postLikes.rows <==> e in db.postLikes.rows && e.val.contentId !in doomed)
      && (forall e :: e in r.postFavorites.rows <==> e in db.postFavorites.rows && e.val.contentId !in doomed)
      && r == db.(posts := r.posts, postLikes := r.postLikes, postFavorites := r.postFavorites)
  {
    var doomed := Subtree(db.posts.rows, roots);
    db.(posts := DeleteIds(db.posts, doomed),
        postLikes := Where(db.postLikes, e => Spared(doomed, e)),
        postFavorites := Where(db.postFavorites, e => Spared(doomed, e)))
  }

  /** DELETE FROM Questions WHERE id IN roots, with the same cascades. */
  function DeleteQuestions(db: Db, roots: set<nat>): (r: Db)
    ensures var doomed := Subtree(db.questions.rows, roots);
      && (forall e :: e in r.questions.rows <==> e in db.questions.rows && e.id !in doomed)
      && (forall e :: e in r.questionLikes.rows <==> e in db.questionLikes.rows && e.val.contentId !in doomed)
      && (forall e :: e in r.questionFavorites.rows <==> e in db.questionFavorites.rows && e.val.contentId !in doomed)
      && r == db.(questions := r.questions, questionLikes := r.questionLikes, questionFavorites := r.questionFavorites)
  {
    var doomed := Subtree(db.questions.rows, roots);
    db.(questions := DeleteIds(db.questions, doomed),
        questionLikes := Where(db.questionLikes, e => Spared(doomed, e)),
        questionFavorites := Where(db.questionFavorites, e => Spared(doomed, e)))
  }

  /** A reaction row not by `userId`. */
  predicate NotBy(userId: nat, e: Entry<Reaction>) { e.val.userId != userId }

  /** DELETE FROM Users WHERE id = userId: their posts and questions go,
      with every reply under them whoever wrote it, and every like and
      favourite they gave or their content received. */
  function DeleteUser(db: Db, userId: nat): (r: Db)
    ensures forall e :: e in r.users.rows <==> e in db.users.rows && e.id != userId
    ensures forall e :: e in r.posts.rows ==> e in db.posts.rows && e.val.userId != userId
    ensures forall e :: e in r.questions.rows ==> e in db.questions.rows && e.val.userId != userId
    ensures forall e :: e in r.postLikes.rows ==> e in db.postLikes.rows && e.val.userId != userId
    ensures forall e :: e in r.questionLikes.rows ==> e in db.questionLikes.rows && e.val.userId != userId
    ensures var doomed := Subtree(db.posts.rows, OwnedBy(db.posts.rows, userId));
      && (forall e :: e in r.posts.rows <==> e in db.posts.rows && e.id !in doomed)
      && (forall e :: e in r.postLikes.rows <==>
            e in db.postLikes.rows && e.val.userId != userId && e.val.contentId !in doomed)
      && (forall e :: e in r.postFavorites.rows <==>
            e in db.postFavorites.rows && e.val.userId != userId && e.val.contentId !in doomed)
    ensures var doomed := Subtree(db.questions.rows, OwnedBy(db.questions.rows, userId));
      && (forall e :: e in r.questions.rows <==> e in db.questions.rows && e.id !in doomed)
      && (forall e :: e in r.questionLikes.rows <==>
            e in db.questionLikes.rows && e.val.userId != userId && e.val.contentId !in doomed)
      && (forall e :: e in r.questionFavorites.rows <==>
            e in db.questionFavorites.rows && e.val.userId != userId && e.val.contentId !in doomed)
    ensures r.users.nextId == db.users.nextId && r.posts.nextId == db.posts.nextId
      && r.questions.nextId == db.questions.nextId
    ensures r.schools == db.schools && r.categories == db.categories && r.schoolCategories == db.schoolCategories
  {
    var d1 := DeletePosts(db, OwnedBy(db.posts.rows, userId));
    var d2 := DeleteQuestions(d1, OwnedBy(db.questions.rows, userId));
    d2.(users := DeleteIds(db.users, {userId}),
        postLikes := Where(d2.postLikes, e => NotBy(userId, e)),
        postFavorites := Where(d2.postFavorites, e => NotBy(userId, e)),
        questionLikes := Where(d2.questionLikes, e => NotBy(userId, e)),
        questionFavorites := Where(d2.questionFavorites, e => NotBy(userId, e)))
  }

  /** A link row not for school `sid`. */
  predicate OtherSchool(sid: nat, e: Entry<SchoolCategory>) { e.val.schoolId != sid }

  /** A link row not for category `cid`. */
  predicate OtherCategory(cid: nat, e: Entry<SchoolCategory>) { e.val.categoryId != cid }

  /** DELETE FROM Schools WHERE id = sid: users targeting it and posts filed
      under it are kept with the reference cleared; its links go. */
  function DeleteSchool(db: Db, sid: nat): (r: Db)
    ensures forall e :: e in r.schools.rows <==> e in db.schools.rows && e.id != sid
    ensures forall e :: e in r.schoolCategories.rows <==> e in db.schoolCategories.rows && e.val.schoolId != sid
    ensures |r.posts.rows| == |db.posts.rows|
    ensures forall i :: 0 <= i < |r.posts.rows| ==>
      r.posts.rows[i].val.topicId != Some(sid) && r.posts.rows[i].id == db.posts.rows[i].id
    ensures r.users.nextId == db.users.nextId && |r.users.rows| == |db.users.rows|
    ensures forall i :: 0 <= i < |db.users.rows| ==>
      && r.users.rows[i].id == db.users.rows[i].id
      && r.users.rows[i].val == (if db.users.rows[i].val.targetSchoolId == Some(sid)
                                 then db.users.rows[i].val.(targetSchoolId := None) else db.users.rows[i].val)
    ensures r.posts.nextId == db.posts.nextId
    ensures forall i :: 0 <= i < |db.posts.rows| ==>
      r.posts.rows[i].val == (if db.posts.rows[i].val.topicId == Some(sid)
                              then db.posts.rows[i].val.(topicId := None) else db.posts.rows[i].val)
    ensures r == db.(users := r.users, posts := r.posts, schools := r.schools, schoolCategories := r.schoolCategories)
  {
    db.(users := ClearTarget(db.users, sid),
        posts := ClearTopic(db.posts, sid),
        schools := DeleteIds(db.schools, {sid}),
        schoolCategories := Where(db.schoolCategories, e => OtherSchool(sid, e)))
  }

  /** DELETE FROM Categories WHERE id = cid: questions filed under it are
      kept with `category_id` cleared; its links go. Sub-categories keep
      their `parent_id`. */
  function DeleteCategory(db: Db, cid: nat): (r: Db)
    ensures forall e :: e in r.categories.rows <==> e in db.categories.rows && e.id != cid
    ensures forall e :: e in r.schoolCategories.rows <==> e in db.schoolCategories.rows && e.val.categoryId != cid
    ensures |r.questions.rows| == |db.questions.rows|
    ensures forall i :: 0 <= i < |r.questions.rows| ==>
      r.questions.rows[i].val.topicId != Some(cid) && r.questions.rows[i].id == db.questions.rows[i].id
    ensures r.questions.nextId == db.questions.nextId
    ensures forall i :: 0 <= i < |db.questions.rows| ==>
      r.questions.rows[i].val == (if db.questions.rows[i].val.topicId == Some(cid)
                                  then db.questions.rows[i].val.(topicId := None) else db.questions.rows[i].val)
    ensures r == db.(questions := r.questions, categories := r.categories, schoolCategories := r.schoolCategories)
  {
    db.(questions := ClearTopic(db.questions, cid),
        categories := DeleteIds(db.categories, {cid}),
        schoolCategories := Where(db.schoolCategories, e => OtherCategory(cid, e)))
  }

  // ---------------------------------------------------------------------
  // The store stays consistent

  /** Deleting rows by a filter keeps a join table's pairs unique. */
  lemma WhereKeepsUnique(t: Table<Reaction>, keep: Entry<Reaction> -> bool)
    requires t.Valid() && UniquePairs(t.rows)
    ensures UniquePairs(Where(t, keep).rows)
  {
    var r := Where(t, keep);
    forall a, b | 0 <= a < b < |r.rows| ensures r.rows[a].val != r.rows[b].val {
      assert r.rows[a] in t.rows && r.rows[b] in t.rows;
      var x := MemberIndex(t.rows, r.rows[a]);
      var y := MemberIndex(t.rows, r.rows[b]);
      assert r.rows[a].id < r.rows[b].id;
      assert x != y;
    }
  }

  /** Deleting rows by a filter keeps a link table's pairs unique. */
  lemma WhereKeepsUniqueLinks(t: Table<SchoolCategory>, keep: Entry<SchoolCategory> -> bool)
    requires t.Valid() && UniqueLinks(t.rows)
    ensures UniqueLinks(Where(t, keep).rows)
  {
    var r := Where(t, keep);
    forall a, b | 0 <= a < b < |r.rows| ensures !SameLink(r.rows[a].val, r.rows[b].val) {
      assert r.rows[a] in t.rows && r.rows[b] in t.rows;
      var x := MemberIndex(t.rows, r.rows[a]);
      var y := MemberIndex(t.rows, r.rows[b]);
      assert r.rows[a].id < r.rows[b].id;
      assert x != y;
    }
  }

  /** What is left of a content table after a child-closed set of its rows
      goes keeps its references: no surviving row's parent went. */
  lemma SurvivorsKeepRefs(t: Table<Content>, doomed: set<nat>, users: set<nat>, users2: set<nat>, topics: set<nat>)
    requires t.Valid() && ContentRefs(t.rows, users, topics) && ChildClosed(t.rows, doomed)
    requires forall i :: 0 <= i < |t.rows| && t.rows[i].id !in doomed ==> t.rows[i].val.userId in users2
    ensures ContentRefs(DeleteIds(t, doomed).rows, users2, topics)
  {
    var r := DeleteIds(t, doomed);
    forall i | 0 <= i < |r.rows| ensures ContentRowOk(r.rows[i].val, users2, topics, IdsOf(r.rows)) {
      var j := MemberIndex(t.rows, r.rows[i]);
      assert ContentRowOk(t.rows[j].val, users, topics, IdsOf(t.rows));
    }
  }

  /** The join rows left after a delete reference surviving rows only. */
  lemma SurvivingReactions(old_: seq<Entry<Reaction>>, new_: seq<Entry<Reaction>>,
                           contents: set<nat>, contents2: set<nat>, users: set<nat>, users2: set<nat>)
    requires ReactionRefs(old_, contents, users)
    requires forall e :: e in new_ ==> e in old_
    requires forall e :: e in new_ ==> (e.val.contentId in contents ==> e.val.contentId in contents2)
    requires forall e :: e in new_ ==> (e.val.userId in users ==> e.val.userId in users2)
    ensures ReactionRefs(new_, contents2, users2)
  {
    forall i | 0 <= i < |new_| ensures ReactionRowOk(new_[i].val, contents2, users2) {
      var j := MemberIndex(old_, new_[i]);
      assert ReactionRowOk(old_[j].val, contents, users);
    }
  }

  lemma DeletePostsKeepsIntegrity(db: Db, roots: set<nat>)
    requires Integrity(db)
    ensures Integrity(DeletePosts(db, roots))
  {
    var r := DeletePosts(db, roots);
    var doomed := Subtree(db.posts.rows, roots);
    var users := IdsOf(db.users.rows);
    SurvivorsKeepRefs(db.posts, doomed, users, users, IdsOf(db.schools.rows));
    SurvivingReactions(db.postLikes.rows, r.postLikes.rows, IdsOf(db.posts.rows), IdsOf(r.posts.rows), users, users);
    SurvivingReactions(db.postFavorites.rows, r.postFavorites.rows, IdsOf(db.posts.rows), IdsOf(r.posts.rows), users, users);
    WhereKeepsUnique(db.postLikes, e => Spared(doomed, e));
    WhereKeepsUnique(db.postFavorites, e => Spared(doomed, e));
  }

  lemma DeleteQuestionsKeepsIntegrity(db: Db, roots: set<nat>)
    requires Integrity(db)
    ensures Integrity(DeleteQuestions(db, roots))
  {
    var r := DeleteQuestions(db, roots);
    var doomed := Subtree(db.questions.rows, roots);
    var users := IdsOf(db.users.rows);
    SurvivorsKeepRefs(db.questions, doomed, users, users, IdsOf(db.categories.rows));
    SurvivingReactions(db.questionLikes.rows, r.questionLikes.rows, IdsOf(db.questions.rows), IdsOf(r.questions.rows), users, users);
    SurvivingReactions(db.questionFavorites.rows, r.questionFavorites.rows, IdsOf(db.questions.rows), IdsOf(r.questions.rows), users, users);
    WhereKeepsUnique(db.questionLikes, e => Spared(doomed, e));
    WhereKeepsUnique(db.questionFavorites, e => Spared(doomed, e));
  }

  /** Content rows none of which belongs to `userId` keep their references
      once that user goes. */
  lemma RefsWithoutUser(rows: seq<Entry<Content>>, users: set<nat>, userId: nat, topics: set<nat>)
    requires ContentRefs(rows, users, topics)
    requires forall e :: e in rows ==> e.val.userId != userId
    ensures ContentRefs(rows, users - {userId}, topics)
  {
    forall i | 0 <= i < |rows| ensures ContentRowOk(rows[i].val, users - {userId}, topics, IdsOf(rows)) {
      assert rows[i] in rows;
    }
  }

  lemma RemoveKeepsEmailsUnique(t: Table<User>, doomed: set<nat>)
    requires t.Valid() && UniqueEmails(t.rows)
    ensures UniqueEmails(DeleteIds(t, doomed).rows)
  {
    var r := DeleteIds(t, doomed);
    forall a, b | 0 <= a < b < |r.rows| ensures r.rows[a].val.email != r.rows[b].val.email {
      var x := MemberIndex(t.rows, r.rows[a]);
      var y := MemberIndex(t.rows, r.rows[b]);
      assert r.rows[a].id < r.rows[b].id;
      assert x != y;
    }
  }

  /** A join table filtered to rows not by `userId` keeps its constraints
      once that user goes. */
  lemma WithoutUserReactions(t: Table<Reaction>, keep: Entry<Reaction> -> bool,
                             contents: set<nat>, users: set<nat>, userId: nat)
    requires t.Valid() && UniquePairs(t.rows) && ReactionRefs(t.rows, contents, users)
    requires forall e :: keep(e) ==> e.val.userId != userId
    ensures var r := Where(t, keep);
      r.Valid() && UniquePairs(r.rows) && ReactionRefs(r.rows, contents, users - {userId})
  {
    WhereKeepsUnique(t, keep);
    SurvivingReactions(t.rows, Where(t, keep).rows, contents, contents, users, users - {userId});
  }

  lemma DeleteUserKeepsIntegrity(db: Db, userId: nat)
    requires Integrity(db)
    ensures Integrity(DeleteUser(db, userId))
  {
    var d1 := DeletePosts(db, OwnedBy(db.posts.rows, userId));
    DeletePostsKeepsIntegrity(db, OwnedBy(db.posts.rows, userId));
    var d2 := DeleteQuestions(d1, OwnedBy(db.questions.rows, userId));
    DeleteQuestionsKeepsIntegrity(d1, OwnedBy(db.questions.rows, userId));
    var r := DeleteUser(db, userId);
    var users := IdsOf(d2.users.rows);
    assert IdsOf(r.users.rows) == users - {userId};
    RefsWithoutUser(r.posts.rows, users, userId, IdsOf(r.schools.rows));
    RefsWithoutUser(r.questions.rows, users, userId, IdsOf(r.categories.rows));
    RemoveKeepsEmailsUnique(db.users, {userId});
    assert UserRefs(r.users.rows, IdsOf(r.schools.rows)) by {
      forall i | 0 <= i < |r.users.rows| ensures UserRowOk(r.users.rows[i].val, IdsOf(r.schools.rows)) {
        var j := MemberIndex(db.users.rows, r.users.rows[i]);
      }
    }
    WithoutUserReactions(d2.postLikes, e => NotBy(userId, e), IdsOf(d2.posts.rows), users, userId);
    WithoutUserReactions(d2.postFavorites, e => NotBy(userId, e), IdsOf(d2.posts.rows), users, userId);
    WithoutUserReactions(d2.questionLikes, e => NotBy(userId, e), IdsOf(d2.questions.rows), users, userId);
    WithoutUserReactions(d2.questionFavorites, e => NotBy(userId, e), IdsOf(d2.questions.rows), users, userId);
  }

  /** Clearing a topic reference keeps a content table's constraints, with
      that topic gone. */
  lemma ClearTopicKeepsRefs(t: Table<Content>, topic: nat, users: set<nat>, topics: set<nat>)
    requires t.Valid() && ContentRefs(t.rows, users, topics)
    ensures var r := ClearTopic(t, topic);
      r.Valid() && IdsOf(r.rows) == IdsOf(t.rows) && ContentRefs(r.rows, users, topics - {topic})
  {
    var r := ClearTopic(t, topic);
    SameIdsValid(t, r);
    forall i | 0 <= i < |r.rows| ensures ContentRowOk(r.rows[i].val, users, topics - {topic}, IdsOf(r.rows)) {
      assert ContentRowOk(t.rows[i].val, users, topics, IdsOf(t.rows));
    }
  }

  /** A link table filtered to rows whose category and school both survive
      keeps its constraints. */
  lemma SurvivingLinks(t: Table<SchoolCategory>, keep: Entry<SchoolCategory> -> bool,
                       categories: set<nat>, categories2: set<nat>, schools: set<nat>, schools2: set<nat>)
    requires t.Valid() && UniqueLinks(t.rows) && LinkRefs(t.rows, categories, schools)
    requires forall e :: keep(e) && e.val.categoryId in categories ==> e.val.categoryId in categories2
    requires forall e :: keep(e) && e.val.schoolId in schools ==> e.val.schoolId in schools2
    ensures var r := Where(t, keep);
      r.Valid() && UniqueLinks(r.rows) && LinkRefs(r.rows, categories2, schools2)
  {
    var r := Where(t, keep);
    WhereKeepsUniqueLinks(t, keep);
    forall i | 0 <= i < |r.rows| ensures LinkRowOk(r.rows[i].val, categories2, schools2) {
      var j := MemberIndex(t.rows, r.rows[i]);
      assert LinkRowOk(t.rows[j].val, categories, schools);
    }
  }

  lemma DeleteSchoolKeepsIntegrity(db: Db, sid: nat)
    requires Integrity(db)
    ensures Integrity(DeleteSchool(db, sid))
  {
    var r := DeleteSchool(db, sid);
    var schools := IdsOf(db.schools.rows);
    assert IdsOf(r.schools.rows) == schools - {sid};
    SameIdsValid(db.users, r.users);
    assert UserRefs(r.users.rows, schools - {sid}) by {
      forall i | 0 <= i < |r.users.rows| ensures UserRowOk(r.users.rows[i].val, schools - {sid}) {
        assert UserRowOk(db.users.rows[i].val, schools);
      }
    }
    assert UniqueEmails(r.users.rows) by {
      forall a, b | 0 <= a < b < |r.users.rows| ensures r.users.rows[a].val.email != r.users.rows[b].val.email {
        assert db.users.rows[a].val.email != db.users.rows[b].val.email;
      }
    }
    ClearTopicKeepsRefs(db.posts, sid, IdsOf(db.users.rows), schools);
    SurvivingLinks(db.schoolCategories, e => OtherSchool(sid, e),
                   IdsOf(db.categories.rows), IdsOf(db.categories.rows), schools, schools - {sid});
  }

  lemma DeleteCategoryKeepsIntegrity(db: Db, cid: nat)
    requires Integrity(db)
    ensures Integrity(DeleteCategory(db, cid))
  {
    var r := DeleteCategory(db, cid);
    var categories := IdsOf(db.categories.rows);
    assert IdsOf(r.categories.rows) == categories - {cid};
    ClearTopicKeepsRefs(db.questions, cid, IdsOf(db.users.rows), categories);
    SurvivingLinks(db.schoolCategories, e => OtherCategory(cid, e),
                   categories, categories - {cid}, IdsOf(db.schools.rows), IdsOf(db.schools.rows));
  }
}
