/** Single-row writes (INSERT and UPDATE of one row) and the conditions
    under which each keeps every declared constraint of the store. The
    routes only write a row that Records has accepted, and Records' own
    contracts supply these conditions. */
module Writes {
  import opened Common
  import opened Tables
  import opened Schema

  /** The four join tables share one shape and one set of routes. */
  datatype JoinTable = PostLikes | PostFavorites | QuestionLikes | QuestionFavorites

  function JoinOf(db: Db, j: JoinTable): Table<Reaction> {
    match j
    case PostLikes => db.postLikes
    case PostFavorites => db.postFavorites
    case QuestionLikes => db.questionLikes
    case QuestionFavorites => db.questionFavorites
  }

  /** The store with join table `j` replaced and every other table kept. */
  function WithJoin(db: Db, j: JoinTable, t: Table<Reaction>): (r: Db)
    ensures JoinOf(r, j) == t
    ensures forall k :: k != j ==> JoinOf(r, k) == JoinOf(db, k)
    ensures r.users == db.users && r.posts == db.posts && r.questions == db.questions
    ensures r.schools == db.schools && r.categories == db.categories && r.schoolCategories == db.schoolCategories
  {
    match j
    case PostLikes => db.(postLikes := t)
    case PostFavorites => db.(postFavorites := t)
    case QuestionLikes => db.(questionLikes := t)
    case QuestionFavorites => db.(questionFavorites := t)
  }

  /** The content table a join table refers to. */
  function ContentsOf(db: Db, j: JoinTable): Table<Content> {
    if j == PostLikes || j == PostFavorites then db.posts else db.questions
  }

  /** The name of a join table's content column. */
  function ContentField(j: JoinTable): string {
    if j == PostLikes || j == PostFavorites then "post_id" else "question_id"
  }

  // ---------------------------------------------------------------------
  // Row references survive a larger set of targets

  lemma ReactionRefsGrow(rows: seq<Entry<Reaction>>, contents: set<nat>, contents2: set<nat>, users: set<nat>, users2: set<nat>)
    requires ReactionRefs(rows, contents, users) && contents <= contents2 && users <= users2
    ensures ReactionRefs(rows, contents2, users2)
  {
  }

  lemma ContentRefsGrow(rows: seq<Entry<Content>>, users: set<nat>, users2: set<nat>, topics: set<nat>, topics2: set<nat>)
    requires ContentRefs(rows, users, topics) && users <= users2 && topics <= topics2
    ensures ContentRefs(rows, users2, topics2)
  {
  }

  lemma LinkRefsGrow(rows: seq<Entry<SchoolCategory>>, categories: set<nat>, categories2: set<nat>, schools: set<nat>, schools2: set<nat>)
    requires LinkRefs(rows, categories, schools) && categories <= categories2 && schools <= schools2
    ensures LinkRefs(rows, categories2, schools2)
  {
  }

  lemma UserRefsGrow(rows: seq<Entry<User>>, schools: set<nat>, schools2: set<nat>)
    requires UserRefs(rows, schools) && schools <= schools2
    ensures UserRefs(rows, schools2)
  {
  }

  // ---------------------------------------------------------------------
  // Content rows

  /** Appending a row whose references hold keeps every row's references. */
  lemma ContentRefsInsert(t: Table<Content>, v: Content, users: set<nat>, topics: set<nat>)
    requires t.Valid() && ContentRefs(t.rows, users, topics) && ContentRowOk(v, users, topics, IdsOf(t.rows))
    ensures ContentRefs(Insert(t, v).rows, users, topics)
  {
    var r := Insert(t, v);
    forall i | 0 <= i < |r.rows| ensures ContentRowOk(r.rows[i].val, users, topics, IdsOf(r.rows)) {
      if i < |t.rows| {
        assert r.rows[i] == t.rows[i];
        assert ContentRowOk(t.rows[i].val, users, topics, IdsOf(t.rows));
      }
    }
  }

  /** Replacing one row by a row whose references hold keeps every row's
      references; ids do not change. */
  lemma ContentRefsUpdate(t: Table<Content>, id: int, v: Content, users: set<nat>, topics: set<nat>)
    requires ContentRefs(t.rows, users, topics) && ContentRowOk(v, users, topics, IdsOf(t.rows))
    ensures ContentRefs(Update(t, id, v).rows, users, topics)
  {
    var r := Update(t, id, v);
    forall i | 0 <= i < |r.rows| ensures ContentRowOk(r.rows[i].val, users, topics, IdsOf(r.rows)) {
      assert ContentRowOk(t.rows[i].val, users, topics, IdsOf(t.rows));
    }
  }

  lemma {:induction false} InsertPostKeepsIntegrity(db: Db, v: Content)
    requires Integrity(db)
    requires ContentRowOk(v, IdsOf(db.users.rows), IdsOf(db.schools.rows), IdsOf(db.posts.rows))
    ensures Integrity(db.(posts := Insert(db.posts, v)))
  {
    var r := db.(posts := Insert(db.posts, v));
    ContentRefsInsert(db.posts, v, IdsOf(db.users.rows), IdsOf(db.schools.rows));
    var posts2 := IdsOf(r.posts.rows);
    ReactionRefsGrow(db.postLikes.rows, IdsOf(db.posts.rows), posts2, IdsOf(db.users.rows), IdsOf(db.users.rows));
    ReactionRefsGrow(db.postFavorites.rows, IdsOf(db.posts.rows), posts2, IdsOf(db.users.rows), IdsOf(db.users.rows));
  }

  lemma {:induction false} UpdatePostKeepsIntegrity(db: Db, id: int, v: Content)
    requires Integrity(db)
    requires ContentRowOk(v, IdsOf(db.users.rows), IdsOf(db.schools.rows), IdsOf(db.posts.rows))
    ensures Integrity(db.(posts := Update(db.posts, id, v)))
  {
    ContentRefsUpdate(db.posts, id, v, IdsOf(db.users.rows), IdsOf(db.schools.rows));
  }

  lemma {:induction false} InsertQuestionKeepsIntegrity(db: Db, v: Content)
    requires Integrity(db)
    requires ContentRowOk(v, IdsOf(db.users.rows), IdsOf(db.categories.rows), IdsOf(db.questions.rows))
    ensures Integrity(db.(questions := Insert(db.questions, v)))
  {
    var r := db.(questions := Insert(db.questions, v));
    ContentRefsInsert(db.questions, v, IdsOf(db.users.rows), IdsOf(db.categories.rows));
    var questions2 := IdsOf(r.questions.rows);
    ReactionRefsGrow(db.questionLikes.rows, IdsOf(db.questions.rows), questions2, IdsOf(db.users.rows), IdsOf(db.users.rows));
    ReactionRefsGrow(db.questionFavorites.rows, IdsOf(db.questions.rows), questions2, IdsOf(db.users.rows), IdsOf(db.users.rows));
  }

  lemma {:induction false} UpdateQuestionKeepsIntegrity(db: Db, id: int, v: Content)
    requires Integrity(db)
    requires ContentRowOk(v, IdsOf(db.users.rows), IdsOf(db.categories.rows), IdsOf(db.questions.rows))
    ensures Integrity(db.(questions := Update(db.questions, id, v)))
  {
    ContentRefsUpdate(db.questions, id, v, IdsOf(db.users.rows), IdsOf(db.categories.rows));
  }

  // ---------------------------------------------------------------------
  // Users, schools, categories

  lemma {:induction false} InsertUserKeepsIntegrity(db: Db, v: User)
    requires Integrity(db)
    requires UserRowOk(v, IdsOf(db.schools.rows))
    requires forall i :: 0 <= i < |db.users.rows| ==> db.users.rows[i].val.email != v.email
    ensures Integrity(db.(users := Insert(db.users, v)))
  {
    var r := db.(users := Insert(db.users, v));
    var users2 := IdsOf(r.users.rows);
    assert UserRefs(r.users.rows, IdsOf(db.schools.rows)) by {
      forall i | 0 <= i < |r.users.rows| ensures UserRowOk(r.users.rows[i].val, IdsOf(db.schools.rows)) {
        if i < |db.users.rows| { assert r.users.rows[i] == db.users.rows[i]; }
      }
    }
    ContentRefsGrow(db.posts.rows, IdsOf(db.users.rows), users2, IdsOf(db.schools.rows), IdsOf(db.schools.rows));
    ContentRefsGrow(db.questions.rows, IdsOf(db.users.rows), users2, IdsOf(db.categories.rows), IdsOf(db.categories.rows));
    ReactionRefsGrow(db.postLikes.rows, IdsOf(db.posts.rows), IdsOf(db.posts.rows), IdsOf(db.users.rows), users2);
    ReactionRefsGrow(db.postFavorites.rows, IdsOf(db.posts.rows), IdsOf(db.posts.rows), IdsOf(db.users.rows), users2);
    ReactionRefsGrow(db.questionLikes.rows, IdsOf(db.questions.rows), IdsOf(db.questions.rows), IdsOf(db.users.rows), users2);
    ReactionRefsGrow(db.questionFavorites.rows, IdsOf(db.questions.rows), IdsOf(db.questions.rows), IdsOf(db.users.rows), users2);
  }

  lemma {:induction false} UpdateUserKeepsIntegrity(db: Db, id: int, v: User)
    requires Integrity(db)
    requires UserRowOk(v, IdsOf(db.schools.rows))
    requires forall i :: 0 <= i < |db.users.rows| && db.users.rows[i].id != id ==> db.users.rows[i].val.email != v.email
    ensures Integrity(db.(users := Update(db.users, id, v)))
  {
    var r := db.(users := Update(db.users, id, v));
    assert UserRefs(r.users.rows, IdsOf(db.schools.rows)) by {
      forall i | 0 <= i < |r.users.rows| ensures UserRowOk(r.users.rows[i].val, IdsOf(db.schools.rows)) {
        assert UserRowOk(db.users.rows[i].val, IdsOf(db.schools.rows));
      }
    }
    assert UniqueEmails(r.users.rows) by {
      forall a, b | 0 <= a < b < |r.users.rows| ensures r.users.rows[a].val.email != r.users.rows[b].val.email {
        assert db.users.rows[a].val.email != db.users.rows[b].val.email;
        assert db.users.rows[a].id < db.users.rows[b].id;
      }
    }
  }

  lemma {:induction false} InsertSchoolKeepsIntegrity(db: Db, v: School)
    requires Integrity(db)
    ensures Integrity(db.(schools := Insert(db.schools, v)))
  {
    var schools2 := IdsOf(Insert(db.schools, v).rows);
    UserRefsGrow(db.users.rows, IdsOf(db.schools.rows), schools2);
    ContentRefsGrow(db.posts.rows, IdsOf(db.users.rows), IdsOf(db.users.rows), IdsOf(db.schools.rows), schools2);
    LinkRefsGrow(db.schoolCategories.rows, IdsOf(db.categories.rows), IdsOf(db.categories.rows), IdsOf(db.schools.rows), schools2);
  }

  lemma {:induction false} UpdateSchoolKeepsIntegrity(db: Db, id: int, v: School)
    requires Integrity(db)
    ensures Integrity(db.(schools := Update(db.schools, id, v)))
  {
  }

  lemma {:induction false} InsertCategoryKeepsIntegrity(db: Db, v: Category)
    requires Integrity(db)
    ensures Integrity(db.(categories := Insert(db.categories, v)))
  {
    var categories2 := IdsOf(Insert(db.categories, v).rows);
    ContentRefsGrow(db.questions.rows, IdsOf(db.users.rows), IdsOf(db.users.rows), IdsOf(db.categories.rows), categories2);
    LinkRefsGrow(db.schoolCategories.rows, IdsOf(db.categories.rows), categories2, IdsOf(db.schools.rows), IdsOf(db.schools.rows));
  }

  lemma {:induction false} UpdateCategoryKeepsIntegrity(db: Db, id: int, v: Category)
    requires Integrity(db)
    ensures Integrity(db.(categories := Update(db.categories, id, v)))
  {
  }

  // ---------------------------------------------------------------------
  // Join rows

  lemma {:induction false} InsertJoinKeepsIntegrity(db: Db, j: JoinTable, v: Reaction)
    requires Integrity(db)
    requires ReactionRowOk(v, IdsOf(ContentsOf(db, j).rows), IdsOf(db.users.rows))
    requires v !in Pairs(JoinOf(db, j).rows)
    ensures Integrity(WithJoin(db, j, Insert(JoinOf(db, j), v)))
  {
    var t := JoinOf(db, j);
    var r := Insert(t, v);
    assert ReactionRefs(r.rows, IdsOf(ContentsOf(db, j).rows), IdsOf(db.users.rows)) by {
      forall i | 0 <= i < |r.rows| ensures ReactionRowOk(r.rows[i].val, IdsOf(ContentsOf(db, j).rows), IdsOf(db.users.rows)) {
        if i < |t.rows| { assert r.rows[i] == t.rows[i]; }
      }
    }
    assert UniquePairs(r.rows) by {
      forall a, b | 0 <= a < b < |r.rows| ensures r.rows[a].val != r.rows[b].val {
        if b == |t.rows| {
          assert r.rows[a].val in Pairs(t.rows);
        } else {
          assert r.rows[a] == t.rows[a] && r.rows[b] == t.rows[b];
        }
      }
    }
  }

  lemma {:induction false} UpdateJoinKeepsIntegrity(db: Db, j: JoinTable, id: int, v: Reaction)
    requires Integrity(db)
    requires ReactionRowOk(v, IdsOf(ContentsOf(db, j).rows), IdsOf(db.users.rows))
    requires forall i :: 0 <= i < |JoinOf(db, j).rows| && JoinOf(db, j).rows[i].id != id ==> JoinOf(db, j).rows[i].val != v
    ensures Integrity(WithJoin(db, j, Update(JoinOf(db, j), id, v)))
  {
    var t := JoinOf(db, j);
    var r := Update(t, id, v);
    assert ReactionRefs(r.rows, IdsOf(ContentsOf(db, j).rows), IdsOf(db.users.rows)) by {
      forall i | 0 <= i < |r.rows| ensures ReactionRowOk(r.rows[i].val, IdsOf(ContentsOf(db, j).rows), IdsOf(db.users.rows)) {
        assert ReactionRowOk(t.rows[i].val, IdsOf(ContentsOf(db, j).rows), IdsOf(db.users.rows));
      }
    }
    assert UniquePairs(r.rows) by {
      forall a, b | 0 <= a < b < |r.rows| ensures r.rows[a].val != r.rows[b].val {
        assert t.rows[a].val != t.rows[b].val;
        assert t.rows[a].id < t.rows[b].id;
      }
    }
  }

  lemma {:induction false} InsertLinkKeepsIntegrity(db: Db, v: SchoolCategory)
    requires Integrity(db)
    requires LinkRowOk(v, IdsOf(db.categories.rows), IdsOf(db.schools.rows))
    requires forall i :: 0 <= i < |db.schoolCategories.rows| ==> !SameLink(db.schoolCategories.rows[i].val, v)
    ensures Integrity(db.(schoolCategories := Insert(db.schoolCategories, v)))
  {
    var t := db.schoolCategories;
    var r := Insert(t, v);
    assert LinkRefs(r.rows, IdsOf(db.categories.rows), IdsOf(db.schools.rows)) by {
      forall i | 0 <= i < |r.rows| ensures LinkRowOk(r.rows[i].val, IdsOf(db.categories.rows), IdsOf(db.schools.rows)) {
        if i < |t.rows| { assert r.rows[i] == t.rows[i]; }
      }
    }
    assert UniqueLinks(r.rows) by {
      forall a, b | 0 <= a < b < |r.rows| ensures !SameLink(r.rows[a].val, r.rows[b].val) {
        assert r.rows[a] == t.rows[a];
        if b < |t.rows| { assert r.rows[b] == t.rows[b]; }
      }
    }
  }

  lemma {:induction false} UpdateLinkKeepsIntegrity(db: Db, id: int, v: SchoolCategory)
    requires Integrity(db)
    requires LinkRowOk(v, IdsOf(db.categories.rows), IdsOf(db.schools.rows))
    requires forall i :: 0 <= i < |db.schoolCategories.rows| && db.schoolCategories.rows[i].id != id ==>
               !SameLink(db.schoolCategories.rows[i].val, v)
    ensures Integrity(db.(schoolCategories := Update(db.schoolCategories, id, v)))
  {
    var t := db.schoolCategories;
    var r := Update(t, id, v);
    assert LinkRefs(r.rows, IdsOf(db.categories.rows), IdsOf(db.schools.rows)) by {
      forall i | 0 <= i < |r.rows| ensures LinkRowOk(r.rows[i].val, IdsOf(db.categories.rows), IdsOf(db.schools.rows)) {
        assert LinkRowOk(t.rows[i].val, IdsOf(db.categories.rows), IdsOf(db.schools.rows));
      }
    }
    assert UniqueLinks(r.rows) by {
      forall a, b | 0 <= a < b < |r.rows| ensures !SameLink(r.rows[a].val, r.rows[b].val) {
        assert !SameLink(t.rows[a].val, t.rows[b].val);
        assert t.rows[a].id < t.rows[b].id;
      }
    }
  }

  // ---------------------------------------------------------------------
  // Single-row deletes

  lemma {:induction false} DeleteJoinKeepsIntegrity(db: Db, j: JoinTable, id: nat)
    requires Integrity(db)
    ensures Integrity(WithJoin(db, j, DeleteIds(JoinOf(db, j), {id})))
  {
    var t := JoinOf(db, j);
    var r := DeleteIds(t, {id});
    var contents := IdsOf(ContentsOf(db, j).rows);
    assert ReactionRefs(r.rows, contents, IdsOf(db.users.rows)) by {
      forall i | 0 <= i < |r.rows| ensures ReactionRowOk(r.rows[i].val, contents, IdsOf(db.users.rows)) {
        var k := MemberIndex(t.rows, r.rows[i]);
        assert ReactionRowOk(t.rows[k].val, contents, IdsOf(db.users.rows));
      }
    }
    assert UniquePairs(r.rows) by {
      forall a, b | 0 <= a < b < |r.rows| ensures r.rows[a].val != r.rows[b].val {
        var x := MemberIndex(t.rows, r.rows[a]);
        var y := MemberIndex(t.rows, r.rows[b]);
        assert r.rows[a].id < r.rows[b].id;
        assert x != y;
      }
    }
  }

  lemma {:induction false} DeleteLinkKeepsIntegrity(db: Db, id: nat)
    requires Integrity(db)
    ensures Integrity(db.(schoolCategories := DeleteIds(db.schoolCategories, {id})))
  {
    var t := db.schoolCategories;
    var r := DeleteIds(t, {id});
    assert LinkRefs(r.rows, IdsOf(db.categories.rows), IdsOf(db.schools.rows)) by {
      forall i | 0 <= i < |r.rows| ensures LinkRowOk(r.rows[i].val, IdsOf(db.categories.rows), IdsOf(db.schools.rows)) {
        var k := MemberIndex(t.rows, r.rows[i]);
        assert LinkRowOk(t.rows[k].val, IdsOf(db.categories.rows), IdsOf(db.schools.rows));
      }
    }
    assert UniqueLinks(r.rows) by {
      forall a, b | 0 <= a < b < |r.rows| ensures !SameLink(r.rows[a].val, r.rows[b].val) {
        var x := MemberIndex(t.rows, r.rows[a]);
        var y := MemberIndex(t.rows, r.rows[b]);
        assert r.rows[a].id < r.rows[b].id;
        assert x != y;
      }
    }
  }
}
