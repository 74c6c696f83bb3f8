/** The admin routes over the join tables: routes/admin/postlikes.js,
    postfavorites.js, questionlikes.js and questionfavorites.js, which are
    the same router over four tables, and routes/admin/schoolcategories.js. */
module AdminJoins {
  import opened Common
  import opened Tables
  import opened Schema
  import Records
  import opened Writes
  import opened Storage
  import opened AdminCommon

  /** What `findOrCreate` returns: the row it created, or the row it found. */
  datatype Upserted<T> = Created(row: Entry<T>) | Found(row: Entry<T>)

  // ---------------------------------------------------------------------
  // Likes and favourites

  /** `findOne({ where: { content_id, user_id } })`: a negative id matches
      no row. */
  function Matching(rows: seq<Entry<Reaction>>, contentId: int, userId: int): (r: Option<Entry<Reaction>>)
    ensures r.Some? ==> r.value in rows && r.value.val.contentId as int == contentId && r.value.val.userId as int == userId
    ensures r.None? ==> forall i :: 0 <= i < |rows| ==>
                          !(rows[i].val.contentId as int == contentId && rows[i].val.userId as int == userId)
  {
    if contentId < 0 || userId < 0 then None
    else FindPair(rows, Reaction(contentId as nat, userId as nat))
  }

  /** POST /admin/<join table>: `findOrCreate` on the pair, then an update
      of a found row with the same two ids, which changes nothing. A
      missing id in the WHERE clause is a plain error, so a 500. The like
      and favourite counters of the content are not touched. */
  method Upsert(s: Store, j: JoinTable, a: Records.ReactionAttrs) returns (r: Result<Upserted<Reaction>>)
    requires s.Valid()
    modifies s
    ensures s.Valid()
    ensures s.posts == old(s.posts) && s.questions == old(s.questions)
    ensures a.contentId.None? || a.userId.None? ==> r == Err(Unexpected) && s.State() == old(s.State())
    ensures a.contentId.Some? && a.userId.Some? ==>
      var db := old(s.State());
      var t := JoinOf(db, j);
      var hit := Matching(t.rows, a.contentId.value, a.userId.value);
      && (hit.Some? ==> r == Ok(Found(hit.value)) && s.State() == db)
      && (hit.None? ==>
            var saved := Records.CreateReaction(t.rows, a, IdsOf(ContentsOf(db, j).rows), IdsOf(db.users.rows), ContentField(j));
            && (saved.Saved? ==> r == Ok(Created(Entry(t.nextId, saved.value))) && s.State() == WithJoin(db, j, Insert(t, saved.value)))
            && (saved.Failed? ==> r == Err(Unexpected) && s.State() == db))
  {
    if a.contentId.None? || a.userId.None? {
      return Err(Unexpected);
    }
    var db := s.State();
    var t := JoinOf(db, j);
    var hit := Matching(t.rows, a.contentId.value, a.userId.value);
    if hit.Some? {
      return Ok(Found(hit.value));
    }
    var saved := Records.CreateReaction(t.rows, a, IdsOf(ContentsOf(db, j).rows), IdsOf(db.users.rows), ContentField(j));
    match saved
    case Failed(e) =>
      r := Err(Records.KindOf(e));
    case Saved(v) =>
      InsertJoinKeepsIntegrity(db, j, v);
      r := Ok(Created(Entry(t.nextId, v)));
      s.Commit(WithJoin(db, j, Insert(t, v)));
  }

  /** After a row for a pair is created, the next POST of the same pair
      finds it. */
  lemma {:induction false} CreatedThenFound(t: Table<Reaction>, v: Reaction)
    requires t.Valid() && v !in Pairs(t.rows)
    ensures Matching(Insert(t, v).rows, v.contentId, v.userId) == Some(Entry(t.nextId, v))
  {
    var rows := Insert(t, v).rows;
    FindPairLast(t.rows, Entry(t.nextId, v));
  }

  /** Looking for a pair absent from `rows` in `rows + [e]` finds `e`. */
  lemma {:induction false} FindPairLast(rows: seq<Entry<Reaction>>, e: Entry<Reaction>)
    requires e.val !in Pairs(rows)
    ensures FindPair(rows + [e], e.val) == Some(e)
  {
    if |rows| == 0 {
    } else {
      assert rows[0].val in Pairs(rows);
      assert (rows + [e])[1..] == rows[1..] + [e];
      assert e.val !in Pairs(rows[1..]);
      FindPairLast(rows[1..], e);
    }
  }

  /** PUT /admin/<join table>/:id: an unknown id is an unexpected error;
      the given ids replace the stored ones, and a pair that is missing its
      content or user, or that another row already holds, is refused. */
  method UpdateJoin(s: Store, j: JoinTable, id: int, a: Records.ReactionAttrs) returns (r: Result<Entry<Reaction>>)
    requires s.Valid()
    modifies s
    ensures s.Valid()
    ensures s.posts == old(s.posts) && s.questions == old(s.questions)
    ensures var db := old(s.State());
      var t := JoinOf(db, j);
      var found := Lookup(t.rows, id);
      && (found.Err? ==> r == Err(Unexpected) && s.State() == db)
      && (found.Ok? ==>
            var saved := Records.UpdateReaction(t.rows, found.value.id, found.value.val, a,
                                                IdsOf(ContentsOf(db, j).rows), IdsOf(db.users.rows), ContentField(j));
            && (saved.Saved? ==> r == Ok(Entry(found.value.id, saved.value)) && s.State() == WithJoin(db, j, Update(t, id, saved.value)))
            && (saved.Failed? ==> r == Err(Unexpected) && s.State() == db))
    ensures var db := old(s.State());
      var t := JoinOf(db, j);
      var found := Lookup(t.rows, id);
      found.Ok? ==>
        var c := Records.Merge(a.contentId, found.value.val.contentId as int);
        var u := Records.Merge(a.userId, found.value.val.userId as int);
        && (r.Ok? <==>
              && c in IdsOf(ContentsOf(db, j).rows) && u in IdsOf(db.users.rows)
              && forall i :: 0 <= i < |t.rows| && t.rows[i].id != id ==>
                   !(t.rows[i].val.contentId as int == c && t.rows[i].val.userId as int == u))
        && (r.Ok? ==> r.value.val.contentId as int == c && r.value.val.userId as int == u)
  {
    var db := s.State();
    var t := JoinOf(db, j);
    var found := Lookup(t.rows, id);
    if found.Err? {
      return Err(Unexpected);
    }
    var saved := Records.UpdateReaction(t.rows, found.value.id, found.value.val, a,
                                        IdsOf(ContentsOf(db, j).rows), IdsOf(db.users.rows), ContentField(j));
    match saved
    case Failed(e) =>
      r := Err(Records.KindOf(e));
    case Saved(v) =>
      UpdateJoinKeepsIntegrity(db, j, id, v);
      r := Ok(Entry(found.value.id, v));
      s.Commit(WithJoin(db, j, Update(t, id, v)));
  }

  /** DELETE /admin/<join table>/:id: 404 for an unknown id, otherwise that
      one row goes; the counters are not touched. */
  method DeleteJoin(s: Store, j: JoinTable, id: int) returns (r: Result<()>)
    requires s.Valid()
    modifies s
    ensures s.Valid()
    ensures s.posts == old(s.posts) && s.questions == old(s.questions)
    ensures var db := old(s.State());
      var found := Lookup(JoinOf(db, j).rows, id);
      && (found.Err? ==> r == Err(NotFound) && s.State() == db)
      && (found.Ok? ==> r == Ok(()) && s.State() == WithJoin(db, j, DeleteIds(JoinOf(db, j), {found.value.id})))
  {
    var db := s.State();
    var found := Lookup(JoinOf(db, j).rows, id);
    if found.Err? {
      return Err(NotFound);
    }
    DeleteJoinKeepsIntegrity(db, j, found.value.id);
    s.Commit(WithJoin(db, j, DeleteIds(JoinOf(db, j), {found.value.id})));
    r := Ok(());
  }

  /** After DELETE of a row its id is gone and every other row stays. */
  lemma DeleteJoinRemovesOne(db: Db, j: JoinTable, id: nat)
    requires JoinOf(db, j).Valid() && id in IdsOf(JoinOf(db, j).rows)
    ensures var t := DeleteIds(JoinOf(db, j), {id});
      && Lookup(t.rows, id).Err?
      && |t.rows| == |JoinOf(db, j).rows| - 1
      && forall e :: e in JoinOf(db, j).rows && e.id != id ==> e in t.rows
  {
    var rows := JoinOf(db, j).rows;
    RemoveOneId(rows, id);
  }

  /** Removing one id present in an ascending table removes one row. */
  lemma {:induction false} RemoveOneId<T(!new)>(rows: seq<Entry<T>>, id: nat)
    requires Ascending(rows) && id in IdsOf(rows)
    ensures |RemoveIds(rows, {id})| == |rows| - 1
  {
    if |rows| > 0 {
      if rows[0].id == id {
        RemoveAbsentId(rows[1..], id);
      } else {
        assert id in IdsOf(rows[1..]) by {
          var k :| 0 <= k < |rows| && rows[k].id == id;
          assert k > 0 && rows[1..][k - 1].id == id;
        }
        RemoveOneId(rows[1..], id);
      }
    }
  }

  /** Removing an id an ascending table does not hold removes nothing. */
  lemma {:induction false} RemoveAbsentId<T(!new)>(rows: seq<Entry<T>>, id: nat)
    requires Ascending(rows) && (forall i :: 0 <= i < |rows| ==> rows[i].id > id)
    ensures RemoveIds(rows, {id}) == rows
  {
    if |rows| > 0 {
      RemoveAbsentId(rows[1..], id);
    }
  }

  // ---------------------------------------------------------------------
  // School categories

  /** `findOne({ where: { category_id, school_id } })`. */
  function FindLink(rows: seq<Entry<SchoolCategory>>, categoryId: int, schoolId: int): (r: Option<Entry<SchoolCategory>>)
    ensures r.Some? ==> r.value in rows && r.value.val.categoryId as int == categoryId && r.value.val.schoolId as int == schoolId
    ensures r.None? ==> forall i :: 0 <= i < |rows| ==>
                          !(rows[i].val.categoryId as int == categoryId && rows[i].val.schoolId as int == schoolId)
  {
    if |rows| == 0 then None
    else if rows[0].val.categoryId as int == categoryId && rows[0].val.schoolId as int == schoolId then Some(rows[0])
    else
      var r := FindLink(rows[1..], categoryId, schoolId);
      assert forall i :: 1 <= i < |rows| ==> rows[i] == rows[1..][i - 1];
      r
  }

  /** The body the route passes to `findOrCreate` and `update`: the two
      ids, and `exam_frequency` read from the request object itself rather
      than its body, where it is never set. */
  function LinkBody(categoryId: Option<int>, schoolId: Option<int>, examFrequency: Option<int>): (a: Records.LinkAttrs)
    ensures a.categoryId == categoryId && a.schoolId == schoolId
    ensures a.examFrequency.None?
  {
    Records.LinkAttrs(categoryId, schoolId, None)
  }

  /** The body with the frequency taken from the request body. */
  function LinkBodyWithFrequency(categoryId: Option<int>, schoolId: Option<int>, examFrequency: Option<int>): (a: Records.LinkAttrs)
    ensures a.categoryId == categoryId && a.schoolId == schoolId && a.examFrequency == examFrequency
  {
    Records.LinkAttrs(categoryId, schoolId, examFrequency)
  }

  /** A link created through the route's body gets the default frequency
      whatever frequency the request asked for. */
  lemma RequestedFrequencyDropped(rows: seq<Entry<SchoolCategory>>, categories: set<nat>, schools: set<nat>,
                                  categoryId: int, schoolId: int, examFrequency: Option<int>)
    requires Records.CreateLink(rows, LinkBody(Some(categoryId), Some(schoolId), examFrequency), categories, schools).Saved?
    ensures Records.CreateLink(rows, LinkBody(Some(categoryId), Some(schoolId), examFrequency), categories, schools).value.examFrequency
            == DefaultExamFrequency
  {
  }

  /** A link created with the frequency taken from the body gets that
      frequency when one is given. */
  lemma RequestedFrequencyKept(rows: seq<Entry<SchoolCategory>>, categories: set<nat>, schools: set<nat>,
                               categoryId: int, schoolId: int, examFrequency: Option<int>)
    requires Records.CreateLink(rows, LinkBodyWithFrequency(Some(categoryId), Some(schoolId), examFrequency), categories, schools).Saved?
    ensures Records.CreateLink(rows, LinkBodyWithFrequency(Some(categoryId), Some(schoolId), examFrequency), categories, schools).value.examFrequency
            == Records.Or(examFrequency, DefaultExamFrequency)
  {
  }

  /** `findOrCreate` on (category_id, school_id) with `a` as defaults, then
      `update(a)` on a found row. Validation errors are 400s; everything
      else, a missing id in the WHERE clause included, is a 500. */
  method UpsertLinkAttrs(s: Store, a: Records.LinkAttrs) returns (r: Result<Upserted<SchoolCategory>>)
    requires s.Valid()
    modifies s
    ensures s.Valid()
    ensures a.categoryId.None? || a.schoolId.None? ==> r == Err(Unexpected) && s.State() == old(s.State())
    ensures a.categoryId.Some? && a.schoolId.Some? ==>
      var db := old(s.State());
      var t := db.schoolCategories;
      var categories := IdsOf(db.categories.rows);
      var schools := IdsOf(db.schools.rows);
      var hit := FindLink(t.rows, a.categoryId.value, a.schoolId.value);
      && (hit.None? ==>
            var saved := Records.CreateLink(t.rows, a, categories, schools);
            && (saved.Saved? ==> r == Ok(Created(Entry(t.nextId, saved.value)))
                                 && s.State() == db.(schoolCategories := Insert(t, saved.value)))
            && (saved.Failed? ==> r == Err(Records.KindOf(saved.error)) && s.State() == db))
      && (hit.Some? ==>
            var saved := Records.UpdateLink(t.rows, hit.value.id, hit.value.val, a, categories, schools);
            && (saved.Saved? ==> r == Ok(Found(Entry(hit.value.id, saved.value)))
                                 && s.State() == db.(schoolCategories := Update(t, hit.value.id, saved.value)))
            && (saved.Failed? ==> r == Err(Records.KindOf(saved.error)) && s.State() == db))
  {
    if a.categoryId.None? || a.schoolId.None? {
      return Err(Unexpected);
    }
    var db := s.State();
    var t := db.schoolCategories;
    var categories := IdsOf(db.categories.rows);
    var schools := IdsOf(db.schools.rows);
    var hit := FindLink(t.rows, a.categoryId.value, a.schoolId.value);
    if hit.None? {
      var saved := Records.CreateLink(t.rows, a, categories, schools);
      match saved
      case Failed(e) =>
        r := Err(Records.KindOf(e));
      case Saved(v) =>
        InsertLinkKeepsIntegrity(db, v);
        r := Ok(Created(Entry(t.nextId, v)));
        s.schoolCategories := Insert(t, v);
    } else {
      var saved := Records.UpdateLink(t.rows, hit.value.id, hit.value.val, a, categories, schools);
      match saved
      case Failed(e) =>
        r := Err(Records.KindOf(e));
      case Saved(v) =>
        UpdateLinkKeepsIntegrity(db, hit.value.id, v);
        r := Ok(Found(Entry(hit.value.id, v)));
        s.schoolCategories := Update(t, hit.value.id, v);
    }
  }

  /** An update that sets a row to the value it holds leaves the table as
      it is. */
  lemma {:induction false} UpdateWithSame<T>(t: Table<T>, i: nat)
    requires Ascending(t.rows) && i < |t.rows|
    ensures Update(t, t.rows[i].id, t.rows[i].val) == t
  {
    var r := Update(t, t.rows[i].id, t.rows[i].val);
    assert |r.rows| == |t.rows|;
    forall k | 0 <= k < |t.rows| ensures r.rows[k] == t.rows[k] {
      if t.rows[k].id == t.rows[i].id {
        assert k == i;
      }
    }
    assert r.rows == t.rows;
  }

  /** A found link's row, its own ids given back and no frequency, saves
      unchanged. */
  lemma {:induction false} FoundLinkUnchanged(db: Db, categoryId: int, schoolId: int)
    requires Integrity(db)
    requires FindLink(db.schoolCategories.rows, categoryId, schoolId).Some?
    ensures var t := db.schoolCategories;
      var hit := FindLink(t.rows, categoryId, schoolId).value;
      && Records.UpdateLink(t.rows, hit.id, hit.val, LinkBody(Some(categoryId), Some(schoolId), None),
                            IdsOf(db.categories.rows), IdsOf(db.schools.rows)) == Records.Saved(hit.val)
      && Update(t, hit.id, hit.val) == t
  {
    var t := db.schoolCategories;
    var hit := FindLink(t.rows, categoryId, schoolId).value;
    var k := MemberIndex(t.rows, hit);
    assert LinkRowOk(t.rows[k].val, IdsOf(db.categories.rows), IdsOf(db.schools.rows));
    forall i | 0 <= i < |t.rows| && t.rows[i].id != hit.id ensures !SameLink(t.rows[i].val, hit.val) {
      assert i != k;
      if i < k {
        assert !SameLink(t.rows[i].val, t.rows[k].val);
      } else {
        assert !SameLink(t.rows[k].val, t.rows[i].val);
      }
    }
    UpdateWithSame(t, k);
  }

  /** A found link, its own ids given back with a frequency that is valid
      whenever it changes the stored one, saves with that frequency. */
  lemma {:induction false} FoundLinkTakesFrequency(db: Db, categoryId: int, schoolId: int, f: Option<int>)
    requires Integrity(db)
    requires FindLink(db.schoolCategories.rows, categoryId, schoolId).Some?
    requires Records.Changes(f, FindLink(db.schoolCategories.rows, categoryId, schoolId).value.val.examFrequency) ==>
               Records.FrequencyOk(f.value)
    ensures var t := db.schoolCategories;
      var hit := FindLink(t.rows, categoryId, schoolId).value;
      Records.UpdateLink(t.rows, hit.id, hit.val, LinkBodyWithFrequency(Some(categoryId), Some(schoolId), f),
                         IdsOf(db.categories.rows), IdsOf(db.schools.rows))
        == Records.Saved(hit.val.(examFrequency := Records.Merge(f, hit.val.examFrequency)))
  {
    var t := db.schoolCategories;
    var hit := FindLink(t.rows, categoryId, schoolId).value;
    var k := MemberIndex(t.rows, hit);
    assert LinkRowOk(t.rows[k].val, IdsOf(db.categories.rows), IdsOf(db.schools.rows));
    forall i | 0 <= i < |t.rows| && t.rows[i].id != hit.id ensures !SameLink(t.rows[i].val, hit.val) {
      assert i != k;
      if i < k {
        assert !SameLink(t.rows[i].val, t.rows[k].val);
      } else {
        assert !SameLink(t.rows[k].val, t.rows[i].val);
      }
    }
  }

  /** POST /admin/schoolcategories as written: the requested frequency is
      never read, so a created link gets the default and a found link is
      left exactly as it was. */
  method UpsertLink(s: Store, categoryId: Option<int>, schoolId: Option<int>, examFrequency: Option<int>)
      returns (r: Result<Upserted<SchoolCategory>>)
    requires s.Valid()
    modifies s
    ensures s.Valid()
    ensures categoryId.None? || schoolId.None? ==> r == Err(Unexpected) && s.State() == old(s.State())
    ensures categoryId.Some? && schoolId.Some? ==>
      var hit := FindLink(old(s.schoolCategories.rows), categoryId.value, schoolId.value);
      && (hit.Some? ==> r == Ok(Found(hit.value)) && s.State() == old(s.State()))
      && (hit.None? && r.Ok? ==> r.value.Created?)
    ensures r.Ok? && r.value.Created? ==>
      && r.value.row.val.categoryId as int == categoryId.value && r.value.row.val.schoolId as int == schoolId.value
      && r.value.row.val.examFrequency == DefaultExamFrequency
      && s.State() == old(s.State()).(schoolCategories := Insert(old(s.schoolCategories), r.value.row.val))
    ensures r.Err? ==> r.kind == Unexpected && s.State() == old(s.State())
    ensures (&& categoryId.Some? && schoolId.Some?
             && FindLink(old(s.schoolCategories.rows), categoryId.value, schoolId.value).None?
             && categoryId.value in IdsOf(old(s.categories.rows)) && schoolId.value in IdsOf(old(s.schools.rows))) ==>
              r.Ok? && r.value.Created?
  {
    if categoryId.Some? && schoolId.Some? && FindLink(s.schoolCategories.rows, categoryId.value, schoolId.value).Some? {
      FoundLinkUnchanged(s.State(), categoryId.value, schoolId.value);
    }
    r := UpsertLinkAttrs(s, LinkBody(categoryId, schoolId, examFrequency));
  }

  /** POST /admin/schoolcategories with `exam_frequency` read from the
      body: a created link gets the requested frequency, or the default
      when none is given; a found link gets the requested frequency; a
      frequency outside [1, 5] is a validation error. */
  method UpsertLinkWithFrequency(s: Store, categoryId: Option<int>, schoolId: Option<int>, examFrequency: Option<int>)
      returns (r: Result<Upserted<SchoolCategory>>)
    requires s.Valid()
    modifies s
    ensures s.Valid()
    ensures categoryId.None? || schoolId.None? ==> r == Err(Unexpected) && s.State() == old(s.State())
    ensures r.Ok? && r.value.Created? ==>
      && r.value.row.val.categoryId as int == categoryId.value && r.value.row.val.schoolId as int == schoolId.value
      && r.value.row.val.examFrequency == Records.Or(examFrequency, DefaultExamFrequency)
      && Records.FrequencyOk(r.value.row.val.examFrequency)
    ensures r.Ok? && r.value.Found? && examFrequency.Some? ==> r.value.row.val.examFrequency == examFrequency.value
    ensures (&& categoryId.Some? && schoolId.Some? && examFrequency.Some? && !Records.FrequencyOk(examFrequency.value)
             && FindLink(old(s.schoolCategories.rows), categoryId.value, schoolId.value).None?) ==>
              r == Err(Validation) && s.State() == old(s.State())
    ensures r.Err? ==> s.State() == old(s.State())
    ensures (&& categoryId.Some? && schoolId.Some?
             && FindLink(old(s.schoolCategories.rows), categoryId.value, schoolId.value).None?
             && categoryId.value in IdsOf(old(s.categories.rows)) && schoolId.value in IdsOf(old(s.schools.rows))
             && Records.FrequencyOk(Records.Or(examFrequency, DefaultExamFrequency))) ==>
              r.Ok? && r.value.Created?
    ensures categoryId.Some? && schoolId.Some? ==>
      var hit := FindLink(old(s.schoolCategories.rows), categoryId.value, schoolId.value);
      hit.Some? ==>
        && (!(Records.Changes(examFrequency, hit.value.val.examFrequency) ==> Records.FrequencyOk(examFrequency.value)) ==>
              r == Err(Validation) && s.State() == old(s.State()))
        && ((Records.Changes(examFrequency, hit.value.val.examFrequency) ==> Records.FrequencyOk(examFrequency.value)) ==>
              var v := hit.value.val.(examFrequency := Records.Merge(examFrequency, hit.value.val.examFrequency));
              && r == Ok(Found(Entry(hit.value.id, v)))
              && s.State() == old(s.State()).(schoolCategories := Update(old(s.schoolCategories), hit.value.id, v)))
  {
    if categoryId.Some? && schoolId.Some? {
      var hit := FindLink(s.schoolCategories.rows, categoryId.value, schoolId.value);
      if hit.Some? && (Records.Changes(examFrequency, hit.value.val.examFrequency) ==> Records.FrequencyOk(examFrequency.value)) {
        FoundLinkTakesFrequency(s.State(), categoryId.value, schoolId.value, examFrequency);
      }
    }
    r := UpsertLinkAttrs(s, LinkBodyWithFrequency(categoryId, schoolId, examFrequency));
  }

  /** PUT /admin/schoolcategories/:id: an unknown id is an unexpected
      error; then the update with the route's body, whose frequency is
      never set. */
  method UpdateLink(s: Store, id: int, categoryId: Option<int>, schoolId: Option<int>, examFrequency: Option<int>)
      returns (r: Result<Entry<SchoolCategory>>)
    requires s.Valid()
    modifies s
    ensures s.Valid()
    ensures var db := old(s.State());
      var t := db.schoolCategories;
      var found := Lookup(t.rows, id);
      && (found.Err? ==> r == Err(Unexpected) && s.State() == db)
      && (found.Ok? ==>
            var saved := Records.UpdateLink(t.rows, found.value.id, found.value.val, LinkBody(categoryId, schoolId, examFrequency),
                                            IdsOf(db.categories.rows), IdsOf(db.schools.rows));
            && (saved.Saved? ==> r == Ok(Entry(found.value.id, saved.value))
                                 && s.State() == db.(schoolCategories := Update(t, id, saved.value)))
            && (saved.Failed? ==> r == Err(Records.KindOf(saved.error)) && s.State() == db))
    ensures r.Ok? ==> r.value.val.examFrequency == Lookup(old(s.schoolCategories.rows), id).value.val.examFrequency
    ensures var t := old(s.schoolCategories);
      var found := Lookup(t.rows, id);
      found.Ok? ==>
        var c := Records.Merge(categoryId, found.value.val.categoryId as int);
        var sc := Records.Merge(schoolId, found.value.val.schoolId as int);
        && (r.Ok? <==>
              && c in IdsOf(old(s.categories.rows)) && sc in IdsOf(old(s.schools.rows))
              && forall i :: 0 <= i < |t.rows| && t.rows[i].id != id ==>
                   !(t.rows[i].val.categoryId as int == c && t.rows[i].val.schoolId as int == sc))
        && (r.Ok? ==> r.value.val.categoryId as int == c && r.value.val.schoolId as int == sc)
  {
    var db := s.State();
    var t := db.schoolCategories;
    var found := Lookup(t.rows, id);
    if found.Err? {
      return Err(Unexpected);
    }
    var saved := Records.UpdateLink(t.rows, found.value.id, found.value.val, LinkBody(categoryId, schoolId, examFrequency),
                                    IdsOf(db.categories.rows), IdsOf(db.schools.rows));
    match saved
    case Failed(e) =>
      r := Err(Records.KindOf(e));
    case Saved(v) =>
      UpdateLinkKeepsIntegrity(db, id, v);
      r := Ok(Entry(found.value.id, v));
      s.schoolCategories := Update(t, id, v);
  }

  /** DELETE /admin/schoolcategories/:id: 404 for an unknown id, otherwise
      that one row goes. */
  method DeleteLink(s: Store, id: int) returns (r: Result<()>)
    requires s.Valid()
    modifies s
    ensures s.Valid()
    ensures var db := old(s.State());
      var found := Lookup(db.schoolCategories.rows, id);
      && (found.Err? ==> r == Err(NotFound) && s.State() == db)
      && (found.Ok? ==> r == Ok(()) && s.State() == db.(schoolCategories := DeleteIds(db.schoolCategories, {found.value.id})))
  {
    var db := s.State();
    var found := Lookup(db.schoolCategories.rows, id);
    if found.Err? {
      return Err(NotFound);
    }
    DeleteLinkKeepsIntegrity(db, found.value.id);
    s.schoolCategories := DeleteIds(db.schoolCategories, {found.value.id});
    r := Ok(());
  }
}
