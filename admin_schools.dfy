/** The admin school routes (routes/admin/schools.js). The request body is
    reduced to `name`, `number` and `introduce`, which is the shape of
    `Records.SchoolAttrs`. */
module AdminSchools {
  import opened Common
  import opened Tables
  import opened Schema
  import opened Queries
  import opened Paging
  import Records
  import opened Writes
  import opened Cascade
  import opened Storage
  import opened AdminCommon

  function NameFilter(q: Option<string>): Entry<School> -> bool {
    (e: Entry<School>) => Like(e.val.name, q)
  }

  lemma NoNameSelectsAll(rows: seq<Entry<School>>, q: Option<string>)
    ensures !Filled(q) ==> Select(rows, NameFilter(q)) == rows
  {
    if !Filled(q) {
      SelectAll(rows, NameFilter(q));
    }
  }

  /** GET /admin/schools: newest first, paged, filtered by a name substring
      only when one is given. */
  function ListByName(db: Db, name: Option<string>, rawPage: Option<int>, rawSize: Option<int>): (r: Paginated<Entry<School>>)
    requires db.schools.Valid()
    ensures r.total == |Select(db.schools.rows, NameFilter(name))|
    ensures !Filled(name) ==> r.total == |db.schools.rows|
    ensures |r.items| <= r.pageSize
    ensures forall e :: e in r.items ==> e in db.schools.rows && Like(e.val.name, name)
    ensures forall a, b :: 0 <= a < b < |r.items| ==> r.items[a].id > r.items[b].id
    ensures PageOf(r.items, NewestFirst(Select(db.schools.rows, NameFilter(name))), ParsePage(rawPage, rawSize))
  {
    NoNameSelectsAll(db.schools.rows, name);
    ListNewest(db.schools.rows, NameFilter(name), rawPage, rawSize)
  }

  /** POST /admin/schools: a validation failure, or the new school. */
  method CreateSchool(s: Store, a: Records.SchoolAttrs) returns (r: Result<Entry<School>>)
    requires s.Valid()
    modifies s
    ensures s.Valid()
    ensures var saved := Records.CreateSchool(a);
      && (saved.Saved? ==> r == Ok(Entry(old(s.schools.nextId), saved.value))
                           && s.State() == old(s.State()).(schools := Insert(old(s.schools), saved.value)))
      && (saved.Failed? ==> r == Err(Validation) && s.State() == old(s.State()))
  {
    var saved := Records.CreateSchool(a);
    match saved
    case Failed(e) =>
      r := Err(Records.KindOf(e));
    case Saved(v) =>
      InsertSchoolKeepsIntegrity(s.State(), v);
      r := Ok(Entry(s.schools.nextId, v));
      s.schools := Insert(s.schools, v);
  }

  /** PUT /admin/schools/:id: an unknown id is an unexpected error; a
      validation failure is reported as such. */
  method UpdateSchool(s: Store, id: int, a: Records.SchoolAttrs) returns (r: Result<Entry<School>>)
    requires s.Valid()
    modifies s
    ensures s.Valid()
    ensures var found := Lookup(old(s.schools.rows), id);
      && (found.Err? ==> r == Err(Unexpected) && s.State() == old(s.State()))
      && (found.Ok? ==>
            var saved := Records.UpdateSchool(found.value.val, a);
            && (saved.Saved? ==> r == Ok(Entry(found.value.id, saved.value))
                                 && s.State() == old(s.State()).(schools := Update(old(s.schools), id, saved.value)))
            && (saved.Failed? ==> r == Err(Validation) && s.State() == old(s.State())))
  {
    var found := Lookup(s.schools.rows, id);
    if found.Err? {
      return Err(Unexpected);
    }
    var saved := Records.UpdateSchool(found.value.val, a);
    match saved
    case Failed(e) =>
      r := Err(Records.KindOf(e));
    case Saved(v) =>
      UpdateSchoolKeepsIntegrity(s.State(), id, v);
      r := Ok(Entry(found.value.id, v));
      s.schools := Update(s.schools, id, v);
  }

  /** DELETE /admin/schools/:id: an unknown id is an unexpected error;
      otherwise the school goes, users targeting it and posts filed under
      it keep their rows with the reference cleared, and its links go. */
  method DeleteSchool(s: Store, id: int) returns (r: Result<()>)
    requires s.Valid()
    modifies s
    ensures s.Valid()
    ensures var found := Lookup(old(s.schools.rows), id);
      && (found.Err? ==> r == Err(Unexpected) && s.State() == old(s.State()))
      && (found.Ok? ==> r == Ok(()) && s.State() == Cascade.DeleteSchool(old(s.State()), found.value.id))
  {
    var found := Lookup(s.schools.rows, id);
    if found.Err? {
      return Err(Unexpected);
    }
    DeleteSchoolKeepsIntegrity(s.State(), found.value.id);
    s.Commit(Cascade.DeleteSchool(s.State(), found.value.id));
    r := Ok(());
  }
}
