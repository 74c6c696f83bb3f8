/** The admin category routes (routes/admin/categories.js). The request
    body is reduced to `name` and `parent_id`, which is the shape of
    `Records.CategoryAttrs`. */
module AdminCategories {
  import opened Common
  import opened Tables
  import opened Schema
  import opened Queries
  import opened Paging
  import Records
  import opened Writes
  import opened Cascade
  import opened Storage
  import opened AdminCommon

  function NameFilter(q: Option<string>): Entry<Category> -> bool {
    (e: Entry<Category>) => Like(e.val.name, q)
  }

  lemma NoNameSelectsAll(rows: seq<Entry<Category>>, q: Option<string>)
    ensures !Filled(q) ==> Select(rows, NameFilter(q)) == rows
  {
    if !Filled(q) {
      SelectAll(rows, NameFilter(q));
    }
  }

  /** GET /admin/categories: newest first, paged, filtered by a name
      substring only when one is given. */
  function ListByName(db: Db, name: Option<string>, rawPage: Option<int>, rawSize: Option<int>): (r: Paginated<Entry<Category>>)
    requires db.categories.Valid()
    ensures r.total == |Select(db.categories.rows, NameFilter(name))|
    ensures !Filled(name) ==> r.total == |db.categories.rows|
    ensures |r.items| <= r.pageSize
    ensures forall e :: e in r.items ==> e in db.categories.rows && Like(e.val.name, name)
    ensures forall a, b :: 0 <= a < b < |r.items| ==> r.items[a].id > r.items[b].id
    ensures PageOf(r.items, NewestFirst(Select(db.categories.rows, NameFilter(name))), ParsePage(rawPage, rawSize))
  {
    NoNameSelectsAll(db.categories.rows, name);
    ListNewest(db.categories.rows, NameFilter(name), rawPage, rawSize)
  }

  /** The route's own parent check: a truthy `parent_id` must name a
      category. It is the only check on the parent. */
  predicate MissingParent(db: Db, parentId: Option<int>) {
    Truthy(parentId) && parentId.value !in IdsOf(db.categories.rows)
  }

  /** POST /admin/categories: 400 for a truthy parent id that names no
      category, before any write; then the create, whose only failures are
      validation failures. */
  method CreateCategory(s: Store, a: Records.CategoryAttrs) returns (r: Result<Entry<Category>>)
    requires s.Valid()
    modifies s
    ensures s.Valid()
    ensures MissingParent(old(s.State()), a.parentId) ==> r == Err(BadRequest) && s.State() == old(s.State())
    ensures !MissingParent(old(s.State()), a.parentId) ==>
      var saved := Records.CreateCategory(a);
      && (saved.Saved? ==> r == Ok(Entry(old(s.categories.nextId), saved.value))
                           && s.State() == old(s.State()).(categories := Insert(old(s.categories), saved.value)))
      && (saved.Failed? ==> r == Err(Validation) && s.State() == old(s.State()))
  {
    if Truthy(a.parentId) && Find(s.categories.rows, a.parentId.value).None? {
      return Err(BadRequest);
    }
    var saved := Records.CreateCategory(a);
    match saved
    case Failed(e) =>
      r := Err(Records.KindOf(e));
    case Saved(v) =>
      InsertCategoryKeepsIntegrity(s.State(), v);
      r := Ok(Entry(s.categories.nextId, v));
      s.categories := Insert(s.categories, v);
  }

  /** PUT /admin/categories/:id: an unknown id is an unexpected error; then
      the parent check; then the update. Nothing stops a category from
      becoming its own parent. */
  method UpdateCategory(s: Store, id: int, a: Records.CategoryAttrs) returns (r: Result<Entry<Category>>)
    requires s.Valid()
    modifies s
    ensures s.Valid()
    ensures var found := Lookup(old(s.categories.rows), id);
      && (found.Err? ==> r == Err(Unexpected) && s.State() == old(s.State()))
      && (found.Ok? && MissingParent(old(s.State()), a.parentId) ==> r == Err(BadRequest) && s.State() == old(s.State()))
      && (found.Ok? && !MissingParent(old(s.State()), a.parentId) ==>
            var saved := Records.UpdateCategory(found.value.val, a);
            && (saved.Saved? ==> r == Ok(Entry(found.value.id, saved.value))
                                 && s.State() == old(s.State()).(categories := Update(old(s.categories), id, saved.value)))
            && (saved.Failed? ==> r == Err(Validation) && s.State() == old(s.State())))
    ensures id in IdsOf(old(s.categories.rows)) && a == Records.CategoryAttrs(None, Some(id)) ==>
              r.Ok? && r.value.val.parentId == Some(id)
  {
    var found := Lookup(s.categories.rows, id);
    if found.Err? {
      return Err(Unexpected);
    }
    if Truthy(a.parentId) && Find(s.categories.rows, a.parentId.value).None? {
      return Err(BadRequest);
    }
    var saved := Records.UpdateCategory(found.value.val, a);
    match saved
    case Failed(e) =>
      r := Err(Records.KindOf(e));
    case Saved(v) =>
      UpdateCategoryKeepsIntegrity(s.State(), id, v);
      r := Ok(Entry(found.value.id, v));
      s.categories := Update(s.categories, id, v);
  }

  /** DELETE /admin/categories/:id: an unknown id is an unexpected error;
      otherwise the category goes, its questions keep their rows with the
      category cleared, and its school links go. */
  method DeleteCategory(s: Store, id: int) returns (r: Result<()>)
    requires s.Valid()
    modifies s
    ensures s.Valid()
    ensures var found := Lookup(old(s.categories.rows), id);
      && (found.Err? ==> r == Err(Unexpected) && s.State() == old(s.State()))
      && (found.Ok? ==> r == Ok(()) && s.State() == Cascade.DeleteCategory(old(s.State()), found.value.id))
  {
    var found := Lookup(s.categories.rows, id);
    if found.Err? {
      return Err(Unexpected);
    }
    DeleteCategoryKeepsIntegrity(s.State(), found.value.id);
    s.Commit(Cascade.DeleteCategory(s.State(), found.value.id));
    r := Ok(());
  }
}
