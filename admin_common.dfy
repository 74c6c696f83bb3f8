/** What every admin CRUD router shares: the paginated, optionally
    LIKE-filtered list ordered by id descending, and the `findByPk` lookup
    that throws NotFound. */
module AdminCommon {
  import opened Common
  import opened Tables
  import opened Queries
  import opened Paging
  import opened Schema

  // ---------------------------------------------------------------------
  // `filterBody` defaults

  /** `x || 0`: an absent number and 0 both give 0. */
  function OrZero(v: Option<int>): int { if v.Some? then v.value else 0 }

  /** `x || false`. */
  function OrFalse(v: Option<bool>): bool { v.Some? && v.value }

  /** `status || 'published'`: an absent or empty status gives the default. */
  function OrPublished(v: Option<string>): string {
    if v.Some? && v.value != "" then v.value else DefaultStatus
  }

  /** A truthy string: given and not empty. */
  predicate Filled(v: Option<string>) { v.Some? && v.value != "" }

  // ---------------------------------------------------------------------
  // Lists and lookups

  /** `if (query.x) where x LIKE '%q%'`: no filter for an absent or empty
      query string, otherwise a substring test. */
  predicate Like(field: string, q: Option<string>) {
    q.None? || q.value == "" || Contains(field, q.value)
  }

  /** An empty pattern occurs in every string. */
  lemma EmptyPatternMatches(s: string)
    ensures Contains(s, "")
  {
    assert OccursAt(s, "", 0);
  }

  /** findAndCountAll ORDER BY id DESC with the route's page and size, over
      the rows `keep` admits. */
  function ListNewest<T(!new)>(rows: seq<Entry<T>>, keep: Entry<T> -> bool, rawPage: Option<int>, rawSize: Option<int>): (r: Paginated<Entry<T>>)
    requires Ascending(rows)
    ensures r.total == |Select(rows, keep)|
    ensures r.currentPage == ParsePage(rawPage, rawSize).currentPage
    ensures r.pageSize == ParsePage(rawPage, rawSize).pageSize
    ensures |r.items| <= r.pageSize
    ensures forall e :: e in r.items ==> e in rows && keep(e)
    ensures forall a, b :: 0 <= a < b < |r.items| ==> r.items[a].id > r.items[b].id
    ensures PageOf(r.items, NewestFirst(Select(rows, keep)), ParsePage(rawPage, rawSize))
  {
    var all := NewestFirst(Select(rows, keep));
    var page := ParsePage(rawPage, rawSize);
    var r := Paginate(all, page);
    PageOfDescending(all, page, r);
    r
  }

  /** A page of a list ordered by id descending holds rows of that list, in
      the same order. */
  lemma PageOfDescending<T>(all: seq<Entry<T>>, page: Page, r: Paginated<Entry<T>>)
    requires page.currentPage >= 1 && Descending(all) && r == Paginate(all, page)
    ensures forall e :: e in r.items ==> e in all
    ensures forall a, b :: 0 <= a < b < |r.items| ==> r.items[a].id > r.items[b].id
  {
    var o := Offset(page);
    forall e | e in r.items ensures e in all {
      var k :| 0 <= k < |r.items| && r.items[k] == e;
      assert all[o + k] == e;
    }
    forall a, b | 0 <= a < b < |r.items| ensures r.items[a].id > r.items[b].id {
      assert r.items[a] == all[o + a] && r.items[b] == all[o + b];
    }
  }

  /** A filter that admits every row selects the whole table. */
  lemma {:induction false} SelectAll<T(!new)>(rows: seq<Entry<T>>, keep: Entry<T> -> bool)
    requires forall e :: e in rows ==> keep(e)
    ensures Select(rows, keep) == rows
  {
    if |rows| > 0 {
      assert forall e :: e in rows[1..] ==> e in rows;
      SelectAll(rows[1..], keep);
      assert rows == [rows[0]] + rows[1..];
    }
  }

  /** `findByPk(id)` that throws NotFound: the row with that id. */
  function Lookup<T>(rows: seq<Entry<T>>, id: int): (r: Result<Entry<T>>)
    ensures r.Ok? <==> id in IdsOf(rows)
    ensures r.Err? ==> r.kind == NotFound
    ensures r.Ok? ==> r.value in rows && r.value.id == id
  {
    match Find(rows, id)
    case None => Err(NotFound)
    case Some(v) => Ok(Entry(id as nat, v))
  }

  /** In a table with unique ids the row Lookup returns is the one at the
      index holding that id. */
  lemma LookupAt<T>(rows: seq<Entry<T>>, i: nat)
    requires Ascending(rows) && i < |rows|
    ensures Lookup(rows, rows[i].id) == Ok(rows[i])
  {
    FindUnique(rows, i);
  }
}
