/** The relational store's tables, abstractly. A table keeps its rows in
    insertion order; every row carries an auto-increment id, so the rows
    are in ascending id order and "newest first" is the reverse order. */
module Tables {
  import opened Common

  datatype Entry<T> = Entry(id: nat, val: T)

  datatype Table<T> = Table(rows: seq<Entry<T>>, nextId: nat)
  {
    /** Ids are positive, strictly ascending, and below the next id. */
    ghost predicate Valid() {
      && nextId >= 1
      && (forall i :: 0 <= i < |rows| ==> 1 <= rows[i].id < nextId)
      && Ascending(rows)
    }
  }

  ghost predicate Ascending<T>(rows: seq<Entry<T>>) {
    forall i, j :: 0 <= i < j < |rows| ==> rows[i].id < rows[j].id
  }

  function EmptyTable<T>(): (t: Table<T>)
    ensures t.Valid() && t.rows == []
  {
    Table([], 1)
  }

  /** The row ids present in `rows`. */
  function IdsOf<T>(rows: seq<Entry<T>>): set<nat> {
    set i | 0 <= i < |rows| :: rows[i].id
  }

  predicate Has<T>(rows: seq<Entry<T>>, id: int) {
    exists i :: 0 <= i < |rows| && rows[i].id == id
  }

  /** findByPk: the value of the row with that id, if there is one. */
  function Find<T>(rows: seq<Entry<T>>, id: int): (r: Option<T>)
    ensures r.Some? <==> Has(rows, id)
    ensures r.Some? <==> id in IdsOf(rows)
    ensures r.Some? ==> exists i :: 0 <= i < |rows| && rows[i] == Entry(id, r.value)
  {
    if |rows| == 0 then None
    else if rows[0].id == id then Some(rows[0].val)
    else
      var r := Find(rows[1..], id);
      assert r.Some? ==> exists i :: 0 <= i < |rows| && rows[i] == Entry(id, r.value) by {
        if r.Some? {
          var i :| 0 <= i < |rows[1..]| && rows[1..][i] == Entry(id, r.value);
          assert rows[i + 1] == Entry(id, r.value);
        }
      }
      assert Has(rows, id) ==> Has(rows[1..], id) by {
        if Has(rows, id) {
          var i :| 0 <= i < |rows| && rows[i].id == id;
          assert i != 0 && rows[1..][i - 1].id == id;
        }
      }
      assert Has(rows[1..], id) ==> Has(rows, id) by {
        if Has(rows[1..], id) {
          var i :| 0 <= i < |rows[1..]| && rows[1..][i].id == id;
          assert rows[i + 1].id == id;
        }
      }
      r
  }

  /** In a table with unique ids, the row Find returns is the row with that id. */
  lemma {:induction false} FindUnique<T>(rows: seq<Entry<T>>, i: nat)
    requires Ascending(rows) && i < |rows|
    ensures Find(rows, rows[i].id) == Some(rows[i].val)
  {
    if i > 0 {
      assert rows[0].id < rows[i].id;
      assert Ascending(rows[1..]);
      FindUnique(rows[1..], i - 1);
    }
  }

  /** create: append a row under the next auto-increment id. */
  function Insert<T>(t: Table<T>, v: T): (r: Table<T>)
    requires t.Valid()
    ensures r.Valid()
    ensures r.rows == t.rows + [Entry(t.nextId, v)] && r.nextId == t.nextId + 1
    ensures !Has(t.rows, t.nextId)
    ensures IdsOf(r.rows) == IdsOf(t.rows) + {t.nextId}
  {
    var rows := t.rows + [Entry(t.nextId, v)];
    assert forall k :: k in IdsOf(rows) ==> k in IdsOf(t.rows) + {t.nextId} by {
      forall k | k in IdsOf(rows) ensures k in IdsOf(t.rows) + {t.nextId} {
        var i :| 0 <= i < |rows| && rows[i].id == k;
        if i < |t.rows| { assert t.rows[i].id == k; }
      }
    }
    assert rows[|t.rows|].id == t.nextId;
    assert forall k :: k in IdsOf(t.rows) ==> k in IdsOf(rows) by {
      forall k | k in IdsOf(t.rows) ensures k in IdsOf(rows) {
        var i :| 0 <= i < |t.rows| && t.rows[i].id == k;
        assert rows[i].id == k;
      }
    }
    Table(rows, t.nextId + 1)
  }

  /** update: replace the value of the row with that id; other rows stay. */
  function Update<T>(t: Table<T>, id: int, v: T): (r: Table<T>)
    ensures r.nextId == t.nextId && |r.rows| == |t.rows|
    ensures forall i :: 0 <= i < |t.rows| ==> r.rows[i].id == t.rows[i].id
    ensures forall i :: 0 <= i < |t.rows| && t.rows[i].id != id ==> r.rows[i] == t.rows[i]
    ensures forall i :: 0 <= i < |t.rows| && t.rows[i].id == id ==> r.rows[i].val == v
    ensures t.Valid() ==> r.Valid()
    ensures IdsOf(r.rows) == IdsOf(t.rows)
  {
    Table(seq(|t.rows|, i requires 0 <= i < |t.rows| =>
                if t.rows[i].id == id then Entry(t.rows[i].id, v) else t.rows[i]),
          t.nextId)
  }

  /** Rows whose id is not in `doomed`, in their original order. */
  function RemoveIds<T(!new)>(rows: seq<Entry<T>>, doomed: set<nat>): (r: seq<Entry<T>>)
    ensures forall e :: e in r <==> e in rows && e.id !in doomed
    ensures Ascending(rows) ==> Ascending(r)
    ensures |r| <= |rows|
  {
    if |rows| == 0 then []
    else
      var rest := RemoveIds(rows[1..], doomed);
      assert Ascending(rows) ==> Ascending(rows[1..]);
      assert forall e :: e in rows <==> e == rows[0] || e in rows[1..];
      if rows[0].id in doomed then rest
      else
        assert Ascending(rows) ==> forall k :: 0 <= k < |rest| ==> rows[0].id < rest[k].id by {
          if Ascending(rows) {
            forall k | 0 <= k < |rest| ensures rows[0].id < rest[k].id {
              assert rest[k] in rows[1..];
              var j :| 0 <= j < |rows[1..]| && rows[1..][j] == rest[k];
              assert rows[j + 1] == rest[k];
            }
          }
        }
        [rows[0]] + rest
  }

  /** destroy of a set of rows (the row itself plus what cascades with it). */
  function DeleteIds<T(!new)>(t: Table<T>, doomed: set<nat>): (r: Table<T>)
    ensures r.nextId == t.nextId
    ensures forall e :: e in r.rows <==> e in t.rows && e.id !in doomed
    ensures t.Valid() ==> r.Valid()
    ensures IdsOf(r.rows) == IdsOf(t.rows) - doomed
  {
    var r := Table(RemoveIds(t.rows, doomed), t.nextId);
    assert t.Valid() ==> forall i :: 0 <= i < |r.rows| ==> 1 <= r.rows[i].id < r.nextId by {
      if t.Valid() {
        forall i | 0 <= i < |r.rows| ensures 1 <= r.rows[i].id < r.nextId {
          assert r.rows[i] in t.rows;
        }
      }
    }
    r
  }

  lemma HasIn<T>(rows: seq<Entry<T>>, e: Entry<T>)
    requires e in rows
    ensures Has(rows, e.id)
  {
    var i :| 0 <= i < |rows| && rows[i] == e;
  }

  /** The position of a row known to be in a sequence. */
  lemma MemberIndex<T>(rows: seq<Entry<T>>, e: Entry<T>) returns (j: nat)
    requires e in rows
    ensures j < |rows| && rows[j] == e
  {
    j :| 0 <= j < |rows| && rows[j] == e;
  }
}
