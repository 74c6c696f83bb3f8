/** The read side shared by the list and detail routes: filtering a table,
    ordering by id, and the content-free row shape lists return. */
module Queries {
  import opened Common
  import opened Tables
  import opened Schema

  /** A Posts or Questions row with `content` excluded from the attributes:
      every column except the body. */
  datatype Summary = Summary(
    id: nat,
    title: string,
    userId: nat,
    topicId: Option<nat>,
    parentId: Option<nat>,
    video: Option<string>,
    kind: int,
    difficulty: Option<int>,
    likes: int,
    views: int,
    favorites: int,
    recommended: bool,
    status: string,
    coverImage: Option<string>)

  function Summarize(e: Entry<Content>): (s: Summary)
    ensures s.id == e.id && s.title == e.val.title && s.userId == e.val.userId
    ensures s.topicId == e.val.topicId && s.parentId == e.val.parentId
    ensures s.kind == e.val.kind && s.likes == e.val.likes && s.status == e.val.status
    ensures s.recommended == e.val.recommended && s.favorites == e.val.favorites
  {
    var v := e.val;
    Summary(e.id, v.title, v.userId, v.topicId, v.parentId, v.video, v.kind, v.difficulty,
            v.likes, v.views, v.favorites, v.recommended, v.status, v.coverImage)
  }

  /** The list projection of a sequence of rows, position by position. */
  function Summaries(rows: seq<Entry<Content>>): (r: seq<Summary>)
    ensures |r| == |rows|
    ensures forall k :: 0 <= k < |rows| ==> r[k] == Summarize(rows[k])
  {
    seq(|rows|, k requires 0 <= k < |rows| => Summarize(rows[k]))
  }

  /** A WHERE clause: the rows that satisfy `keep`, in table order. */
  function Select<T(!new)>(rows: seq<Entry<T>>, keep: Entry<T> -> bool): (r: seq<Entry<T>>)
    ensures |r| <= |rows|
    ensures forall e :: e in r <==> e in rows && keep(e)
    ensures Ascending(rows) ==> Ascending(r)
  {
    if |rows| == 0 then []
    else
      var rest := Select(rows[1..], keep);
      assert forall e :: e in rows <==> e == rows[0] || e in rows[1..];
      assert Ascending(rows) ==> Ascending(rows[1..]);
      if keep(rows[0]) then
        assert Ascending(rows) ==> forall k :: 0 <= k < |rest| ==> rows[0].id < rest[k].id by {
          if Ascending(rows) {
            forall k | 0 <= k < |rest| ensures rows[0].id < rest[k].id {
              assert rest[k] in rows[1..];
              var j :| 0 <= j < |rows[1..]| && rows[1..][j] == rest[k];
              assert rows[j + 1] == rest[k];
            }
          }
        }
        [rows[0]] + rest
      else rest
  }

  /** Rows in strictly decreasing id order ("ORDER BY id DESC"). */
  ghost predicate Descending<T>(rows: seq<Entry<T>>) {
    forall i, j :: 0 <= i < j < |rows| ==> rows[i].id > rows[j].id
  }

  function Reverse<X>(s: seq<X>): (r: seq<X>)
    ensures |r| == |s|
    ensures forall k :: 0 <= k < |s| ==> r[k] == s[|s| - 1 - k]
  {
    if |s| == 0 then [] else [s[|s| - 1]] + Reverse(s[..|s| - 1])
  }

  /** ORDER BY id DESC over a table, whose rows are stored by ascending id:
      the same rows, newest first. */
  function NewestFirst<T(!new)>(rows: seq<Entry<T>>): (r: seq<Entry<T>>)
    requires Ascending(rows)
    ensures Descending(r)
    ensures forall e :: e in r <==> e in rows
    ensures |r| == |rows|
  {
    var r := Reverse(rows);
    assert forall e :: e in rows ==> e in r by {
      forall e | e in rows ensures e in r {
        var i :| 0 <= i < |rows| && rows[i] == e;
        assert r[|rows| - 1 - i] == e;
      }
    }
    r
  }

  lemma IdsOfCons<T>(rows: seq<Entry<T>>)
    requires |rows| > 0
    ensures IdsOf(rows) == {rows[0].id} + IdsOf(rows[1..])
  {
    var tail := rows[1..];
    forall k | k in IdsOf(rows) ensures k in {rows[0].id} + IdsOf(tail) {
      var i :| 0 <= i < |rows| && rows[i].id == k;
      if i > 0 { assert tail[i - 1].id == k; }
    }
    forall k | k in IdsOf(tail) ensures k in IdsOf(rows) {
      var i :| 0 <= i < |tail| && tail[i].id == k;
      assert rows[i + 1].id == k;
    }
  }

  lemma HeadIdNotInTail<T>(rows: seq<Entry<T>>)
    requires |rows| > 0 && Ascending(rows)
    ensures rows[0].id !in IdsOf(rows[1..])
  {
    forall k | k in IdsOf(rows[1..]) ensures rows[0].id < k {
      var i :| 0 <= i < |rows[1..]| && rows[1..][i].id == k;
      assert rows[i + 1].id == k;
    }
  }

  /** In ascending order ids are distinct, so a query's row count is the
      number of distinct ids it returns. */
  lemma {:induction false} CountIsDistinctIds<T>(rows: seq<Entry<T>>)
    requires Ascending(rows)
    ensures |rows| == |IdsOf(rows)|
  {
    if |rows| > 0 {
      assert Ascending(rows[1..]);
      CountIsDistinctIds(rows[1..]);
      IdsOfCons(rows);
      HeadIdNotInTail(rows);
    }
  }

  /** LIKE '%pattern%': `pattern` occurs in `s` as a contiguous substring. */
  predicate Contains(s: string, pattern: string) {
    exists k :: 0 <= k <= |s| && OccursAt(s, pattern, k)
  }

  predicate OccursAt(s: string, pattern: string, k: int) {
    0 <= k <= |s| - |pattern| && s[k..k + |pattern|] == pattern
  }
}
