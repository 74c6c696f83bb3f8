/** Liking and unliking a post or a question (routes/likeposts.js and
    routes/likequestions.js): the toggle keeps a PostLike/QuestionLike row
    and the denormalised `likes_count` of the content in step, and the
    listing pages through the contents a user has liked. */
module Likes {
  import opened Common
  import opened Tables
  import opened Schema
  import opened Storage
  import opened Queries
  import opened Paging

  datatype Toggled = Liked | Unliked

  /** The join table and the content table after one toggle, and which way
      it went. */
  datatype Toggle = Toggle(likes: Table<Reaction>, contents: Table<Content>, outcome: Toggled)

  /** `increment`/`decrement` of `likes_count`: the statement
      `likes_count = likes_count + delta` on the row with that id. */
  function AddLikes(contents: Table<Content>, id: nat, delta: int): Table<Content>
  {
    Table(seq(|contents.rows|, i requires 0 <= i < |contents.rows| =>
                var e := contents.rows[i];
                if e.id == id then Entry(id, e.val.(likes := e.val.likes + delta)) else e),
          contents.nextId)
  }

  /** What one toggle does to the two tables: without a row for the pair,
      insert one and add one like; with one, destroy it and take one away. */
  function ToggleLike(likes: Table<Reaction>, contents: Table<Content>, pair: Reaction): (r: Toggle)
    requires likes.Valid()
    ensures r.outcome == Liked <==> pair !in Pairs(likes.rows)
    ensures r.contents.nextId == contents.nextId && |r.contents.rows| == |contents.rows|
  {
    match FindPair(likes.rows, pair)
    case None => Toggle(Insert(likes, pair), AddLikes(contents, pair.contentId, 1), Liked)
    case Some(e) => Toggle(DeleteIds(likes, {e.id}), AddLikes(contents, pair.contentId, -1), Unliked)
  }

  /** The counter invariant: each content's `likes_count` is the number of
      join rows that reference it. */
  ghost predicate CountersMatch(contents: Table<Content>, likes: Table<Reaction>) {
    forall i :: 0 <= i < |contents.rows| ==>
      contents.rows[i].val.likes == CountFor(likes.rows, contents.rows[i].id)
  }

  // ---------------------------------------------------------------------
  // Join-table facts used by the toggle lemmas

  lemma {:induction false} CountAppend(rows: seq<Entry<Reaction>>, e: Entry<Reaction>, cid: int)
    ensures CountFor(rows + [e], cid) == CountFor(rows, cid) + (if e.val.contentId == cid then 1 else 0)
  {
    if |rows| == 0 {
      assert rows + [e] == [e];
    } else {
      assert (rows + [e])[1..] == rows[1..] + [e];
      CountAppend(rows[1..], e, cid);
    }
  }

  lemma {:induction false} RemoveAbsent<T(!new)>(rows: seq<Entry<T>>, doomed: set<nat>)
    requires forall k :: 0 <= k < |rows| ==> rows[k].id !in doomed
    ensures RemoveIds(rows, doomed) == rows
  {
    if |rows| > 0 {
      RemoveAbsent(rows[1..], doomed);
    }
  }

  /** Destroying one row by id lowers the count of its content by one and
      leaves every other count alone. */
  lemma {:induction false} CountRemove(rows: seq<Entry<Reaction>>, i: nat, cid: int)
    requires Ascending(rows) && i < |rows|
    ensures CountFor(rows, cid) ==
            CountFor(RemoveIds(rows, {rows[i].id}), cid) + (if rows[i].val.contentId == cid then 1 else 0)
  {
    var d := {rows[i].id};
    assert Ascending(rows[1..]);
    if i == 0 {
      RemoveAbsent(rows[1..], d);
    } else {
      assert rows[0].id < rows[i].id;
      assert rows[1..][i - 1] == rows[i];
      CountRemove(rows[1..], i - 1, cid);
    }
  }

  lemma PairsAppend(rows: seq<Entry<Reaction>>, e: Entry<Reaction>)
    ensures Pairs(rows + [e]) == Pairs(rows) + {e.val}
  {
    var s := rows + [e];
    forall x | x in Pairs(s) ensures x in Pairs(rows) + {e.val} {
      var k :| 0 <= k < |s| && s[k].val == x;
      if k < |rows| { assert rows[k].val == x; }
    }
    forall x | x in Pairs(rows) ensures x in Pairs(s) {
      var k :| 0 <= k < |rows| && rows[k].val == x;
      assert s[k].val == x;
    }
    assert s[|rows|].val == e.val;
  }

  lemma PairsRemove(rows: seq<Entry<Reaction>>, i: nat)
    requires Ascending(rows) && UniquePairs(rows) && i < |rows|
    ensures Pairs(RemoveIds(rows, {rows[i].id})) == Pairs(rows) - {rows[i].val}
  {
    forall x | x in Pairs(RemoveIds(rows, {rows[i].id})) ensures x in Pairs(rows) - {rows[i].val} {
      RemovedPairGone(rows, i, x);
    }
    forall x | x in Pairs(rows) - {rows[i].val} ensures x in Pairs(RemoveIds(rows, {rows[i].id})) {
      OtherPairsStay(rows, i, x);
    }
  }

  lemma RemovedPairGone(rows: seq<Entry<Reaction>>, i: nat, x: Reaction)
    requires UniquePairs(rows) && i < |rows| && x in Pairs(RemoveIds(rows, {rows[i].id}))
    ensures x in Pairs(rows) && x != rows[i].val
  {
    var r := RemoveIds(rows, {rows[i].id});
    var k :| 0 <= k < |r| && r[k].val == x;
    var j := MemberIndex(rows, r[k]);
    OtherRowOtherPair(rows, i, j);
  }

  lemma OtherPairsStay(rows: seq<Entry<Reaction>>, i: nat, x: Reaction)
    requires Ascending(rows) && i < |rows| && x in Pairs(rows) && x != rows[i].val
    ensures x in Pairs(RemoveIds(rows, {rows[i].id}))
  {
    var j :| 0 <= j < |rows| && rows[j].val == x;
    assert rows[j].id != rows[i].id by {
      assert j != i;
      if j < i { assert rows[j].id < rows[i].id; } else { assert rows[i].id < rows[j].id; }
    }
    var r := RemoveIds(rows, {rows[i].id});
    var k := MemberIndex(r, rows[j]);
  }

  /** Under the unique index, two rows with different ids hold different pairs. */
  lemma OtherRowOtherPair(rows: seq<Entry<Reaction>>, i: nat, j: nat)
    requires UniquePairs(rows) && i < |rows| && j < |rows| && rows[j].id != rows[i].id
    ensures rows[j].val != rows[i].val
  {
    if j < i {
      assert rows[j].val != rows[i].val;
    } else {
      assert rows[i].val != rows[j].val;
    }
  }

  /** AddLikes changes only the counter of the row with that id. */
  lemma AddLikesRows(contents: Table<Content>, id: nat, delta: int)
    ensures var r := AddLikes(contents, id, delta);
      && IdsOf(r.rows) == IdsOf(contents.rows) && r.nextId == contents.nextId
      && |r.rows| == |contents.rows|
      && (contents.Valid() ==> r.Valid())
      && forall i :: 0 <= i < |contents.rows| ==>
           r.rows[i] == (if contents.rows[i].id == id
                         then Entry(id, contents.rows[i].val.(likes := contents.rows[i].val.likes + delta))
                         else contents.rows[i])
  {
    var r := AddLikes(contents, id, delta);
    forall k | k in IdsOf(r.rows) ensures k in IdsOf(contents.rows) {
      var i :| 0 <= i < |r.rows| && r.rows[i].id == k;
      assert contents.rows[i].id == k;
    }
    forall k | k in IdsOf(contents.rows) ensures k in IdsOf(r.rows) {
      var i :| 0 <= i < |contents.rows| && contents.rows[i].id == k;
      assert r.rows[i].id == k;
    }
  }

  // ---------------------------------------------------------------------
  // Properties of the toggle

  /** The toggle flips the pair: it unlikes exactly when the pair was
      present, and afterwards the pair is present exactly when it was not.
      No other pair is added or removed, and the unique index still holds. */
  lemma ToggleFlips(likes: Table<Reaction>, contents: Table<Content>, pair: Reaction)
    requires likes.Valid() && UniquePairs(likes.rows) && pair.contentId in IdsOf(contents.rows)
    ensures var t := ToggleLike(likes, contents, pair);
      && (t.outcome == Unliked <==> pair in Pairs(likes.rows))
      && (pair in Pairs(t.likes.rows) <==> pair !in Pairs(likes.rows))
      && Pairs(t.likes.rows) == (if pair in Pairs(likes.rows) then Pairs(likes.rows) - {pair}
                                 else Pairs(likes.rows) + {pair})
      && t.likes.Valid() && UniquePairs(t.likes.rows)
  {
    var t := ToggleLike(likes, contents, pair);
    match FindPair(likes.rows, pair)
    case None =>
      assert pair !in Pairs(likes.rows);
      var e := Entry(likes.nextId, pair);
      PairsAppend(likes.rows, e);
      assert t.likes.rows == likes.rows + [e];
      forall a, b | 0 <= a < b < |t.likes.rows| ensures t.likes.rows[a].val != t.likes.rows[b].val {
        if b < |likes.rows| {
          assert t.likes.rows[a] == likes.rows[a] && t.likes.rows[b] == likes.rows[b];
        } else {
          assert t.likes.rows[a] == likes.rows[a];
        }
      }
    case Some(e) =>
      var i :| 0 <= i < |likes.rows| && likes.rows[i] == e;
      PairsRemove(likes.rows, i);
      RemoveKeepsUnique(likes.rows, {e.id});
  }

  /** `likes_count` of the toggled content moves by exactly one in the
      direction of the toggle; every other row, and every other column of
      that row (`favorite_count` among them), is unchanged. */
  lemma ToggleCounter(likes: Table<Reaction>, contents: Table<Content>, pair: Reaction)
    requires likes.Valid() && contents.Valid() && pair.contentId in IdsOf(contents.rows)
    ensures var t := ToggleLike(likes, contents, pair);
      && t.contents.Valid() && IdsOf(t.contents.rows) == IdsOf(contents.rows)
      && |t.contents.rows| == |contents.rows|
      && forall i :: 0 <= i < |contents.rows| ==>
           t.contents.rows[i] ==
             (if contents.rows[i].id == pair.contentId
              then Entry(pair.contentId, contents.rows[i].val.(likes :=
                     contents.rows[i].val.likes + (if t.outcome == Liked then 1 else -1)))
              else contents.rows[i])
  {
    match FindPair(likes.rows, pair)
    case None => AddLikesRows(contents, pair.contentId, 1);
    case Some(_) => AddLikesRows(contents, pair.contentId, -1);
  }

  /** The counter invariant survives a toggle: if every `likes_count`
      equalled its number of like rows before, it still does after. */
  lemma ToggleKeepsCounters(likes: Table<Reaction>, contents: Table<Content>, pair: Reaction)
    requires likes.Valid() && contents.Valid() && pair.contentId in IdsOf(contents.rows)
    requires CountersMatch(contents, likes)
    ensures var t := ToggleLike(likes, contents, pair); CountersMatch(t.contents, t.likes)
  {
    var t := ToggleLike(likes, contents, pair);
    ToggleCounter(likes, contents, pair);
    var delta := if t.outcome == Liked then 1 else -1;
    forall cid: int
      ensures CountFor(t.likes.rows, cid) ==
              CountFor(likes.rows, cid) + (if cid == pair.contentId then delta else 0)
    {
      match FindPair(likes.rows, pair)
      case None =>
        CountAppend(likes.rows, Entry(likes.nextId, pair), cid);
      case Some(e) =>
        var i :| 0 <= i < |likes.rows| && likes.rows[i] == e;
        CountRemove(likes.rows, i, cid);
    }
    forall i | 0 <= i < |t.contents.rows|
      ensures t.contents.rows[i].val.likes == CountFor(t.likes.rows, t.contents.rows[i].id)
    {
      assert contents.rows[i].val.likes == CountFor(likes.rows, contents.rows[i].id);
    }
  }

  lemma AddLikesTwice(contents: Table<Content>, id: nat, delta: int)
    ensures AddLikes(AddLikes(contents, id, delta), id, -delta) == contents
  {
    var once := AddLikes(contents, id, delta);
    var twice := AddLikes(once, id, -delta);
    AddLikesRows(contents, id, delta);
    AddLikesRows(once, id, -delta);
    forall i | 0 <= i < |contents.rows| ensures twice.rows[i] == contents.rows[i] {
      var v := contents.rows[i].val;
      assert v.(likes := v.likes + delta).(likes := v.likes + delta - delta) == v;
    }
    assert twice.rows == contents.rows;
  }

  /** Toggling the same pair twice restores the set of liked pairs and the
      content table exactly. */
  lemma ToggleTwice(likes: Table<Reaction>, contents: Table<Content>, pair: Reaction)
    requires likes.Valid() && UniquePairs(likes.rows)
    requires contents.Valid() && pair.contentId in IdsOf(contents.rows)
    ensures var t := ToggleLike(likes, contents, pair);
      && t.likes.Valid() && pair.contentId in IdsOf(t.contents.rows)
      && var u := ToggleLike(t.likes, t.contents, pair);
      && Pairs(u.likes.rows) == Pairs(likes.rows)
      && u.contents == contents
      && u.outcome != t.outcome
  {
    var t := ToggleLike(likes, contents, pair);
    ToggleFlips(likes, contents, pair);
    ToggleCounter(likes, contents, pair);
    ToggleFlips(t.likes, t.contents, pair);
    var delta := if t.outcome == Liked then 1 else -1;
    AddLikesTwice(contents, pair.contentId, delta);
  }

  // ---------------------------------------------------------------------
  // The handlers

  lemma AddLikesKeepsRefs(contents: Table<Content>, id: nat, delta: int, users: set<nat>, topics: set<nat>)
    requires ContentRefs(contents.rows, users, topics)
    ensures ContentRefs(AddLikes(contents, id, delta).rows, users, topics)
  {
    var r := AddLikes(contents, id, delta);
    AddLikesRows(contents, id, delta);
    forall i | 0 <= i < |r.rows| ensures ContentRowOk(r.rows[i].val, users, topics, IdsOf(r.rows)) {
      assert ContentRowOk(contents.rows[i].val, users, topics, IdsOf(contents.rows));
    }
  }

  lemma ToggleKeepsReactionRefs(likes: Table<Reaction>, contents: Table<Content>, pair: Reaction, users: set<nat>)
    requires likes.Valid() && ReactionRefs(likes.rows, IdsOf(contents.rows), users)
    requires ReactionRowOk(pair, IdsOf(contents.rows), users)
    ensures var t := ToggleLike(likes, contents, pair);
      ReactionRefs(t.likes.rows, IdsOf(t.contents.rows), users)
  {
    var t := ToggleLike(likes, contents, pair);
    AddLikesRows(contents, pair.contentId, if t.outcome == Liked then 1 else -1);
    forall i | 0 <= i < |t.likes.rows| ensures ReactionRowOk(t.likes.rows[i].val, IdsOf(contents.rows), users) {
      var e := t.likes.rows[i];
      assert e in t.likes.rows;
      if e in likes.rows {
        var j := MemberIndex(likes.rows, e);
      }
    }
  }

  /** Replacing the posts and their likes by tables with the same post ids
      that meet the same constraints keeps the database's integrity. */
  lemma IntegrityWithPosts(db: Db, posts: Table<Content>, likes: Table<Reaction>)
    requires Integrity(db)
    requires posts.Valid() && IdsOf(posts.rows) == IdsOf(db.posts.rows)
    requires ContentRefs(posts.rows, IdsOf(db.users.rows), IdsOf(db.schools.rows))
    requires likes.Valid() && UniquePairs(likes.rows)
    requires ReactionRefs(likes.rows, IdsOf(posts.rows), IdsOf(db.users.rows))
    ensures Integrity(db.(posts := posts, postLikes := likes))
  {
  }

  lemma IntegrityWithQuestions(db: Db, questions: Table<Content>, likes: Table<Reaction>)
    requires Integrity(db)
    requires questions.Valid() && IdsOf(questions.rows) == IdsOf(db.questions.rows)
    requires ContentRefs(questions.rows, IdsOf(db.users.rows), IdsOf(db.categories.rows))
    requires likes.Valid() && UniquePairs(likes.rows)
    requires ReactionRefs(likes.rows, IdsOf(questions.rows), IdsOf(db.users.rows))
    ensures Integrity(db.(questions := questions, questionLikes := likes))
  {
  }

  lemma ToggleKeepsIntegrity(db: Db, pair: Reaction, onPosts: bool)
    requires Integrity(db) && pair.userId in IdsOf(db.users.rows)
    requires pair.contentId in IdsOf((if onPosts then db.posts else db.questions).rows)
    ensures onPosts ==>
      var t := ToggleLike(db.postLikes, db.posts, pair);
      Integrity(db.(posts := t.contents, postLikes := t.likes))
    ensures !onPosts ==>
      var t := ToggleLike(db.questionLikes, db.questions, pair);
      Integrity(db.(questions := t.contents, questionLikes := t.likes))
  {
    var users := IdsOf(db.users.rows);
    if onPosts {
      var t := ToggleLike(db.postLikes, db.posts, pair);
      ToggleFlips(db.postLikes, db.posts, pair);
      AddLikesRows(db.posts, pair.contentId, if t.outcome == Liked then 1 else -1);
      AddLikesKeepsRefs(db.posts, pair.contentId, if t.outcome == Liked then 1 else -1, users, IdsOf(db.schools.rows));
      ToggleKeepsReactionRefs(db.postLikes, db.posts, pair, users);
      IntegrityWithPosts(db, t.contents, t.likes);
    } else {
      var t := ToggleLike(db.questionLikes, db.questions, pair);
      ToggleFlips(db.questionLikes, db.questions, pair);
      AddLikesRows(db.questions, pair.contentId, if t.outcome == Liked then 1 else -1);
      AddLikesKeepsRefs(db.questions, pair.contentId, if t.outcome == Liked then 1 else -1, users, IdsOf(db.categories.rows));
      ToggleKeepsReactionRefs(db.questionLikes, db.questions, pair, users);
      IntegrityWithQuestions(db, t.contents, t.likes);
    }
  }

  /** POST /likedposts: `userId` is the authenticated user, whom the
      authentication middleware has already found. */
  method TogglePostLike(s: Store, userId: nat, postId: Option<int>) returns (r: Result<Toggled>)
    requires s.Valid() && userId in IdsOf(s.users.rows)
    modifies s
    ensures s.Valid()
    ensures !Truthy(postId) || postId.value !in IdsOf(old(s.posts.rows)) ==>
              r == Err(NotFound) && s.State() == old(s.State())
    ensures Truthy(postId) && postId.value in IdsOf(old(s.posts.rows)) ==>
              var t := ToggleLike(old(s.postLikes), old(s.posts), Reaction(postId.value, userId));
              r == Ok(t.outcome) && s.State() == old(s.State()).(postLikes := t.likes, posts := t.contents)
  {
    if !Truthy(postId) {
      return Err(NotFound);
    }
    var post := Find(s.posts.rows, postId.value);
    if post.None? {
      return Err(NotFound);
    }
    var pair := Reaction(postId.value, userId);
    ToggleKeepsIntegrity(s.State(), pair, true);
    var history := FindPair(s.postLikes.rows, pair);
    if history.None? {
      s.postLikes := Insert(s.postLikes, pair);
      s.posts := AddLikes(s.posts, postId.value, 1);
      r := Ok(Liked);
    } else {
      s.postLikes := DeleteIds(s.postLikes, {history.value.id});
      s.posts := AddLikes(s.posts, postId.value, -1);
      r := Ok(Unliked);
    }
  }

  /** POST /likedquestions. */
  method ToggleQuestionLike(s: Store, userId: nat, questionId: Option<int>) returns (r: Result<Toggled>)
    requires s.Valid() && userId in IdsOf(s.users.rows)
    modifies s
    ensures s.Valid()
    ensures !Truthy(questionId) || questionId.value !in IdsOf(old(s.questions.rows)) ==>
              r == Err(NotFound) && s.State() == old(s.State())
    ensures Truthy(questionId) && questionId.value in IdsOf(old(s.questions.rows)) ==>
              var t := ToggleLike(old(s.questionLikes), old(s.questions), Reaction(questionId.value, userId));
              r == Ok(t.outcome) && s.State() == old(s.State()).(questionLikes := t.likes, questions := t.contents)
  {
    if !Truthy(questionId) {
      return Err(NotFound);
    }
    var question := Find(s.questions.rows, questionId.value);
    if question.None? {
      return Err(NotFound);
    }
    var pair := Reaction(questionId.value, userId);
    ToggleKeepsIntegrity(s.State(), pair, false);
    var history := FindPair(s.questionLikes.rows, pair);
    if history.None? {
      s.questionLikes := Insert(s.questionLikes, pair);
      s.questions := AddLikes(s.questions, questionId.value, 1);
      r := Ok(Liked);
    } else {
      s.questionLikes := DeleteIds(s.questionLikes, {history.value.id});
      s.questions := AddLikes(s.questions, questionId.value, -1);
      r := Ok(Unliked);
    }
  }

  // ---------------------------------------------------------------------
  // GET /likedposts and GET /likedquestions

  /** A liked content row as the listing returns it: all of its columns,
      and its parent, if it has one, without `content`. */
  datatype LikedItem = LikedItem(id: nat, row: Content, parent: Option<Summary>)

  function ParentOf(rows: seq<Entry<Content>>, e: Entry<Content>): (p: Option<Summary>)
    ensures p.Some? ==> e.val.parentId == Some(p.value.id)
    ensures e.val.parentId.Some? && Has(rows, e.val.parentId.value) ==> p.Some?
    ensures p.Some? ==> exists i :: 0 <= i < |rows| && rows[i].id == p.value.id && p.value == Summarize(rows[i])
  {
    match e.val.parentId
    case None => None
    case Some(pid) =>
      match Find(rows, pid)
      case None => None
      case Some(v) => Some(Summarize(Entry(pid, v)))
  }

  /** The contents the user has a join row for, in table order. */
  function LikedBy(contents: seq<Entry<Content>>, likes: seq<Entry<Reaction>>, userId: nat): seq<Entry<Content>>
  {
    Select(contents, (e: Entry<Content>) => Reaction(e.id, userId) in Pairs(likes))
  }

  /** The ids of the contents the user has liked. */
  ghost function LikedIds(contents: seq<Entry<Content>>, likes: seq<Entry<Reaction>>, userId: nat): set<nat>
  {
    set i | 0 <= i < |contents| && Reaction(contents[i].id, userId) in Pairs(likes) :: contents[i].id
  }

  /** Each liked row with its parent's summary, position by position. */
  function LikedItems(rows: seq<Entry<Content>>, liked: seq<Entry<Content>>): (r: seq<LikedItem>)
    ensures |r| == |liked|
    ensures forall k :: 0 <= k < |liked| ==>
              r[k].id == liked[k].id && r[k].row == liked[k].val && r[k].parent == ParentOf(rows, liked[k])
  {
    seq(|liked|, k requires 0 <= k < |liked| => LikedItem(liked[k].id, liked[k].val, ParentOf(rows, liked[k])))
  }

  /** The listing: liked contents by id descending, one page of them, and
      the total number of liked contents. */
  function LikedListing(contents: Table<Content>, likes: Table<Reaction>, userId: nat, page: Page): (r: Paginated<LikedItem>)
    requires contents.Valid() && page.currentPage >= 1
    ensures r.total == |LikedBy(contents.rows, likes.rows, userId)|
    ensures PageOf(r.items, LikedItems(contents.rows, NewestFirst(LikedBy(contents.rows, likes.rows, userId))), page)
  {
    Paginate(LikedItems(contents.rows, NewestFirst(LikedBy(contents.rows, likes.rows, userId))), page)
  }

  /** Each liked content is counted once. */
  lemma {:induction false} LikedCount(contents: seq<Entry<Content>>, likes: seq<Entry<Reaction>>, userId: nat)
    requires Ascending(contents)
    ensures |LikedBy(contents, likes, userId)| == |LikedIds(contents, likes, userId)|
  {
    var sel := LikedBy(contents, likes, userId);
    CountIsDistinctIds(sel);
    forall x | x in IdsOf(sel) ensures x in LikedIds(contents, likes, userId) {
      var i :| 0 <= i < |sel| && sel[i].id == x;
      assert sel[i] in sel;
      var j := MemberIndex(contents, sel[i]);
    }
    forall x | x in LikedIds(contents, likes, userId) ensures x in IdsOf(sel) {
      var j :| 0 <= j < |contents| && contents[j].id == x && Reaction(contents[j].id, userId) in Pairs(likes);
      assert contents[j] in sel;
      var i := MemberIndex(sel, contents[j]);
    }
    assert IdsOf(sel) == LikedIds(contents, likes, userId);
  }

  /** `total` is the number of liked contents whatever the page; the page
      holds at most `pageSize` of them, each one the user has liked, with
      its own row, in strictly descending id order. */
  lemma LikedListingSpec(contents: Table<Content>, likes: Table<Reaction>, userId: nat, page: Page)
    requires contents.Valid() && page.currentPage >= 1
    ensures var r := LikedListing(contents, likes, userId, page);
      && r.total == |LikedIds(contents.rows, likes.rows, userId)|
      && |r.items| <= page.pageSize
      && (forall k :: 0 <= k < |r.items| ==>
            && Reaction(r.items[k].id, userId) in Pairs(likes.rows)
            && Entry(r.items[k].id, r.items[k].row) in contents.rows
            && (r.items[k].parent.Some? ==> r.items[k].row.parentId == Some(r.items[k].parent.value.id)))
      && (forall a, b :: 0 <= a < b < |r.items| ==> r.items[a].id > r.items[b].id)
      && PageOf(r.items, LikedItems(contents.rows, NewestFirst(LikedBy(contents.rows, likes.rows, userId))), page)
  {
    var sel := LikedBy(contents.rows, likes.rows, userId);
    var liked := NewestFirst(sel);
    LikedCount(contents.rows, likes.rows, userId);
    var r := LikedListing(contents, likes, userId, page);
    forall k | 0 <= k < |r.items|
      ensures Reaction(r.items[k].id, userId) in Pairs(likes.rows)
      ensures Entry(r.items[k].id, r.items[k].row) in contents.rows
    {
      var e := liked[Offset(page) + k];
      assert e in liked;
      assert e in sel;
    }
    forall a, b | 0 <= a < b < |r.items| ensures r.items[a].id > r.items[b].id {
      assert liked[Offset(page) + a].id > liked[Offset(page) + b].id;
    }
  }

  /** GET /likedposts for the authenticated user. */
  function LikedPosts(db: Db, userId: nat, rawPage: Option<int>, rawSize: Option<int>): (r: Paginated<LikedItem>)
    requires db.posts.Valid()
    ensures r.total == |LikedIds(db.posts.rows, db.postLikes.rows, userId)|
    ensures |r.items| <= r.pageSize
    ensures forall k :: 0 <= k < |r.items| ==> Reaction(r.items[k].id, userId) in Pairs(db.postLikes.rows)
    ensures forall a, b :: 0 <= a < b < |r.items| ==> r.items[a].id > r.items[b].id
    ensures PageOf(r.items, LikedItems(db.posts.rows, NewestFirst(LikedBy(db.posts.rows, db.postLikes.rows, userId))), ParsePage(rawPage, rawSize))
  {
    var page := ParsePage(rawPage, rawSize);
    LikedListingSpec(db.posts, db.postLikes, userId, page);
    LikedListing(db.posts, db.postLikes, userId, page)
  }

  /** GET /likedquestions for the authenticated user. */
  function LikedQuestions(db: Db, userId: nat, rawPage: Option<int>, rawSize: Option<int>): (r: Paginated<LikedItem>)
    requires db.questions.Valid()
    ensures r.total == |LikedIds(db.questions.rows, db.questionLikes.rows, userId)|
    ensures |r.items| <= r.pageSize
    ensures forall k :: 0 <= k < |r.items| ==> Reaction(r.items[k].id, userId) in Pairs(db.questionLikes.rows)
    ensures forall a, b :: 0 <= a < b < |r.items| ==> r.items[a].id > r.items[b].id
    ensures PageOf(r.items, LikedItems(db.questions.rows, NewestFirst(LikedBy(db.questions.rows, db.questionLikes.rows, userId))), ParsePage(rawPage, rawSize))
  {
    var page := ParsePage(rawPage, rawSize);
    LikedListingSpec(db.questions, db.questionLikes, userId, page);
    LikedListing(db.questions, db.questionLikes, userId, page)
  }
}
