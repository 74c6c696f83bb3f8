/** The home page (routes/index.js): four independent lists of at most five
    published posts each, computed for the signed-in user. */
module Home {
  import opened Common
  import opened Tables
  import opened Schema
  import opened Queries

  const HomeListSize: nat := 5

  /** LIMIT k. */
  function Take<X>(s: seq<X>, k: nat): (r: seq<X>)
    ensures |r| == Min(k, |s|)
    ensures forall i :: 0 <= i < |r| ==> r[i] == s[i]
  {
    s[..Min(k, |s|)]
  }

  // ---------------------------------------------------------------------
  // ORDER BY likes_count DESC

  ghost predicate ByLikesDesc(s: seq<Entry<Content>>) {
    forall i, j :: 0 <= i < j < |s| ==> s[i].val.likes >= s[j].val.likes
  }

  /** The head of a list ordered by likes has the most likes. */
  lemma HeadMostLiked(s: seq<Entry<Content>>)
    requires ByLikesDesc(s) && |s| > 0
    ensures forall x :: x in s ==> s[0].val.likes >= x.val.likes
  {
    forall x | x in s ensures s[0].val.likes >= x.val.likes {
      var j :| 0 <= j < |s| && s[j] == x;
      if j > 0 { assert s[0].val.likes >= s[j].val.likes; }
    }
  }

  function InsertByLikes(e: Entry<Content>, s: seq<Entry<Content>>): (r: seq<Entry<Content>>)
    requires ByLikesDesc(s)
    ensures ByLikesDesc(r)
    ensures multiset(r) == multiset(s) + multiset{e}
    ensures forall x :: x in r ==> x in s || x == e
  {
    if |s| == 0 then [e]
    else if s[0].val.likes < e.val.likes then
      HeadMostLiked(s);
      [e] + s
    else
      var rest := InsertByLikes(e, s[1..]);
      assert s == [s[0]] + s[1..];
      HeadMostLiked(s);
      assert forall x :: x in rest ==> s[0].val.likes >= x.val.likes;
      [s[0]] + rest
  }

  /** The rows ordered by `likes_count`, most liked first. */
  function SortByLikes(s: seq<Entry<Content>>): (r: seq<Entry<Content>>)
    ensures ByLikesDesc(r)
    ensures multiset(r) == multiset(s)
  {
    if |s| == 0 then []
    else
      assert s == [s[0]] + s[1..];
      InsertByLikes(s[0], SortByLikes(s[1..]))
  }

  /** WHERE keep ORDER BY likes_count DESC LIMIT k. */
  function MostLiked(rows: seq<Entry<Content>>, keep: Entry<Content> -> bool, k: nat): (r: seq<Entry<Content>>)
    ensures |r| <= k
    ensures forall e :: e in r ==> e in rows && keep(e)
  {
    var sorted := SortByLikes(Select(rows, keep));
    assert forall e :: e in sorted ==> e in Select(rows, keep) by {
      forall e | e in sorted ensures e in Select(rows, keep) {
        assert e in multiset(sorted);
      }
    }
    Take(sorted, k)
  }

  /** The most-liked list holds qualifying rows only, as many as there are
      up to k, most liked first, and no qualifying row left out has more
      likes than any row listed. */
  lemma MostLikedSpec(rows: seq<Entry<Content>>, keep: Entry<Content> -> bool, k: nat)
    ensures var r := MostLiked(rows, keep, k);
      && |r| == Min(k, |Select(rows, keep)|)
      && (forall e :: e in r ==> e in rows && keep(e))
      && ByLikesDesc(r)
      && (forall e, x :: e in rows && keep(e) && e !in r && x in r ==> x.val.likes >= e.val.likes)
  {
    var sel := Select(rows, keep);
    var sorted := SortByLikes(sel);
    var r := MostLiked(rows, keep, k);
    forall e | e in r ensures e in rows && keep(e) {
      assert e in multiset(sorted);
    }
    forall e, x | e in rows && keep(e) && e !in r && x in r ensures x.val.likes >= e.val.likes {
      assert e in multiset(sorted);
      var j :| 0 <= j < |sorted| && sorted[j] == e;
      var i :| 0 <= i < |r| && r[i] == x;
      assert j >= |r|;
    }
  }

  // ---------------------------------------------------------------------
  // ORDER BY createdAt DESC

  /** WHERE keep ORDER BY createdAt DESC LIMIT k, with creation order taken
      to be id order. */
  function Newest(rows: seq<Entry<Content>>, keep: Entry<Content> -> bool, k: nat): (r: seq<Entry<Content>>)
    requires Ascending(rows)
    ensures |r| <= k
    ensures forall e :: e in r ==> e in rows && keep(e)
    ensures Descending(r)
  {
    Take(NewestFirst(Select(rows, keep)), k)
  }

  /** The newest list holds qualifying rows only, as many as there are up to
      k, newest first, and every qualifying row left out is older than
      every row listed. */
  lemma NewestSpec(rows: seq<Entry<Content>>, keep: Entry<Content> -> bool, k: nat)
    requires Ascending(rows)
    ensures var r := Newest(rows, keep, k);
      && |r| == Min(k, |Select(rows, keep)|)
      && (forall e :: e in r ==> e in rows && keep(e))
      && (forall i, j :: 0 <= i < j < |r| ==> r[i].id > r[j].id)
      && (forall e, x :: e in rows && keep(e) && e !in r && x in r ==> x.id > e.id)
  {
    var sel := Select(rows, keep);
    var ordered := NewestFirst(sel);
    var r := Newest(rows, keep, k);
    forall e | e in r ensures e in rows && keep(e) {
      assert e in ordered;
    }
    forall e, x | e in rows && keep(e) && e !in r && x in r ensures x.id > e.id {
      assert e in ordered;
      var j :| 0 <= j < |ordered| && ordered[j] == e;
      var i :| 0 <= i < |r| && r[i] == x;
      assert j >= |r|;
    }
  }

  // ---------------------------------------------------------------------
  // The route

  predicate Published(e: Entry<Content>) { e.val.status == "published" }

  predicate RecommendedRow(e: Entry<Content>) { e.val.recommended && Published(e) }

  predicate OfKind(kind: int, e: Entry<Content>) { e.val.kind == kind && Published(e) }

  /** `school_id: target_school_id` matches a null school id too. */
  predicate OfSchool(school: Option<nat>, e: Entry<Content>) { e.val.topicId == school && Published(e) }

  datatype HomeLists = HomeLists(
    recommended: seq<Entry<Content>>,
    experience: seq<Entry<Content>>,
    analysis: seq<Entry<Content>>,
    school: seq<Entry<Content>>)

  /** GET / : Unauthorized without a signed-in user id, NotFound when the id
      resolves to no user, and otherwise the four lists. No list depends on
      another, and none filters on `parent_id`. */
  function HomePage(db: Db, signedIn: Option<int>): (r: Result<HomeLists>)
    requires db.posts.Valid()
    ensures !Truthy(signedIn) ==> r == Err(Unauthorized)
    ensures Truthy(signedIn) && signedIn.value !in IdsOf(db.users.rows) ==> r == Err(NotFound)
    ensures r.Ok? <==> Truthy(signedIn) && signedIn.value in IdsOf(db.users.rows)
    ensures r.Ok? ==>
      var target := Find(db.users.rows, signedIn.value).value.targetSchoolId;
      && r.value.recommended == MostLiked(db.posts.rows, RecommendedRow, HomeListSize)
      && r.value.experience == Newest(db.posts.rows, e => OfKind(1, e), HomeListSize)
      && r.value.analysis == Newest(db.posts.rows, e => OfKind(2, e), HomeListSize)
      && r.value.school == Newest(db.posts.rows, e => OfSchool(target, e), HomeListSize)
  {
    if !Truthy(signedIn) then Err(Unauthorized)
    else match Find(db.users.rows, signedIn.value)
      case None => Err(NotFound)
      case Some(u) =>
        Ok(HomeLists(
          MostLiked(db.posts.rows, RecommendedRow, HomeListSize),
          Newest(db.posts.rows, e => OfKind(1, e), HomeListSize),
          Newest(db.posts.rows, e => OfKind(2, e), HomeListSize),
          Newest(db.posts.rows, e => OfSchool(u.targetSchoolId, e), HomeListSize)))
  }

  /** What each home list holds: at most five published posts that are
      recommended and most liked; of type 1 and newest; of type 2 and
      newest; of the user's target school (null matching null) and newest. */
  lemma HomePageSpec(db: Db, signedIn: Option<int>)
    requires db.posts.Valid()
    ensures var r := HomePage(db, signedIn);
      r.Ok? ==>
        var target := Find(db.users.rows, signedIn.value).value.targetSchoolId;
        && |r.value.recommended| <= 5 && |r.value.experience| <= 5
        && |r.value.analysis| <= 5 && |r.value.school| <= 5
        && (forall e :: e in r.value.recommended ==> e in db.posts.rows && e.val.recommended && e.val.status == "published")
        && (forall e :: e in r.value.experience ==> e in db.posts.rows && e.val.kind == 1 && e.val.status == "published")
        && (forall e :: e in r.value.analysis ==> e in db.posts.rows && e.val.kind == 2 && e.val.status == "published")
        && (forall e :: e in r.value.school ==> e in db.posts.rows && e.val.topicId == target && e.val.status == "published")
        && ByLikesDesc(r.value.recommended)
  {
    var r := HomePage(db, signedIn);
    if r.Ok? {
      var target := Find(db.users.rows, signedIn.value).value.targetSchoolId;
      MostLikedSpec(db.posts.rows, RecommendedRow, HomeListSize);
      NewestSpec(db.posts.rows, e => OfKind(1, e), HomeListSize);
      NewestSpec(db.posts.rows, e => OfKind(2, e), HomeListSize);
      NewestSpec(db.posts.rows, e => OfSchool(target, e), HomeListSize);
    }
  }
}
