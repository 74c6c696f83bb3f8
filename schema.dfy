/** The entities of the forum's relational store, their column defaults and
    enumerations, and the referential constraints the migrations declare. */
module Schema {
  import opened Common
  import opened Tables

  /** A Users row. `password` holds the stored hash, never the plaintext. */
  datatype User = User(
    email: string,
    username: string,
    password: string,
    nickname: string,
    sex: int,
    role: int,
    photo: Option<string>,
    introduce: Option<string>,
    originalSchoolId: Option<int>,
    targetSchoolId: Option<nat>)

  const RoleNormal: int := 0
  const RoleAdmin: int := 1
  const RoleBanned: int := 2

  datatype School = School(name: string, number: int, introduce: Option<string>)

  /** A Categories row; a null `parentId` marks a top-level category. */
  datatype Category = Category(name: string, parentId: Option<int>)

  /** A Posts or Questions row. The two tables are parallel: `topicId` is
      `school_id` for a post and `category_id` for a question; `difficulty`
      is only set on questions and `coverImage` only on posts. A null
      `parentId` marks a root; otherwise the row is a reply. */
  datatype Content = Content(
    title: string,
    body: string,
    userId: nat,
    topicId: Option<nat>,
    parentId: Option<nat>,
    video: Option<string>,
    kind: int,
    difficulty: Option<int>,
    likes: int,
    views: int,
    favorites: int,
    recommended: bool,
    status: string,
    coverImage: Option<string>)

  /** A PostLike, PostFavorite, QuestionLike or QuestionFavorite row. */
  datatype Reaction = Reaction(contentId: nat, userId: nat)

  datatype SchoolCategory = SchoolCategory(categoryId: nat, schoolId: nat, examFrequency: int)

  /** Column defaults of the Posts and Questions tables and models. */
  const DefaultKind: int := 1
  const DefaultStatus: string := "published"
  const DefaultRole: int := 0
  const DefaultExamFrequency: int := 3

  /** The status values the Sequelize models declare ... */
  const ModelStatuses: set<string> := {"published", "draft", "archived"}
  /** ... and the ones the migrations give the table's ENUM column. */
  const TableStatuses: set<string> := {"published", "draft", "ban"}

  /** The whole store: one table per entity and per join. */
  datatype Db = Db(
    users: Table<User>,
    schools: Table<School>,
    categories: Table<Category>,
    posts: Table<Content>,
    questions: Table<Content>,
    postLikes: Table<Reaction>,
    postFavorites: Table<Reaction>,
    questionLikes: Table<Reaction>,
    questionFavorites: Table<Reaction>,
    schoolCategories: Table<SchoolCategory>)

  /** A Posts or Questions row satisfies its table's declared constraints:
      an existing owner, an existing topic and parent when they are set
      (`parents` is the id set of the same table), and a status the ENUM
      column accepts. */
  predicate ContentRowOk(v: Content, users: set<nat>, topics: set<nat>, parents: set<nat>) {
    && v.userId in users
    && (v.topicId.Some? ==> v.topicId.value in topics)
    && (v.parentId.Some? ==> v.parentId.value in parents)
    && v.status in TableStatuses
  }

  ghost predicate ContentRefs(rows: seq<Entry<Content>>, users: set<nat>, topics: set<nat>) {
    forall i :: 0 <= i < |rows| ==> ContentRowOk(rows[i].val, users, topics, IdsOf(rows))
  }

  /** A join row references existing content and an existing user. */
  predicate ReactionRowOk(v: Reaction, contents: set<nat>, users: set<nat>) {
    v.contentId in contents && v.userId in users
  }

  ghost predicate ReactionRefs(rows: seq<Entry<Reaction>>, contents: set<nat>, users: set<nat>) {
    forall i :: 0 <= i < |rows| ==> ReactionRowOk(rows[i].val, contents, users)
  }

  /** The unique (content_id, user_id) index of a join table. */
  ghost predicate UniquePairs(rows: seq<Entry<Reaction>>) {
    forall i, j :: 0 <= i < j < |rows| ==> rows[i].val != rows[j].val
  }

  predicate SameLink(a: SchoolCategory, b: SchoolCategory) {
    a.categoryId == b.categoryId && a.schoolId == b.schoolId
  }

  /** The unique (category_id, school_id) index of SchoolCategories. */
  ghost predicate UniqueLinks(rows: seq<Entry<SchoolCategory>>) {
    forall i, j :: 0 <= i < j < |rows| ==> !SameLink(rows[i].val, rows[j].val)
  }

  predicate LinkRowOk(v: SchoolCategory, categories: set<nat>, schools: set<nat>) {
    v.categoryId in categories && v.schoolId in schools
  }

  ghost predicate LinkRefs(rows: seq<Entry<SchoolCategory>>, categories: set<nat>, schools: set<nat>) {
    forall i :: 0 <= i < |rows| ==> LinkRowOk(rows[i].val, categories, schools)
  }

  predicate UserRowOk(v: User, schools: set<nat>) {
    v.targetSchoolId.Some? ==> v.targetSchoolId.value in schools
  }

  ghost predicate UserRefs(rows: seq<Entry<User>>, schools: set<nat>) {
    forall i :: 0 <= i < |rows| ==> UserRowOk(rows[i].val, schools)
  }

  /** The unique index on Users.email. */
  ghost predicate UniqueEmails(rows: seq<Entry<User>>) {
    forall i, j :: 0 <= i < j < |rows| ==> rows[i].val.email != rows[j].val.email
  }

  ghost predicate TablesValid(db: Db) {
    && db.users.Valid() && db.schools.Valid() && db.categories.Valid()
    && db.posts.Valid() && db.questions.Valid()
    && db.postLikes.Valid() && db.postFavorites.Valid()
    && db.questionLikes.Valid() && db.questionFavorites.Valid()
    && db.schoolCategories.Valid()
  }

  /** What the store's keys, foreign keys, ENUM columns and unique indexes
      guarantee about every state the store can be in. */
  ghost predicate Integrity(db: Db) {
    var users := IdsOf(db.users.rows);
    var posts := IdsOf(db.posts.rows);
    var questions := IdsOf(db.questions.rows);
    && TablesValid(db)
    && UserRefs(db.users.rows, IdsOf(db.schools.rows))
    && UniqueEmails(db.users.rows)
    && ContentRefs(db.posts.rows, users, IdsOf(db.schools.rows))
    && ContentRefs(db.questions.rows, users, IdsOf(db.categories.rows))
    && ReactionRefs(db.postLikes.rows, posts, users)
    && ReactionRefs(db.postFavorites.rows, posts, users)
    && ReactionRefs(db.questionLikes.rows, questions, users)
    && ReactionRefs(db.questionFavorites.rows, questions, users)
    && UniquePairs(db.postLikes.rows) && UniquePairs(db.postFavorites.rows)
    && UniquePairs(db.questionLikes.rows) && UniquePairs(db.questionFavorites.rows)
    && LinkRefs(db.schoolCategories.rows, IdsOf(db.categories.rows), IdsOf(db.schools.rows))
    && UniqueLinks(db.schoolCategories.rows)
  }

  /** findOne({ where: { content_id, user_id } }): the first row for the pair. */
  function FindPair(rows: seq<Entry<Reaction>>, pair: Reaction): (r: Option<Entry<Reaction>>)
    ensures r.Some? ==> r.value in rows && r.value.val == pair
    ensures r.None? ==> forall i :: 0 <= i < |rows| ==> rows[i].val != pair
  {
    if |rows| == 0 then None
    else if rows[0].val == pair then Some(rows[0])
    else FindPair(rows[1..], pair)
  }

  /** The number of join rows that reference content `cid`. */
  function CountFor(rows: seq<Entry<Reaction>>, cid: int): nat
  {
    if |rows| == 0 then 0
    else (if rows[0].val.contentId == cid then 1 else 0) + CountFor(rows[1..], cid)
  }

  /** The pairs a join table holds. */
  function Pairs(rows: seq<Entry<Reaction>>): set<Reaction> {
    set i | 0 <= i < |rows| :: rows[i].val
  }

  /** Deleting rows keeps a join table's pairs unique. */
  lemma RemoveKeepsUnique(rows: seq<Entry<Reaction>>, doomed: set<nat>)
    requires Ascending(rows) && UniquePairs(rows)
    ensures UniquePairs(RemoveIds(rows, doomed))
  {
    var r := RemoveIds(rows, doomed);
    forall a, b | 0 <= a < b < |r| ensures r[a].val != r[b].val {
      assert r[a] in rows && r[b] in rows;
      var x :| 0 <= x < |rows| && rows[x] == r[a];
      var y :| 0 <= y < |rows| && rows[y] == r[b];
      assert r[a].id < r[b].id;
    }
  }
}
