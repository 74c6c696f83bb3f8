/** What saving a model instance does (the Sequelize models under models/):
    build the row from the given attributes and the column defaults, run
    the attribute validators and collect every violation, run the
    beforeCreate/beforeUpdate hooks that look up referenced rows, and let
    the database refuse what its own constraints forbid. An update applies
    only the attributes that are given and validates only those that
    change. */
module Records {
  import opened Common
  import opened Tables
  import opened Schema

  /** The validator that failed. */
  datatype Rule =
    | NotNull | NotEmpty | Length | EmailFormat | Taken | UniquenessCheck | OneOf | AtLeast | AtMost

  datatype Violation = Violation(field: string, rule: Rule)

  /** Why a save failed. `Invalid` is a SequelizeValidationError, the only
      kind the routes answer with 400; the others are plain errors. */
  datatype SaveError =
    | Invalid(violations: seq<Violation>)
    /** The password setter threw while the instance was being built. */
    | SetterRejected
    /** A validateForeignKeys hook found no row for this attribute. */
    | MissingReference(field: string)
    /** The database refused the statement: a foreign key, an ENUM value, an
        unsigned column or a unique index. */
    | ConstraintFailed

  datatype Saved<T> = Saved(value: T) | Failed(error: SaveError)

  /** How a route's catch block classifies a failed save. */
  function KindOf(e: SaveError): (k: ErrorKind)
    ensures k == Validation <==> e.Invalid?
    ensures k != Validation ==> k == Unexpected
  {
    if e.Invalid? then Validation else Unexpected
  }

  function Check(ok: bool, field: string, rule: Rule): (r: seq<Violation>)
    ensures r == [] <==> ok
    ensures forall v :: v in r ==> v == Violation(field, rule)
  {
    if ok then [] else [Violation(field, rule)]
  }

  /** A value with its column default applied when it is not given. */
  function Or<X>(v: Option<X>, default: X): X {
    if v.Some? then v.value else default
  }

  /** The value after `instance.update`: a given attribute replaces it, one
      that is not given leaves it alone. */
  function Merge<X>(given: Option<X>, current: X): X {
    if given.Some? then given.value else current
  }

  /** A given attribute that differs from the current value: the only
      attributes an update validates. */
  predicate Changes<X(==)>(given: Option<X>, current: X) {
    given.Some? && given.value != current
  }

  /** An unsigned integer column holds the value only when it is not
      negative; a foreign key holds only when the referenced row exists. */
  predicate Refers(v: Option<int>, ids: set<nat>) {
    v.Some? ==> v.value >= 0 && v.value in ids
  }

  function AsNat(v: Option<int>): Option<nat>
    requires v.Some? ==> v.value >= 0
  {
    if v.Some? then Some(v.value as nat) else None
  }

  // ---------------------------------------------------------------------
  // Users (models/user.js)

  /** The attributes routes/admin/users.js passes to create/update. */
  datatype UserAttrs = UserAttrs(
    email: Option<string>,
    username: Option<string>,
    password: Option<string>,
    nickname: Option<string>,
    sex: Option<int>,
    photo: Option<string>,
    introduce: Option<string>,
    role: Option<int>,
    originalSchoolId: Option<int>,
    targetSchoolId: Option<int>)

  predicate EmailTaken(users: seq<Entry<User>>, email: string) {
    exists i :: 0 <= i < |users| && users[i].val.email == email
  }

  predicate UsernameTaken(users: seq<Entry<User>>, username: string) {
    exists i :: 0 <= i < |users| && users[i].val.username == username
  }

  predicate EmailOk(email: string, users: seq<Entry<User>>, isEmail: string -> bool) {
    email != "" && isEmail(email) && !EmailTaken(users, email)
  }

  predicate UsernameOk(username: string, users: seq<Entry<User>>) {
    username != "" && 2 <= |username| <= 45 && !UsernameTaken(users, username)
  }

  predicate NicknameOk(nickname: string) { nickname != "" && 2 <= |nickname| <= 45 }

  predicate CodeOk(x: int) { x == 0 || x == 1 || x == 2 }

  /** The email validators: non-null, non-empty, an email address, and not
      in use. A duplicate is always reported as a failed uniqueness check,
      since the validator's own catch block replaces the duplicate error
      with that one. */
  function EmailViolations(v: Option<string>, users: seq<Entry<User>>, isEmail: string -> bool): (r: seq<Violation>)
    ensures r == [] <==> v.Some? && EmailOk(v.value, users, isEmail)
    ensures v.None? ==> r == [Violation("email", NotNull)]
    ensures Violation("email", UniquenessCheck) in r <==> v.Some? && EmailTaken(users, v.value)
    ensures Violation("email", Taken) !in r
  {
    if v.None? then [Violation("email", NotNull)]
    else
      Check(v.value != "", "email", NotEmpty) + Check(isEmail(v.value), "email", EmailFormat)
      + Check(!EmailTaken(users, v.value), "email", UniquenessCheck)
  }

  function UsernameViolations(v: Option<string>, users: seq<Entry<User>>): (r: seq<Violation>)
    ensures r == [] <==> v.Some? && UsernameOk(v.value, users)
    ensures Violation("username", Taken) in r <==> v.Some? && UsernameTaken(users, v.value)
  {
    if v.None? then [Violation("username", NotNull)]
    else
      Check(v.value != "", "username", NotEmpty) + Check(2 <= |v.value| <= 45, "username", Length)
      + Check(!UsernameTaken(users, v.value), "username", Taken)
  }

  function NicknameViolations(v: Option<string>): (r: seq<Violation>)
    ensures r == [] <==> v.Some? && NicknameOk(v.value)
  {
    if v.None? then [Violation("nickname", NotNull)]
    else Check(v.value != "", "nickname", NotEmpty) + Check(2 <= |v.value| <= 45, "nickname", Length)
  }

  function SexViolations(v: Option<int>): (r: seq<Violation>)
    ensures r == [] <==> v.Some? && CodeOk(v.value)
  {
    if v.None? then [Violation("sex", NotNull)] else Check(CodeOk(v.value), "sex", OneOf)
  }

  /** Every violation of the fields named in `fields`, field by field. */
  function UserViolations(a: UserAttrs, role: int, users: seq<Entry<User>>, isEmail: string -> bool, fields: set<string>): (r: seq<Violation>)
    ensures r == [] <==>
      && ("email" in fields ==> a.email.Some? && EmailOk(a.email.value, users, isEmail))
      && ("username" in fields ==> a.username.Some? && UsernameOk(a.username.value, users))
      && ("nickname" in fields ==> a.nickname.Some? && NicknameOk(a.nickname.value))
      && ("sex" in fields ==> a.sex.Some? && CodeOk(a.sex.value))
      && ("role" in fields ==> CodeOk(role))
  {
    (if "email" in fields then EmailViolations(a.email, users, isEmail) else [])
    + (if "username" in fields then UsernameViolations(a.username, users) else [])
    + (if "nickname" in fields then NicknameViolations(a.nickname) else [])
    + (if "sex" in fields then SexViolations(a.sex) else [])
    + (if "role" in fields then Check(CodeOk(role), "role", OneOf) else [])
  }

  const UserFields: set<string> := {"email", "username", "nickname", "sex", "role"}

  /** The password setter: a missing or empty password, or one whose length
      is outside [6, 45], throws; otherwise the stored value is its hash. */
  function SetPassword(p: Option<string>, hash: string -> string): (r: Option<string>)
    ensures r.Some? <==> p.Some? && 6 <= |p.value| <= 45
    ensures r.Some? ==> r.value == hash(p.value)
  {
    if p.None? || p.value == "" then None
    else if |p.value| < 6 || |p.value| > 45 then None
    else Some(hash(p.value))
  }

  /** User.create(attrs). */
  function CreateUser(users: seq<Entry<User>>, schools: set<nat>, a: UserAttrs,
                      hash: string -> string, isEmail: string -> bool): (r: Saved<User>)
    ensures r == Failed(SetterRejected) <==> !(a.password.Some? && 6 <= |a.password.value| <= 45)
    ensures r.Failed? && r.error.Invalid? ==>
      r.error.violations == UserViolations(a, Or(a.role, DefaultRole), users, isEmail, UserFields)
    ensures r.Saved? ==>
      var u := r.value;
      && a.email == Some(u.email) && EmailOk(u.email, users, isEmail)
      && a.username == Some(u.username) && UsernameOk(u.username, users)
      && a.nickname == Some(u.nickname) && NicknameOk(u.nickname)
      && a.sex == Some(u.sex) && CodeOk(u.sex)
      && u.role == Or(a.role, DefaultRole) && CodeOk(u.role)
      && u.password == hash(a.password.value)
      && u.photo == a.photo && u.introduce == a.introduce
      && UserRowOk(u, schools)
    ensures r.Saved? <==>
      && a.password.Some? && 6 <= |a.password.value| <= 45
      && UserViolations(a, Or(a.role, DefaultRole), users, isEmail, UserFields) == []
      && Refers(a.targetSchoolId, schools) && (a.originalSchoolId.Some? ==> a.originalSchoolId.value >= 0)
    ensures r == Failed(ConstraintFailed) <==>
      && a.password.Some? && 6 <= |a.password.value| <= 45
      && UserViolations(a, Or(a.role, DefaultRole), users, isEmail, UserFields) == []
      && !(Refers(a.targetSchoolId, schools) && (a.originalSchoolId.Some? ==> a.originalSchoolId.value >= 0))
    ensures r.Saved? ==>
      && r.value.originalSchoolId == a.originalSchoolId
      && (r.value.targetSchoolId.Some? <==> a.targetSchoolId.Some?)
      && (a.targetSchoolId.Some? ==> r.value.targetSchoolId.value as int == a.targetSchoolId.value)
  {
    match SetPassword(a.password, hash)
    case None => Failed(SetterRejected)
    case Some(stored) =>
      var role := Or(a.role, DefaultRole);
      var vs := UserViolations(a, role, users, isEmail, UserFields);
      if vs != [] then Failed(Invalid(vs))
      else if !Refers(a.targetSchoolId, schools) then Failed(ConstraintFailed)
      else if a.originalSchoolId.Some? && a.originalSchoolId.value < 0 then Failed(ConstraintFailed)
      else Saved(User(a.email.value, a.username.value, stored, a.nickname.value, a.sex.value, role,
                      a.photo, a.introduce, a.originalSchoolId, AsNat(a.targetSchoolId)))
  }

  /** The attributes of a user update that change a value. */
  function ChangedUserFields(a: UserAttrs, u: User): (f: set<string>)
    ensures f <= UserFields
  {
    (if Changes(a.email, u.email) then {"email"} else {})
    + (if Changes(a.username, u.username) then {"username"} else {})
    + (if Changes(a.nickname, u.nickname) then {"nickname"} else {})
    + (if Changes(a.sex, u.sex) then {"sex"} else {})
    + (if Changes(a.role, u.role) then {"role"} else {})
  }

  /** A field is validated on update exactly when the update changes it. */
  lemma ChangedUserFieldsExactly(a: UserAttrs, u: User)
    ensures var f := ChangedUserFields(a, u);
      && ("email" in f <==> Changes(a.email, u.email))
      && ("username" in f <==> Changes(a.username, u.username))
      && ("nickname" in f <==> Changes(a.nickname, u.nickname))
      && ("sex" in f <==> Changes(a.sex, u.sex))
      && ("role" in f <==> Changes(a.role, u.role))
  {
    assert "email"[0] != "username"[0] && "email"[0] != "nickname"[0] && "email"[0] != "sex"[0] && "email"[0] != "role"[0];
    assert "username"[0] != "nickname"[0] && "username"[0] != "sex"[0] && "username"[0] != "role"[0];
    assert "nickname"[0] != "sex"[0] && "nickname"[0] != "role"[0] && "sex"[0] != "role"[0];
  }

  /** The attributes an update validates: each given one, or else the
      stored value. */
  function MergedUser(a: UserAttrs, u: User): (m: UserAttrs)
    ensures m.email == Some(Merge(a.email, u.email)) && m.username == Some(Merge(a.username, u.username))
    ensures m.nickname == Some(Merge(a.nickname, u.nickname)) && m.sex == Some(Merge(a.sex, u.sex))
    ensures m.role == Some(Merge(a.role, u.role))
  {
    UserAttrs(Some(Merge(a.email, u.email)), Some(Merge(a.username, u.username)), a.password,
              Some(Merge(a.nickname, u.nickname)), Some(Merge(a.sex, u.sex)),
              a.photo, a.introduce, Some(Merge(a.role, u.role)), a.originalSchoolId, a.targetSchoolId)
  }

  /** Only the changed fields of an update can fail validation. */
  lemma {:induction false} UpdateViolationsExactly(users: seq<Entry<User>>, u: User, a: UserAttrs, isEmail: string -> bool)
    ensures UserViolations(MergedUser(a, u), Merge(a.role, u.role), users, isEmail, ChangedUserFields(a, u)) == [] <==>
      && (Changes(a.email, u.email) ==> EmailOk(a.email.value, users, isEmail))
      && (Changes(a.username, u.username) ==> UsernameOk(a.username.value, users))
      && (Changes(a.nickname, u.nickname) ==> NicknameOk(a.nickname.value))
      && (Changes(a.sex, u.sex) ==> CodeOk(a.sex.value))
      && (Changes(a.role, u.role) ==> CodeOk(a.role.value))
  {
    ChangedUserFieldsExactly(a, u);
  }

  /** The row an accepted update writes: each given attribute replaces
      the stored one, and `stored` is the password column. */
  function UpdatedUser(u: User, a: UserAttrs, stored: string): (v: User)
    requires a.targetSchoolId.Some? ==> a.targetSchoolId.value >= 0
    ensures v.email == Merge(a.email, u.email) && v.username == Merge(a.username, u.username)
    ensures v.nickname == Merge(a.nickname, u.nickname) && v.sex == Merge(a.sex, u.sex)
    ensures v.role == Merge(a.role, u.role) && v.password == stored
    ensures v.photo == (if a.photo.Some? then a.photo else u.photo)
    ensures v.introduce == (if a.introduce.Some? then a.introduce else u.introduce)
    ensures v.originalSchoolId == (if a.originalSchoolId.Some? then a.originalSchoolId else u.originalSchoolId)
    ensures a.targetSchoolId.None? ==> v.targetSchoolId == u.targetSchoolId
    ensures a.targetSchoolId.Some? ==> v.targetSchoolId == Some(a.targetSchoolId.value as nat)
  {
    User(Merge(a.email, u.email), Merge(a.username, u.username), stored, Merge(a.nickname, u.nickname),
         Merge(a.sex, u.sex), Merge(a.role, u.role),
         if a.photo.Some? then a.photo else u.photo,
         if a.introduce.Some? then a.introduce else u.introduce,
         if a.originalSchoolId.Some? then a.originalSchoolId else u.originalSchoolId,
         if a.targetSchoolId.Some? then AsNat(a.targetSchoolId) else u.targetSchoolId)
  }

  /** user.update(attrs) on the stored user `u`. */
  function UpdateUser(users: seq<Entry<User>>, schools: set<nat>, u: User, a: UserAttrs,
                      hash: string -> string, isEmail: string -> bool): (r: Saved<User>)
    ensures r == Failed(SetterRejected) <==> a.password.Some? && !(6 <= |a.password.value| <= 45)
    ensures r.Saved? ==>
      var v := r.value;
      && v.email == Merge(a.email, u.email) && v.username == Merge(a.username, u.username)
      && v.nickname == Merge(a.nickname, u.nickname) && v.sex == Merge(a.sex, u.sex)
      && v.role == Merge(a.role, u.role)
      && v.password == (if a.password.Some? then hash(a.password.value) else u.password)
      && v.photo == (if a.photo.Some? then a.photo else u.photo)
      && (Changes(a.email, u.email) ==> EmailOk(v.email, users, isEmail))
      && (Changes(a.username, u.username) ==> UsernameOk(v.username, users))
      && (Changes(a.nickname, u.nickname) ==> NicknameOk(v.nickname))
      && (Changes(a.sex, u.sex) ==> CodeOk(v.sex))
      && (Changes(a.role, u.role) ==> CodeOk(v.role))
      && (UserRowOk(u, schools) ==> UserRowOk(v, schools))
      && v.introduce == (if a.introduce.Some? then a.introduce else u.introduce)
      && v.originalSchoolId == (if a.originalSchoolId.Some? then a.originalSchoolId else u.originalSchoolId)
      && (a.targetSchoolId.None? ==> v.targetSchoolId == u.targetSchoolId)
      && (a.targetSchoolId.Some? ==> v.targetSchoolId.Some? && v.targetSchoolId.value as int == a.targetSchoolId.value)
    ensures r.Saved? <==>
      && (a.password.Some? ==> 6 <= |a.password.value| <= 45)
      && (Changes(a.email, u.email) ==> EmailOk(a.email.value, users, isEmail))
      && (Changes(a.username, u.username) ==> UsernameOk(a.username.value, users))
      && (Changes(a.nickname, u.nickname) ==> NicknameOk(a.nickname.value))
      && (Changes(a.sex, u.sex) ==> CodeOk(a.sex.value))
      && (Changes(a.role, u.role) ==> CodeOk(a.role.value))
      && Refers(a.targetSchoolId, schools) && (a.originalSchoolId.Some? ==> a.originalSchoolId.value >= 0)
  {
    var stored := if a.password.Some? then SetPassword(a.password, hash) else Some(u.password);
    if stored.None? then Failed(SetterRejected)
    else
      var merged := MergedUser(a, u);
      var vs := UserViolations(merged, merged.role.value, users, isEmail, ChangedUserFields(a, u));
      UpdateViolationsExactly(users, u, a, isEmail);
      ChangedUserFieldsExactly(a, u);
      if vs != [] then Failed(Invalid(vs))
      else if !Refers(a.targetSchoolId, schools) then Failed(ConstraintFailed)
      else if a.originalSchoolId.Some? && a.originalSchoolId.value < 0 then Failed(ConstraintFailed)
      else Saved(UpdatedUser(u, a, stored.value))
  }

  /** An update that gives no attribute saves the user unchanged. */
  lemma EmptyUserUpdate(users: seq<Entry<User>>, schools: set<nat>, u: User, hash: string -> string, isEmail: string -> bool)
    ensures UpdateUser(users, schools, u, UserAttrs(None, None, None, None, None, None, None, None, None, None), hash, isEmail) == Saved(u)
  {
  }

  // ---------------------------------------------------------------------
  // Schools (models/school.js) and categories (models/category.js)

  datatype SchoolAttrs = SchoolAttrs(name: Option<string>, number: Option<int>, introduce: Option<string>)

  function SchoolViolations(a: SchoolAttrs, fields: set<string>): (r: seq<Violation>)
    ensures r == [] <==>
      && ("name" in fields ==> a.name.Some? && a.name.value != "")
      && ("number" in fields ==> a.number.Some? && a.number.value >= 1)
  {
    (if "name" !in fields then []
     else if a.name.None? then [Violation("name", NotNull)] else Check(a.name.value != "", "name", NotEmpty))
    + (if "number" !in fields then []
       else if a.number.None? then [Violation("number", NotNull)] else Check(a.number.value >= 1, "number", AtLeast))
  }

  /** School.create(attrs): a non-empty name and a number of at least 1. */
  function CreateSchool(a: SchoolAttrs): (r: Saved<School>)
    ensures r.Saved? <==> a.name.Some? && a.name.value != "" && a.number.Some? && a.number.value >= 1
    ensures r.Saved? ==> r.value == School(a.name.value, a.number.value, a.introduce)
    ensures r.Failed? ==> r.error.Invalid?
  {
    var vs := SchoolViolations(a, {"name", "number"});
    if vs != [] then Failed(Invalid(vs)) else Saved(School(a.name.value, a.number.value, a.introduce))
  }

  /** school.update(attrs): only a changed name or number is validated. */
  function UpdateSchool(s: School, a: SchoolAttrs): (r: Saved<School>)
    ensures r.Failed? ==> r.error.Invalid?
    ensures r.Saved? <==>
      && (Changes(a.name, s.name) ==> a.name.value != "")
      && (Changes(a.number, s.number) ==> a.number.value >= 1)
    ensures r.Saved? ==> r.value == School(Merge(a.name, s.name), Merge(a.number, s.number),
                                           if a.introduce.Some? then a.introduce else s.introduce)
  {
    var fields := (if Changes(a.name, s.name) then {"name"} else {}) + (if Changes(a.number, s.number) then {"number"} else {});
    var vs := SchoolViolations(a, fields);
    if vs != [] then Failed(Invalid(vs))
    else Saved(School(Merge(a.name, s.name), Merge(a.number, s.number),
                      if a.introduce.Some? then a.introduce else s.introduce))
  }

  datatype CategoryAttrs = CategoryAttrs(name: Option<string>, parentId: Option<int>)

  function CategoryViolations(a: CategoryAttrs, fields: set<string>): (r: seq<Violation>)
    ensures r == [] <==>
      && ("name" in fields ==> a.name.Some? && a.name.value != "")
      && ("parent_id" in fields ==> (a.parentId.Some? ==> a.parentId.value >= 0))
  {
    (if "name" !in fields then []
     else if a.name.None? then [Violation("name", NotNull)] else Check(a.name.value != "", "name", NotEmpty))
    + (if "parent_id" !in fields || a.parentId.None? then [] else Check(a.parentId.value >= 0, "parent_id", AtLeast))
  }

  /** Category.create(attrs): a non-empty name and, when given, a parent id
      of at least 0. Nothing checks that the parent exists. */
  function CreateCategory(a: CategoryAttrs): (r: Saved<Category>)
    ensures r.Saved? <==> a.name.Some? && a.name.value != "" && (a.parentId.Some? ==> a.parentId.value >= 0)
    ensures r.Saved? ==> r.value == Category(a.name.value, a.parentId)
    ensures r.Failed? ==> r.error.Invalid?
  {
    var vs := CategoryViolations(a, {"name", "parent_id"});
    if vs != [] then Failed(Invalid(vs)) else Saved(Category(a.name.value, a.parentId))
  }

  /** category.update(attrs): only changed attributes are validated. */
  function UpdateCategory(c: Category, a: CategoryAttrs): (r: Saved<Category>)
    ensures r.Failed? ==> r.error.Invalid?
    ensures r.Saved? <==>
      && (Changes(a.name, c.name) ==> a.name.value != "")
      && (a.parentId.Some? && Some(a.parentId.value) != c.parentId ==> a.parentId.value >= 0)
    ensures r.Saved? ==> r.value == Category(Merge(a.name, c.name), if a.parentId.Some? then a.parentId else c.parentId)
  {
    var fields := (if Changes(a.name, c.name) then {"name"} else {})
                  + (if a.parentId.Some? && Some(a.parentId.value) != c.parentId then {"parent_id"} else {});
    var vs := CategoryViolations(a, fields);
    if vs != [] then Failed(Invalid(vs))
    else Saved(Category(Merge(a.name, c.name), if a.parentId.Some? then a.parentId else c.parentId))
  }

  // ---------------------------------------------------------------------
  // Posts and questions (models/post.js, models/question.js)

  /** The attributes the content routes pass to create/update. `topicId` is
      `school_id` for a post and `category_id` for a question. */
  datatype ContentAttrs = ContentAttrs(
    title: Option<string>,
    body: Option<string>,
    userId: Option<int>,
    topicId: Option<int>,
    parentId: Option<int>,
    likes: Option<int>,
    views: Option<int>,
    favorites: Option<int>,
    recommended: Option<bool>,
    video: Option<string>,
    kind: Option<int>,
    difficulty: Option<int>,
    status: Option<string>,
    coverImage: Option<string>)

  /** The foreign-key hook (`validateForeignKeys`): the owner must exist,
      then the topic, when it is truthy. */
  function ContentHook(userId: int, topicId: Option<int>, users: set<nat>, topics: set<nat>, topicField: string): (r: Option<SaveError>)
    ensures r.None? <==> userId in users && (Truthy(topicId) ==> topicId.value in topics)
    ensures userId !in users ==> r == Some(MissingReference("user_id"))
    ensures userId in users && r.Some? ==> r == Some(MissingReference(topicField))
  {
    if userId !in users then Some(MissingReference("user_id"))
    else if Truthy(topicId) && topicId.value !in topics then Some(MissingReference(topicField))
    else None
  }

  /** The constraints of the table itself: foreign keys on the topic and
      the parent, and the ENUM of statuses the migration declares. */
  predicate ContentStorable(topicId: Option<int>, parentId: Option<int>, status: string, topics: set<nat>, parents: set<nat>) {
    Refers(topicId, topics) && Refers(parentId, parents) && status in TableStatuses
  }

  /** Post.create / Question.create: the column defaults fill what is not
      given, `title`, `content` and `user_id` must be given, the hook
      checks the owner and the topic, and the table checks the rest. */
  function CreateContent(a: ContentAttrs, users: set<nat>, topics: set<nat>, parents: set<nat>, topicField: string): (r: Saved<Content>)
    ensures r.Failed? && r.error.Invalid? <==> a.title.None? || a.body.None? || a.userId.None?
    ensures r.Saved? ==>
      var v := r.value;
      && ContentRowOk(v, users, topics, parents)
      && Some(v.title) == a.title && Some(v.body) == a.body && Some(v.userId as int) == a.userId
      && v.likes == Or(a.likes, 0) && v.views == Or(a.views, 0) && v.favorites == Or(a.favorites, 0)
      && v.recommended == Or(a.recommended, false) && v.kind == Or(a.kind, DefaultKind)
      && v.status == Or(a.status, DefaultStatus)
    ensures r.Saved? <==>
      && a.title.Some? && a.body.Some? && a.userId.Some? && a.userId.value in users
      && ContentStorable(a.topicId, a.parentId, Or(a.status, DefaultStatus), topics, parents)
  {
    var vs := Check(a.title.Some?, "title", NotNull) + Check(a.body.Some?, "content", NotNull)
              + Check(a.userId.Some?, "user_id", NotNull);
    if vs != [] then Failed(Invalid(vs))
    else match ContentHook(a.userId.value, a.topicId, users, topics, topicField)
      case Some(e) => Failed(e)
      case None =>
        var status := Or(a.status, DefaultStatus);
        if !ContentStorable(a.topicId, a.parentId, status, topics, parents) then Failed(ConstraintFailed)
        else Saved(Content(a.title.value, a.body.value, a.userId.value as nat, AsNat(a.topicId), AsNat(a.parentId),
                           a.video, Or(a.kind, DefaultKind), a.difficulty, Or(a.likes, 0), Or(a.views, 0),
                           Or(a.favorites, 0), Or(a.recommended, false), status, a.coverImage))
  }

  /** The row `instance.update(attrs)` writes: every given attribute
      replaces the stored one. */
  function MergeContent(v: Content, a: ContentAttrs): (m: ContentAttrs)
    ensures m.title.Some? && m.body.Some? && m.userId.Some? && m.status.Some?
    ensures m.userId.value >= 0
  {
    ContentAttrs(Some(Merge(a.title, v.title)), Some(Merge(a.body, v.body)),
                 Some(if a.userId.Some? && a.userId.value >= 0 then a.userId.value else v.userId),
                 if a.topicId.Some? then a.topicId else (if v.topicId.Some? then Some(v.topicId.value as int) else None),
                 if a.parentId.Some? then a.parentId else (if v.parentId.Some? then Some(v.parentId.value as int) else None),
                 Some(Merge(a.likes, v.likes)), Some(Merge(a.views, v.views)), Some(Merge(a.favorites, v.favorites)),
                 Some(Merge(a.recommended, v.recommended)),
                 if a.video.Some? then a.video else v.video,
                 Some(Merge(a.kind, v.kind)),
                 if a.difficulty.Some? then a.difficulty else v.difficulty,
                 Some(Merge(a.status, v.status)),
                 if a.coverImage.Some? then a.coverImage else v.coverImage)
  }

  /** post.update / question.update with attributes that carry no
      `user_id` (neither route's whitelist has one): no attribute can be
      null, so nothing fails validation; the hook checks the owner and a
      truthy topic, and the table checks the rest. */
  function UpdateContent(v: Content, a: ContentAttrs, users: set<nat>, topics: set<nat>, parents: set<nat>, topicField: string): (r: Saved<Content>)
    requires a.userId.None?
    ensures r.Failed? ==> !r.error.Invalid?
    ensures r.Saved? ==>
      var w := r.value;
      && ContentRowOk(w, users, topics, parents)
      && w.userId == v.userId
      && w.title == Merge(a.title, v.title) && w.body == Merge(a.body, v.body)
      && w.likes == Merge(a.likes, v.likes) && w.views == Merge(a.views, v.views)
      && w.favorites == Merge(a.favorites, v.favorites) && w.recommended == Merge(a.recommended, v.recommended)
      && w.status == Merge(a.status, v.status) && w.kind == Merge(a.kind, v.kind)
      && (a.topicId.None? ==> w.topicId == v.topicId) && (a.parentId.None? ==> w.parentId == v.parentId)
    ensures (&& ContentRowOk(v, users, topics, parents) && a.topicId.None? && a.parentId.None?
             && (a.status.Some? ==> a.status.value in TableStatuses)) ==> r.Saved?
    ensures r.Saved? <==>
      && v.userId in users
      && ContentStorable(MergeContent(v, a).topicId, MergeContent(v, a).parentId, Merge(a.status, v.status), topics, parents)
    ensures r.Saved? ==>
      var w := r.value;
      && (a.topicId.Some? ==> w.topicId.Some? && w.topicId.value as int == a.topicId.value)
      && (a.parentId.Some? ==> w.parentId.Some? && w.parentId.value as int == a.parentId.value)
      && w.video == (if a.video.Some? then a.video else v.video)
      && w.difficulty == (if a.difficulty.Some? then a.difficulty else v.difficulty)
      && w.coverImage == (if a.coverImage.Some? then a.coverImage else v.coverImage)
    ensures r.Failed? && v.userId !in users ==> r.error == MissingReference("user_id")
  {
    var m := MergeContent(v, a);
    match ContentHook(m.userId.value, m.topicId, users, topics, topicField)
    case Some(e) => Failed(e)
    case None =>
      if !ContentStorable(m.topicId, m.parentId, m.status.value, topics, parents) then Failed(ConstraintFailed)
      else Saved(Content(m.title.value, m.body.value, m.userId.value as nat, AsNat(m.topicId), AsNat(m.parentId),
                         m.video, m.kind.value, m.difficulty, m.likes.value, m.views.value,
                         m.favorites.value, m.recommended.value, m.status.value, m.coverImage))
  }

  // ---------------------------------------------------------------------
  // Join rows (models/postlike.js, postfavorite.js, questionlike.js,
  // questionfavorite.js, schoolcategory.js)

  datatype ReactionAttrs = ReactionAttrs(contentId: Option<int>, userId: Option<int>)

  /** The hook of a join row: the content is looked up first, then the user. */
  function ReactionHook(contentId: int, userId: int, contents: set<nat>, users: set<nat>, contentField: string): (r: Option<SaveError>)
    ensures r.None? <==> contentId in contents && userId in users
    ensures contentId !in contents ==> r == Some(MissingReference(contentField))
    ensures contentId in contents && userId !in users ==> r == Some(MissingReference("user_id"))
  {
    if contentId !in contents then Some(MissingReference(contentField))
    else if userId !in users then Some(MissingReference("user_id"))
    else None
  }

  /** Create of a join row: both ids must be given; the hook checks the
      content then the user; the unique (content, user) index refuses a
      second row for a pair. */
  function CreateReaction(rows: seq<Entry<Reaction>>, a: ReactionAttrs, contents: set<nat>, users: set<nat>, contentField: string): (r: Saved<Reaction>)
    ensures r.Failed? && r.error.Invalid? <==> a.contentId.None? || a.userId.None?
    ensures r.Saved? <==>
      && a.contentId.Some? && a.userId.Some? && a.contentId.value in contents && a.userId.value in users
      && Reaction(a.contentId.value as nat, a.userId.value as nat) !in Pairs(rows)
    ensures r.Saved? ==> ReactionRowOk(r.value, contents, users)
                         && r.value == Reaction(a.contentId.value as nat, a.userId.value as nat)
  {
    var vs := Check(a.contentId.Some?, contentField, NotNull) + Check(a.userId.Some?, "user_id", NotNull);
    if vs != [] then Failed(Invalid(vs))
    else match ReactionHook(a.contentId.value, a.userId.value, contents, users, contentField)
      case Some(e) => Failed(e)
      case None =>
        var pair := Reaction(a.contentId.value as nat, a.userId.value as nat);
        if pair in Pairs(rows) then Failed(ConstraintFailed) else Saved(pair)
  }

  /** Update of the join row `id` holding `v`: the given ids replace the
      stored ones, the hook checks the result, and the unique index refuses
      a pair another row already holds. */
  function UpdateReaction(rows: seq<Entry<Reaction>>, id: nat, v: Reaction, a: ReactionAttrs,
                          contents: set<nat>, users: set<nat>, contentField: string): (r: Saved<Reaction>)
    ensures r.Failed? ==> !r.error.Invalid?
    ensures r.Saved? ==>
      && ReactionRowOk(r.value, contents, users)
      && r.value.contentId as int == Merge(a.contentId, v.contentId as int)
      && r.value.userId as int == Merge(a.userId, v.userId as int)
      && forall i :: 0 <= i < |rows| && rows[i].id != id ==> rows[i].val != r.value
    ensures var c := Merge(a.contentId, v.contentId as int);
      var u := Merge(a.userId, v.userId as int);
      r.Saved? <==>
        && c in contents && u in users
        && forall i :: 0 <= i < |rows| && rows[i].id != id ==>
             !(rows[i].val.contentId as int == c && rows[i].val.userId as int == u)
    ensures var c := Merge(a.contentId, v.contentId as int);
      c !in contents ==> r == Failed(MissingReference(contentField))
  {
    var c := Merge(a.contentId, v.contentId as int);
    var u := Merge(a.userId, v.userId as int);
    match ReactionHook(c, u, contents, users, contentField)
    case Some(e) => Failed(e)
    case None =>
      var pair := Reaction(c as nat, u as nat);
      if exists i :: 0 <= i < |rows| && rows[i].id != id && rows[i].val == pair then Failed(ConstraintFailed)
      else Saved(pair)
  }

  datatype LinkAttrs = LinkAttrs(categoryId: Option<int>, schoolId: Option<int>, examFrequency: Option<int>)

  predicate FrequencyOk(f: int) { 1 <= f <= 5 }

  /** SchoolCategory.create(attrs): both ids given, `exam_frequency`
      defaulting to 3 and within [1, 5]; the hook checks the category, then
      the school; the unique index refuses a second row for a pair. */
  function CreateLink(rows: seq<Entry<SchoolCategory>>, a: LinkAttrs, categories: set<nat>, schools: set<nat>): (r: Saved<SchoolCategory>)
    ensures r.Failed? && r.error.Invalid? <==>
      a.categoryId.None? || a.schoolId.None? || !FrequencyOk(Or(a.examFrequency, DefaultExamFrequency))
    ensures r.Saved? ==>
      && LinkRowOk(r.value, categories, schools) && FrequencyOk(r.value.examFrequency)
      && r.value.examFrequency == Or(a.examFrequency, DefaultExamFrequency)
      && Some(r.value.categoryId as int) == a.categoryId && Some(r.value.schoolId as int) == a.schoolId
      && forall i :: 0 <= i < |rows| ==> !SameLink(rows[i].val, r.value)
    ensures r.Saved? <==>
      && a.categoryId.Some? && a.schoolId.Some? && FrequencyOk(Or(a.examFrequency, DefaultExamFrequency))
      && a.categoryId.value in categories && a.schoolId.value in schools
      && forall i :: 0 <= i < |rows| ==>
           !(rows[i].val.categoryId as int == a.categoryId.value && rows[i].val.schoolId as int == a.schoolId.value)
    ensures (&& a.categoryId.Some? && a.schoolId.Some? && FrequencyOk(Or(a.examFrequency, DefaultExamFrequency))
             && a.categoryId.value !in categories) ==> r == Failed(MissingReference("category_id"))
    ensures (&& a.categoryId.Some? && a.schoolId.Some? && FrequencyOk(Or(a.examFrequency, DefaultExamFrequency))
             && a.categoryId.value in categories && a.schoolId.value !in schools) ==> r == Failed(MissingReference("school_id"))
  {
    var f := Or(a.examFrequency, DefaultExamFrequency);
    var vs := Check(a.categoryId.Some?, "category_id", NotNull) + Check(a.schoolId.Some?, "school_id", NotNull)
              + Check(f >= 1, "exam_frequency", AtLeast) + Check(f <= 5, "exam_frequency", AtMost);
    if vs != [] then Failed(Invalid(vs))
    else if a.categoryId.value !in categories then Failed(MissingReference("category_id"))
    else if a.schoolId.value !in schools then Failed(MissingReference("school_id"))
    else
      var link := SchoolCategory(a.categoryId.value as nat, a.schoolId.value as nat, f);
      if exists i :: 0 <= i < |rows| && SameLink(rows[i].val, link) then Failed(ConstraintFailed)
      else Saved(link)
  }

  /** schoolCategory.update(attrs) on row `id` holding `v`. */
  function UpdateLink(rows: seq<Entry<SchoolCategory>>, id: nat, v: SchoolCategory, a: LinkAttrs,
                      categories: set<nat>, schools: set<nat>): (r: Saved<SchoolCategory>)
    ensures r.Saved? ==>
      && LinkRowOk(r.value, categories, schools)
      && r.value.examFrequency == Merge(a.examFrequency, v.examFrequency)
      && (Changes(a.examFrequency, v.examFrequency) ==> FrequencyOk(r.value.examFrequency))
      && forall i :: 0 <= i < |rows| && rows[i].id != id ==> !SameLink(rows[i].val, r.value)
    ensures (&& a == LinkAttrs(None, None, None) && LinkRowOk(v, categories, schools)
             && (forall i :: 0 <= i < |rows| && rows[i].id != id ==> !SameLink(rows[i].val, v))) ==> r == Saved(v)
    ensures r.Saved? ==>
      && r.value.categoryId as int == Merge(a.categoryId, v.categoryId as int)
      && r.value.schoolId as int == Merge(a.schoolId, v.schoolId as int)
    ensures var c := Merge(a.categoryId, v.categoryId as int);
      var s := Merge(a.schoolId, v.schoolId as int);
      r.Saved? <==>
        && (Changes(a.examFrequency, v.examFrequency) ==> FrequencyOk(a.examFrequency.value))
        && c in categories && s in schools
        && forall i :: 0 <= i < |rows| && rows[i].id != id ==>
             !(rows[i].val.categoryId as int == c && rows[i].val.schoolId as int == s)
    ensures r.Failed? && r.error.Invalid? <==>
      Changes(a.examFrequency, v.examFrequency) && !FrequencyOk(a.examFrequency.value)
  {
    var c := Merge(a.categoryId, v.categoryId as int);
    var s := Merge(a.schoolId, v.schoolId as int);
    var f := Merge(a.examFrequency, v.examFrequency);
    var vs := if Changes(a.examFrequency, v.examFrequency)
              then Check(f >= 1, "exam_frequency", AtLeast) + Check(f <= 5, "exam_frequency", AtMost) else [];
    if vs != [] then Failed(Invalid(vs))
    else if c !in categories then Failed(MissingReference("category_id"))
    else if s !in schools then Failed(MissingReference("school_id"))
    else
      var link := SchoolCategory(c as nat, s as nat, f);
      if exists i :: 0 <= i < |rows| && rows[i].id != id && SameLink(rows[i].val, link) then Failed(ConstraintFailed)
      else Saved(link)
  }
}
