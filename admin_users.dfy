/** The admin user routes (routes/admin/users.js). The request body is
    reduced to the ten whitelisted attributes, which is the shape of
    `Records.UserAttrs`; the password hash and the email-format test are
    parameters. */
module AdminUsers {
  import opened Common
  import opened Tables
  import opened Schema
  import opened Queries
  import opened Paging
  import Records
  import opened Writes
  import opened Cascade
  import opened Storage
  import opened AdminCommon

  function UsernameFilter(q: Option<string>): Entry<User> -> bool {
    (e: Entry<User>) => Like(e.val.username, q)
  }

  lemma NoUsernameSelectsAll(rows: seq<Entry<User>>, q: Option<string>)
    ensures !Filled(q) ==> Select(rows, UsernameFilter(q)) == rows
  {
    if !Filled(q) {
      SelectAll(rows, UsernameFilter(q));
    }
  }

  /** GET /admin/users: newest first, paged, filtered by a username
      substring only when one is given. */
  function ListByUsername(db: Db, username: Option<string>, rawPage: Option<int>, rawSize: Option<int>): (r: Paginated<Entry<User>>)
    requires db.users.Valid()
    ensures r.total == |Select(db.users.rows, UsernameFilter(username))|
    ensures !Filled(username) ==> r.total == |db.users.rows|
    ensures |r.items| <= r.pageSize
    ensures forall e :: e in r.items ==> e in db.users.rows && Like(e.val.username, username)
    ensures forall a, b :: 0 <= a < b < |r.items| ==> r.items[a].id > r.items[b].id
    ensures PageOf(r.items, NewestFirst(Select(db.users.rows, UsernameFilter(username))), ParsePage(rawPage, rawSize))
  {
    NoUsernameSelectsAll(db.users.rows, username);
    ListNewest(db.users.rows, UsernameFilter(username), rawPage, rawSize)
  }

  /** In a table with unique emails, every row other than the one with
      `id` has an email different from that row's. */
  lemma {:induction false} KeptEmailStaysUnique(rows: seq<Entry<User>>, id: int)
    requires Ascending(rows) && UniqueEmails(rows) && Lookup(rows, id).Ok?
    ensures forall i :: 0 <= i < |rows| && rows[i].id != id ==> rows[i].val.email != Lookup(rows, id).value.val.email
  {
    var e := Lookup(rows, id).value;
    var k :| 0 <= k < |rows| && rows[k] == e;
    forall i | 0 <= i < |rows| && rows[i].id != id
      ensures rows[i].val.email != e.val.email
    {
      if i < k {
        assert rows[i].val.email != rows[k].val.email;
      } else {
        assert k < i;
        assert rows[k].val.email != rows[i].val.email;
      }
    }
  }

  /** POST /admin/users: the user as `User.create` saves it. A validation
      failure is reported as one; the password setter's error and a
      missing target school are unexpected errors. An email already in use
      is always refused. */
  method CreateUser(s: Store, a: Records.UserAttrs, hash: string -> string, isEmail: string -> bool)
      returns (r: Result<Entry<User>>)
    requires s.Valid()
    modifies s
    ensures s.Valid()
    ensures var saved := Records.CreateUser(old(s.users.rows), old(IdsOf(s.schools.rows)), a, hash, isEmail);
      && (saved.Saved? ==> r == Ok(Entry(old(s.users.nextId), saved.value))
                           && s.State() == old(s.State()).(users := Insert(old(s.users), saved.value)))
      && (saved.Failed? ==> r == Err(Records.KindOf(saved.error)) && s.State() == old(s.State()))
    ensures a.email.Some? && Records.EmailTaken(old(s.users.rows), a.email.value) ==> r.Err?
    ensures r.Ok? ==> r.value.val.role == (if a.role.Some? then a.role.value else DefaultRole)
    ensures (&& a.password.Some? && 6 <= |a.password.value| <= 45
             && Records.UserViolations(a, Records.Or(a.role, DefaultRole), old(s.users.rows), isEmail, Records.UserFields) == []
             && Records.Refers(a.targetSchoolId, old(IdsOf(s.schools.rows)))
             && (a.originalSchoolId.Some? ==> a.originalSchoolId.value >= 0)) ==> r.Ok?
  {
    var saved := Records.CreateUser(s.users.rows, IdsOf(s.schools.rows), a, hash, isEmail);
    match saved
    case Failed(e) =>
      r := Err(Records.KindOf(e));
    case Saved(v) =>
      InsertUserKeepsIntegrity(s.State(), v);
      r := Ok(Entry(s.users.nextId, v));
      s.users := Insert(s.users, v);
  }

  /** PUT /admin/users/:id: an unknown id is an unexpected error; then
      `user.update(body)`, which validates only the attributes the body
      changes. The emails stay unique. */
  method UpdateUser(s: Store, id: int, a: Records.UserAttrs, hash: string -> string, isEmail: string -> bool)
      returns (r: Result<Entry<User>>)
    requires s.Valid()
    modifies s
    ensures s.Valid()
    ensures var found := Lookup(old(s.users.rows), id);
      && (found.Err? ==> r == Err(Unexpected) && s.State() == old(s.State()))
      && (found.Ok? ==>
            var saved := Records.UpdateUser(old(s.users.rows), old(IdsOf(s.schools.rows)), found.value.val, a, hash, isEmail);
            && (saved.Saved? ==> r == Ok(Entry(found.value.id, saved.value))
                                 && s.State() == old(s.State()).(users := Update(old(s.users), id, saved.value)))
            && (saved.Failed? ==> r == Err(Records.KindOf(saved.error)) && s.State() == old(s.State())))
    ensures r.Ok? ==> forall i :: 0 <= i < |old(s.users.rows)| && old(s.users.rows)[i].id != id ==>
                        old(s.users.rows)[i].val.email != r.value.val.email
  {
    var found := Lookup(s.users.rows, id);
    if found.Err? {
      return Err(Unexpected);
    }
    var u := found.value.val;
    var saved := Records.UpdateUser(s.users.rows, IdsOf(s.schools.rows), u, a, hash, isEmail);
    match saved
    case Failed(e) =>
      r := Err(Records.KindOf(e));
    case Saved(v) =>
      if !Records.Changes(a.email, u.email) {
        KeptEmailStaysUnique(s.users.rows, id);
      }
      UpdateUserKeepsIntegrity(s.State(), id, v);
      r := Ok(Entry(found.value.id, v));
      s.users := Update(s.users, id, v);
  }

  /** DELETE /admin/users/:id: an unknown id is an unexpected error;
      otherwise the user goes with everything they own. */
  method DeleteUser(s: Store, id: int) returns (r: Result<()>)
    requires s.Valid()
    modifies s
    ensures s.Valid()
    ensures var found := Lookup(old(s.users.rows), id);
      && (found.Err? ==> r == Err(Unexpected) && s.State() == old(s.State()))
      && (found.Ok? ==> r == Ok(()) && s.State() == Cascade.DeleteUser(old(s.State()), found.value.id))
  {
    var found := Lookup(s.users.rows, id);
    if found.Err? {
      return Err(Unexpected);
    }
    DeleteUserKeepsIntegrity(s.State(), found.value.id);
    s.Commit(Cascade.DeleteUser(s.State(), found.value.id));
    r := Ok(());
  }
}
