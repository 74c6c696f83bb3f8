/** Admin sign-in (routes/admin/auth.js): a ladder of guards that ends in a
    token or in the first guard that fails. The password comparison is a
    parameter, and the token stands for the signed claim it carries, the
    user's id. */
module AdminAuth {
  import opened Common
  import opened Tables
  import opened Schema
  import opened AdminCommon

  /** The role value that grants access to the admin back office. */
  const AdminRole: int := 1

  /** Why a sign-in was refused, one reason per guard. */
  datatype Denial = MissingLogin | MissingPassword | NoSuchUser | WrongPassword | NotAdmin

  datatype SignedIn = Token(userId: nat) | Denied(reason: Denial)

  /** The kind of error each refusal is thrown as. */
  function KindOf(d: Denial): (k: ErrorKind)
    ensures k == BadRequest <==> d == MissingLogin || d == MissingPassword
    ensures k == NotFound <==> d == NoSuchUser
    ensures k == Unauthorized <==> d == WrongPassword || d == NotAdmin
  {
    match d
    case MissingLogin => BadRequest
    case MissingPassword => BadRequest
    case NoSuchUser => NotFound
    case WrongPassword => Unauthorized
    case NotAdmin => Unauthorized
  }

  predicate LoginMatches(u: User, login: string) {
    u.email == login || u.username == login
  }

  /** `findOne({ where: { [Op.or]: [{ email }, { username }] } })`: the
      first user, in id order, whose email or username is the login. */
  function FindLogin(rows: seq<Entry<User>>, login: string): (r: Option<Entry<User>>)
    requires Ascending(rows)
    ensures r.Some? ==> r.value in rows && LoginMatches(r.value.val, login)
    ensures r.None? <==> forall i :: 0 <= i < |rows| ==> !LoginMatches(rows[i].val, login)
    ensures r.Some? ==> forall i :: 0 <= i < |rows| && rows[i].id < r.value.id ==> !LoginMatches(rows[i].val, login)
  {
    if |rows| == 0 then None
    else if LoginMatches(rows[0].val, login) then Some(rows[0])
    else
      var r := FindLogin(rows[1..], login);
      assert forall i :: 1 <= i < |rows| ==> rows[i] == rows[1..][i - 1];
      r
  }

  /** POST /admin/auth/sign_in. */
  function SignIn(users: seq<Entry<User>>, login: Option<string>, password: Option<string>,
                  passwordMatches: (string, string) -> bool): (r: SignedIn)
    requires Ascending(users)
    ensures !Filled(login) ==> r == Denied(MissingLogin)
    ensures Filled(login) && !Filled(password) ==> r == Denied(MissingPassword)
    ensures r.Denied? && r.reason == NoSuchUser <==>
      Filled(login) && Filled(password) && forall i :: 0 <= i < |users| ==> !LoginMatches(users[i].val, login.value)
    ensures r.Denied? && (r.reason == WrongPassword || r.reason == NotAdmin) ==>
      var found := FindLogin(users, login.value);
      && Filled(login) && Filled(password) && found.Some?
      && (r.reason == WrongPassword <==> !passwordMatches(password.value, found.value.val.password))
    ensures r.Token? ==>
      && Filled(login) && Filled(password)
      && exists i :: 0 <= i < |users| && users[i].id == r.userId
                     && LoginMatches(users[i].val, login.value)
                     && passwordMatches(password.value, users[i].val.password)
                     && users[i].val.role == AdminRole
  {
    if !Filled(login) then Denied(MissingLogin)
    else if !Filled(password) then Denied(MissingPassword)
    else match FindLogin(users, login.value)
      case None => Denied(NoSuchUser)
      case Some(e) =>
        if !passwordMatches(password.value, e.val.password) then Denied(WrongPassword)
        else if e.val.role != AdminRole then Denied(NotAdmin)
        else Token(e.id)
  }

  /** A token is issued exactly when every guard passes for the first user
      the login names. */
  lemma {:induction false} TokenIffAllChecksPass(users: seq<Entry<User>>, login: Option<string>, password: Option<string>,
                                               passwordMatches: (string, string) -> bool, k: nat)
    requires Ascending(users) && k < |users|
    ensures SignIn(users, login, password, passwordMatches) == Token(users[k].id) <==>
      && Filled(login) && Filled(password)
      && LoginMatches(users[k].val, login.value)
      && (forall i :: 0 <= i < k ==> !LoginMatches(users[i].val, login.value))
      && passwordMatches(password.value, users[k].val.password)
      && users[k].val.role == AdminRole
  {
    if Filled(login) && Filled(password) {
      var found := FindLogin(users, login.value);
      if found.Some? {
        var j := MemberIndex(users, found.value);
      } else {
        assert !LoginMatches(users[k].val, login.value);
      }
    }
  }

  /** A user whose password does not match is refused as such whatever
      their role, so the role is never disclosed to a wrong password. */
  lemma WrongPasswordBeforeRole(users: seq<Entry<User>>, login: string, password: string,
                                passwordMatches: (string, string) -> bool)
    requires Ascending(users) && login != "" && password != ""
    requires FindLogin(users, login).Some? && !passwordMatches(password, FindLogin(users, login).value.val.password)
    ensures SignIn(users, Some(login), Some(password), passwordMatches) == Denied(WrongPassword)
  {
  }
}
