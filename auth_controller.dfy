/** The database-backed auth controller: register, login and the current user's profile. */
module AuthController {
  import opened Common
  import opened UserModel

  const AlreadyExists := "User already exists with this roll number or email"
  const InvalidCredentials := "Invalid credentials"
  const Inactive := "Account is inactive. Please contact administrator."
  const UserNotFound := "User not found"

  /**
   * `register`: 400 when a user with the same roll number or e-mail exists, 500 when the save fails, and
   * otherwise 201 with exactly one new active user named after `username`, with role `role || 'student'`.
   * The collection stays valid. `id` is the new document id, `hash` bcrypt's digest, `sign` the token.
   */
  function RegisterSpec(users: seq<User>, rollNo: Option<string>, username: Option<string>, email: Option<string>,
                        password: Option<string>, role: Option<string>, id: string,
                        hash: string -> string, sign: User -> string): (s: Registration)
    ensures Clashes(users, rollNo, email) <==> s == Registration(users, Fail(400, AlreadyExists))
    ensures s.reply.Fail? ==> s.users == users
    ensures s.reply.Ok? <==>
      !Clashes(users, rollNo, email) && SaveUser(users, id, rollNo, username, email, Digest(password, hash), Or(role, "student")).Saved?
    ensures s.reply.Ok? ==>
      exists u :: && s.users == users + [u]
                  && u == User(id, rollNo.value, username.value, email.value, hash(password.value), u.role, true)
                  && RoleName(u.role) == Or(role, "student")
                  && s.reply == Ok(201, sign(u), ViewOf(u))
    ensures !Clashes(users, rollNo, email) && !s.reply.Ok? ==> s == Registration(users, Fail(500, ServerErrorText))
    ensures ValidUsers(users) ==> ValidUsers(s.users)
  {
    if Clashes(users, rollNo, email) then Registration(users, Fail(400, AlreadyExists))
    else
      match SaveUser(users, id, rollNo, username, email, Digest(password, hash), Or(role, "student"))
      case SaveFailed => Registration(users, Fail(500, ServerErrorText))
      case Saved(u) => Registration(users + [u], Ok(201, sign(u), ViewOf(u)))
  }

  /** `register` on the collection. */
  method Register(coll: UserCollection, rollNo: Option<string>, username: Option<string>, email: Option<string>,
                  password: Option<string>, role: Option<string>, id: string,
                  hash: string -> string, sign: User -> string) returns (r: Reply)
    requires coll.Valid()
    modifies coll
    ensures coll.Valid()
    ensures var s := RegisterSpec(old(coll.users), rollNo, username, email, password, role, id, hash, sign);
            coll.users == s.users && r == s.reply
  {
    if Clashes(coll.users, rollNo, email) {
      return Fail(400, AlreadyExists);
    }
    var saved := SaveUser(coll.users, id, rollNo, username, email, Digest(password, hash), Or(role, "student"));
    if saved.SaveFailed? {
      return Fail(500, ServerErrorText);
    }
    coll.users := coll.users + [saved.user];
    r := Ok(201, sign(saved.user), ViewOf(saved.user));
  }

  /**
   * `login`: 401 "Invalid credentials" for an unknown roll number; 401 "inactive" for an inactive account,
   * whatever the password; 500 when the password is absent (the comparison throws); 401 on a mismatch; and
   * otherwise 200 with a token and the public fields of the user with that roll number.
   */
  function Login(users: seq<User>, rollNo: Option<string>, password: Option<string>,
                 matches: (string, string) -> bool, sign: User -> string): (r: Reply)
    ensures (rollNo.None? || forall i :: 0 <= i < |users| ==> users[i].rollNo != rollNo.value) ==>
      r == Fail(401, InvalidCredentials)
    ensures rollNo.Some? && FindByRollNo(users, rollNo.value).Some? && !users[FindByRollNo(users, rollNo.value).value].isActive ==>
      r == Fail(401, Inactive)
    ensures (rollNo.Some? && FindByRollNo(users, rollNo.value).Some? && users[FindByRollNo(users, rollNo.value).value].isActive
             && password.None?) ==> r == Fail(500, ServerErrorText)
    ensures (rollNo.Some? && FindByRollNo(users, rollNo.value).Some? && users[FindByRollNo(users, rollNo.value).value].isActive
             && password.Some? && !matches(password.value, users[FindByRollNo(users, rollNo.value).value].password)) ==>
      r == Fail(401, InvalidCredentials)
    ensures r.Ok? <==>
      && rollNo.Some? && FindByRollNo(users, rollNo.value).Some? && password.Some?
      && var u := users[FindByRollNo(users, rollNo.value).value];
         u.isActive && matches(password.value, u.password)
    ensures r.Ok? ==>
      exists i :: 0 <= i < |users| && users[i].rollNo == rollNo.value && users[i].isActive
                  && r == Ok(200, sign(users[i]), ViewOf(users[i]))
    ensures r.Fail? ==> r.status == 401 || r == Fail(500, ServerErrorText)
  {
    if rollNo.None? then Fail(401, InvalidCredentials)
    else
      match FindByRollNo(users, rollNo.value)
      case None => Fail(401, InvalidCredentials)
      case Some(i) =>
        var u := users[i];
        if !u.isActive then Fail(401, Inactive)
        else if password.None? then Fail(500, ServerErrorText)
        else if !matches(password.value, u.password) then Fail(401, InvalidCredentials)
        else Ok(200, sign(u), ViewOf(u))
  }

  /** A registered user logs in with its roll number and the password it registered with. */
  lemma RegisteredUserCanLogIn(users: seq<User>, rollNo: Option<string>, username: Option<string>,
                               email: Option<string>, password: Option<string>, role: Option<string>, id: string,
                               hash: string -> string, sign: User -> string, matches: (string, string) -> bool)
    requires ValidUsers(users)
    requires RegisterSpec(users, rollNo, username, email, password, role, id, hash, sign).reply.Ok?
    requires matches(password.value, hash(password.value))
    ensures var s := RegisterSpec(users, rollNo, username, email, password, role, id, hash, sign);
            Login(s.users, rollNo, password, matches, sign) == Ok(200, sign(s.users[|users|]), s.reply.user)
  {
    var s := RegisterSpec(users, rollNo, username, email, password, role, id, hash, sign);
    var u :| s.users == users + [u]
             && u == User(id, rollNo.value, username.value, email.value, hash(password.value), u.role, true)
             && s.reply == Ok(201, sign(u), ViewOf(u));
    var f := FindByRollNo(s.users, rollNo.value);
    assert s.users[|users|] == u;
    assert f.Some?;
    if f.value < |users| {
      assert false;
    }
  }

  /** What `getMe` returns: the public fields and the account state. */
  datatype Profile = NotFound(status: int, message: string) | Profile(user: UserView, isActive: bool)

  /** `getMe`: 404 when no user has the id, otherwise that user's public fields and `isActive`. */
  function GetMe(users: seq<User>, id: string): (r: Profile)
    ensures r.NotFound? <==> forall i :: 0 <= i < |users| ==> users[i].id != id
    ensures r.NotFound? ==> r == NotFound(404, UserNotFound)
    ensures r.Profile? ==>
      exists i :: 0 <= i < |users| && users[i].id == id && r == Profile(ViewOf(users[i]), users[i].isActive)
  {
    match FindById(users, id)
    case None => NotFound(404, UserNotFound)
    case Some(i) => Profile(ViewOf(users[i]), users[i].isActive)
  }
}
