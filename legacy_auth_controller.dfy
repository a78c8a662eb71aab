/**
 * The older auth controller: the same collection, with the request's `name` stored directly, the request's
 * own fields echoed in the register response, and one combined error for unknown and inactive accounts.
 */
module LegacyAuthController {
  import opened Common
  import opened UserModel

  const AlreadyExists := "User already exists"
  const UnknownOrInactive := "Invalid credentials or inactive user"
  const InvalidCredentials := "Invalid credentials"

  /**
   * `register`: 400 when a user with the same roll number or e-mail exists, 500 when the save fails, and
   * otherwise 201 with exactly one new user with role `role || 'student'`. The response echoes the request's
   * fields, so its `role` is the request's own (absent when the stored role was defaulted).
   */
  function RegisterSpec(users: seq<User>, rollNo: Option<string>, name: Option<string>, email: Option<string>,
                        password: Option<string>, role: Option<string>, id: string,
                        hash: string -> string, sign: User -> string): (s: Registration)
    ensures Clashes(users, rollNo, email) <==> s == Registration(users, Fail(400, AlreadyExists))
    ensures s.reply.Fail? ==> s.users == users
    ensures s.reply.Ok? <==>
      !Clashes(users, rollNo, email) && SaveUser(users, id, rollNo, name, email, Digest(password, hash), Or(role, "student")).Saved?
    ensures s.reply.Ok? ==>
      exists u :: && s.users == users + [u]
                  && u == User(id, rollNo.value, name.value, email.value, hash(password.value), u.role, true)
                  && RoleName(u.role) == Or(role, "student")
                  && s.reply == Ok(201, sign(u), UserView(id, rollNo.value, name.value, email.value, role))
    ensures !Clashes(users, rollNo, email) && !s.reply.Ok? ==> s == Registration(users, Fail(500, ServerErrorText))
    ensures ValidUsers(users) ==> ValidUsers(s.users)
  {
    if Clashes(users, rollNo, email) then Registration(users, Fail(400, AlreadyExists))
    else
      match SaveUser(users, id, rollNo, name, email, Digest(password, hash), Or(role, "student"))
      case SaveFailed => Registration(users, Fail(500, ServerErrorText))
      case Saved(u) => Registration(users + [u], Ok(201, sign(u), UserView(id, rollNo.value, name.value, email.value, role)))
  }

  /** `register` on the collection. */
  method Register(coll: UserCollection, rollNo: Option<string>, name: Option<string>, email: Option<string>,
                  password: Option<string>, role: Option<string>, id: string,
                  hash: string -> string, sign: User -> string) returns (r: Reply)
    requires coll.Valid()
    modifies coll
    ensures coll.Valid()
    ensures var s := RegisterSpec(old(coll.users), rollNo, name, email, password, role, id, hash, sign);
            coll.users == s.users && r == s.reply
  {
    if Clashes(coll.users, rollNo, email) {
      return Fail(400, AlreadyExists);
    }
    var saved := SaveUser(coll.users, id, rollNo, name, email, Digest(password, hash), Or(role, "student"));
    if saved.SaveFailed? {
      return Fail(500, ServerErrorText);
    }
    coll.users := coll.users + [saved.user];
    r := Ok(201, sign(saved.user), UserView(id, rollNo.value, name.value, email.value, role));
  }

  /** The response for a defaulted role carries no role, although a student was stored. */
  lemma DefaultedRoleIsNotEchoed(users: seq<User>, rollNo: Option<string>, name: Option<string>,
                                 email: Option<string>, password: Option<string>, id: string,
                                 hash: string -> string, sign: User -> string)
    requires RegisterSpec(users, rollNo, name, email, password, None, id, hash, sign).reply.Ok?
    ensures var s := RegisterSpec(users, rollNo, name, email, password, None, id, hash, sign);
            s.reply.user.role.None? && s.users[|users|].role == Student
  {
    var s := RegisterSpec(users, rollNo, name, email, password, None, id, hash, sign);
    var u :| s.users == users + [u] && RoleName(u.role) == "student"
             && s.reply == Ok(201, sign(u), UserView(id, rollNo.value, name.value, email.value, None));
    assert s.users[|users|] == u;
  }

  /**
   * `login`: one 401 for an unknown roll number or an inactive account, decided before the password is
   * looked at; 500 when the password is absent; 401 on a mismatch; and otherwise 200 with a token and the
   * public fields of the user with that roll number.
   */
  function Login(users: seq<User>, rollNo: Option<string>, password: Option<string>,
                 matches: (string, string) -> bool, sign: User -> string): (r: Reply)
    ensures r == Fail(401, UnknownOrInactive) <==>
      rollNo.None? || FindByRollNo(users, rollNo.value).None? || !users[FindByRollNo(users, rollNo.value).value].isActive
    ensures (rollNo.Some? && FindByRollNo(users, rollNo.value).Some? && users[FindByRollNo(users, rollNo.value).value].isActive
             && password.None?) ==> r == Fail(500, ServerErrorText)
    ensures (rollNo.Some? && FindByRollNo(users, rollNo.value).Some? && users[FindByRollNo(users, rollNo.value).value].isActive
             && password.Some? && !matches(password.value, users[FindByRollNo(users, rollNo.value).value].password)) ==>
      r == Fail(401, InvalidCredentials)
    ensures r.Ok? <==>
      && rollNo.Some? && FindByRollNo(users, rollNo.value).Some? && password.Some?
      && var u := users[FindByRollNo(users, rollNo.value).value];
         u.isActive && matches(password.value, u.password)
    ensures r.Ok? ==>
      exists i :: 0 <= i < |users| && users[i].rollNo == rollNo.value && users[i].isActive
                  && r == Ok(200, sign(users[i]), ViewOf(users[i]))
    ensures r.Fail? ==> r == Fail(401, UnknownOrInactive) || r == Fail(401, InvalidCredentials) || r == Fail(500, ServerErrorText)
  {
    if rollNo.None? then Fail(401, UnknownOrInactive)
    else
      match FindByRollNo(users, rollNo.value)
      case None => Fail(401, UnknownOrInactive)
      case Some(i) =>
        var u := users[i];
        if !u.isActive then Fail(401, UnknownOrInactive)
        else if password.None? then Fail(500, ServerErrorText)
        else if !matches(password.value, u.password) then Fail(401, InvalidCredentials)
        else Ok(200, sign(u), ViewOf(u))
  }
}
