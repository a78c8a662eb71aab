/** The User document of the database-backed auth controllers, and the collection that stores it. */
module UserModel {
  import opened Common

  /** The schema's enum for `role`. */
  datatype Role = Student | Admin

  /** The stored role string. */
  function RoleName(r: Role): string
  {
    match r
    case Student => "student"
    case Admin => "admin"
  }

  /** Enum validation on save: only "student" and "admin" are accepted. */
  function ParseRole(s: string): (r: Option<Role>)
    ensures r.Some? <==> s == "student" || s == "admin"
    ensures r.Some? ==> RoleName(r.value) == s
  {
    if s == "student" then Some(Student) else if s == "admin" then Some(Admin) else None
  }

  /** A stored user; `password` holds the bcrypt digest. */
  datatype User = User(
    id: string,
    rollNo: string,
    name: string,
    email: string,
    password: string,
    role: Role,
    isActive: bool)

  /** The schema's `required` validators: Mongoose rejects a missing or empty string. */
  predicate HasRequiredFields(u: User)
  {
    u.rollNo != "" && u.name != "" && u.email != "" && u.password != ""
  }

  /** The unique indexes on `rollNo` and `email`, and distinct document ids. */
  predicate UniqueKeys(users: seq<User>)
  {
    forall i, j :: 0 <= i < j < |users| ==>
      users[i].rollNo != users[j].rollNo && users[i].email != users[j].email && users[i].id != users[j].id
  }

  /** The user fields a response carries; there is no password among them. */
  datatype UserView = UserView(id: string, rollNo: string, name: string, email: string, role: Option<string>)

  /** The response view of a stored user. */
  function ViewOf(u: User): UserView
  {
    UserView(u.id, u.rollNo, u.name, u.email, Some(RoleName(u.role)))
  }

  /** The index of the first user whose `rollNo` is `rollNo` (`User.findOne({ rollNo })`). */
  function FindByRollNo(users: seq<User>, rollNo: string): (r: Option<nat>)
    ensures r.None? <==> forall i :: 0 <= i < |users| ==> users[i].rollNo != rollNo
    ensures r.Some? ==> r.value < |users| && users[r.value].rollNo == rollNo
                        && forall i :: 0 <= i < r.value ==> users[i].rollNo != rollNo
  {
    if |users| == 0 then None
    else if users[0].rollNo == rollNo then Some(0)
    else
      var rest := FindByRollNo(users[1..], rollNo);
      if rest.None? then None else Some(rest.value + 1)
  }

  /** The index of the first user with document id `id` (`User.findById(id)`). */
  function FindById(users: seq<User>, id: string): (r: Option<nat>)
    ensures r.None? <==> forall i :: 0 <= i < |users| ==> users[i].id != id
    ensures r.Some? ==> r.value < |users| && users[r.value].id == id
  {
    if |users| == 0 then None
    else if users[0].id == id then Some(0)
    else
      var rest := FindById(users[1..], id);
      if rest.None? then None else Some(rest.value + 1)
  }

  /**
   * `User.findOne({ $or: [{ rollNo }, { email }] })` finds a document; an absent value is sent as `null`,
   * which matches no stored user because both fields are required.
   */
  predicate Clashes(users: seq<User>, rollNo: Option<string>, email: Option<string>)
  {
    exists i :: 0 <= i < |users| && (Some(users[i].rollNo) == rollNo || Some(users[i].email) == email)
  }

  /** What `user.save()` does: the new document, or a validation or duplicate-key error. */
  datatype SaveResult = SaveFailed | Saved(user: User)

  /**
   * `new User({ ... }).save()` with `isActive` true: the save succeeds exactly when `rollNo`, `name`, `email`
   * and the password digest are present and non-empty, the role is in the enum, and no stored user has the
   * same roll number, e-mail or document id. A saved user keeps the keys unique.
   */
  function SaveUser(users: seq<User>, id: string, rollNo: Option<string>, name: Option<string>,
                email: Option<string>, digest: Option<string>, role: string): (s: SaveResult)
    ensures s.Saved? <==>
      && Truthy(rollNo) && Truthy(name) && Truthy(email) && Truthy(digest) && ParseRole(role).Some?
      && !Clashes(users, rollNo, email) && forall i :: 0 <= i < |users| ==> users[i].id != id
    ensures s.Saved? ==>
      && s.user == User(id, rollNo.value, name.value, email.value, digest.value, ParseRole(role).value, true)
      && HasRequiredFields(s.user) && RoleName(s.user.role) == role
    ensures s.Saved? && UniqueKeys(users) ==> UniqueKeys(users + [s.user])
  {
    if !(Truthy(rollNo) && Truthy(name) && Truthy(email) && Truthy(digest)) then SaveFailed
    else if ParseRole(role).None? then SaveFailed
    else if Clashes(users, rollNo, email) then SaveFailed
    else if exists i :: 0 <= i < |users| && users[i].id == id then SaveFailed
    else
      var u := User(id, rollNo.value, name.value, email.value, digest.value, ParseRole(role).value, true);
      AppendKeepsKeysUnique(users, u);
      Saved(u)
  }

  /** A controller's response: an error with its status, or a token and the user's public fields. */
  datatype Reply = Fail(status: int, message: string) | Ok(status: int, token: string, user: UserView)

  /** A registration's effect: the collection afterwards and the response. */
  datatype Registration = Registration(users: seq<User>, reply: Reply)

  /** The digest `bcrypt.hash` produces; an absent password makes it throw. */
  function Digest(password: Option<string>, hash: string -> string): (d: Option<string>)
    ensures d.Some? <==> password.Some?
  {
    if password.Some? then Some(hash(password.value)) else None
  }

  const ServerErrorText := "Server error"

  /** The users collection. */
  class UserCollection {
    var users: seq<User>

    /** The stored users are valid documents. */
    predicate Valid()
      reads this
    {
      ValidUsers(users)
    }

    /** An empty collection. */
    constructor ()
      ensures Valid() && users == []
    {
      users := [];
    }
  }

  /** Adding a user whose roll number, e-mail and id are all new keeps the keys unique. */
  lemma AppendKeepsKeysUnique(users: seq<User>, u: User)
    requires !Clashes(users, Some(u.rollNo), Some(u.email))
    requires forall i :: 0 <= i < |users| ==> users[i].id != u.id
    ensures UniqueKeys(users) ==> UniqueKeys(users + [u])
  {
    if !UniqueKeys(users) {
      return;
    }
    var all := users + [u];
    forall i, j | 0 <= i < j < |all|
      ensures all[i].rollNo != all[j].rollNo && all[i].email != all[j].email && all[i].id != all[j].id
    {
      if j == |users| {
        assert all[i] == users[i];
      }
    }
  }

  /** Every stored user passed the schema's validators and the unique indexes hold. */
  predicate ValidUsers(users: seq<User>)
  {
    UniqueKeys(users) && forall i :: 0 <= i < |users| ==> HasRequiredFields(users[i])
  }
}
