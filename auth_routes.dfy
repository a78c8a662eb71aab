/**
 * The self-contained auth router: registration and login over a module-level, in-memory list of users,
 * with a regular-expression e-mail check and a `/users` listing.
 */
module AuthRoutes {
  import opened Common

  // ------------------------------------------------------------ the e-mail check

  /** The characters JavaScript's `\s` matches. */
  predicate IsSpace(c: char)
  {
    c == ' ' || c == '\t' || c == '\n' || c == '\r' || c == '\U{000B}' || c == '\U{000C}'
    || c == '\U{00A0}' || c == '\U{1680}' || ('\U{2000}' <= c <= '\U{200A}') || c == '\U{2028}'
    || c == '\U{2029}' || c == '\U{202F}' || c == '\U{205F}' || c == '\U{3000}' || c == '\U{FEFF}'
  }

  /** A character of the class `[^\s@]`. */
  predicate Plain(c: char)
  {
    c != '@' && !IsSpace(c)
  }

  /** Every character is of the class `[^\s@]`. */
  predicate AllPlain(s: string)
  {
    forall k :: 0 <= k < |s| ==> Plain(s[k])
  }

  /**
   * The language of `^[^\s@]+@[^\s@]+\.[^\s@]+$`: one `@` at some `i > 0`, a `.` at some `j` with at least
   * one character between them and at least one after it, and every other character plain.
   */
  ghost predicate EmailShape(e: string)
  {
    exists i, j :: 0 < i && i + 1 < j && j + 1 < |e| && e[i] == '@' && e[j] == '.'
                  && AllPlain(e[..i]) && AllPlain(e[i + 1..])
  }

  /** The index of the first `c` in `s`. */
  function IndexOf(s: string, c: char): (r: Option<nat>)
    ensures r.None? <==> c !in s
    ensures r.Some? ==> r.value < |s| && s[r.value] == c && c !in s[..r.value]
  {
    if |s| == 0 then None
    else if s[0] == c then Some(0)
    else
      var rest := IndexOf(s[1..], c);
      if rest.None? then None
      else
        assert s[..rest.value + 1] == [s[0]] + s[1..][..rest.value];
        Some(rest.value + 1)
  }

  /**
   * `validateEmail`, decided by a scan: cut at the first `@`; the part before must be plain and non-empty,
   * the part after plain with a `.` that is neither its first nor its last character.
   */
  function ValidEmail(e: string): bool
  {
    match IndexOf(e, '@')
    case None => false
    case Some(i) =>
      var d := e[i + 1..];
      0 < i && AllPlain(e[..i]) && AllPlain(d) && |d| >= 3 && '.' in d[1..|d| - 1]
  }

  /** Every string the scan accepts matches the regular expression. */
  lemma ValidEmailSound(e: string)
    requires ValidEmail(e)
    ensures EmailShape(e)
  {
    var i := IndexOf(e, '@').value;
    var d := e[i + 1..];
    var m :| 0 <= m < |d[1..|d| - 1]| && d[1..|d| - 1][m] == '.';
    var j := i + 2 + m;
    assert e[j] == '.';
  }

  /** A `c` with none before it is the one `IndexOf` finds. */
  lemma {:induction false} IndexOfFirst(s: string, c: char, i: nat)
    requires i < |s| && s[i] == c && c !in s[..i]
    ensures IndexOf(s, c) == Some(i)
  {
    if i > 0 {
      assert s[0] == s[..i][0];
      assert s[1..][..i - 1] == s[1..i];
      assert s[1..i] == s[..i][1..];
      IndexOfFirst(s[1..], c, i - 1);
    }
  }

  /** Every string the regular expression matches is accepted by the scan. */
  lemma ValidEmailComplete(e: string)
    requires EmailShape(e)
    ensures ValidEmail(e)
  {
    var i, j :| 0 < i && i + 1 < j && j + 1 < |e| && e[i] == '@' && e[j] == '.'
                && AllPlain(e[..i]) && AllPlain(e[i + 1..]);
    assert '@' !in e[..i];
    IndexOfFirst(e, '@', i);
    var d := e[i + 1..];
    assert d[1..|d| - 1][j - i - 2] == '.';
  }

  /** The scan accepts exactly the strings the regular expression matches. */
  lemma ValidEmailIsRegex(e: string)
    ensures ValidEmail(e) <==> EmailShape(e)
  {
    if ValidEmail(e) {
      ValidEmailSound(e);
    }
    if EmailShape(e) {
      ValidEmailComplete(e);
    }
  }

  // ------------------------------------------------------------ the in-memory users

  /** An entry of the in-memory list; `password` holds the bcrypt digest. */
  datatype LocalUser = LocalUser(
    id: string,
    rollNo: string,
    username: string,
    email: string,
    password: string,
    role: string,
    createdAt: int)

  /** The user fields a response carries; there is no password among them. */
  datatype PublicUser = PublicUser(id: string, rollNo: string, username: string, email: string, role: string)

  /** The response view of a user. */
  function PublicOf(u: LocalUser): PublicUser
  {
    PublicUser(u.id, u.rollNo, u.username, u.email, u.role)
  }

  /** The claims signed into a token. */
  datatype Claims = Claims(id: string, role: string, rollNo: string, username: string)

  /** The claims of a user. */
  function ClaimsOf(u: LocalUser): Claims
  {
    Claims(u.id, u.role, u.rollNo, u.username)
  }

  /** A response: an error with its status, or a token and the user's public fields. */
  datatype Reply = Fail(status: int, message: string) | Success(status: int, token: string, user: PublicUser)

  /** No two users share an e-mail or a roll number. */
  predicate UniqueContacts(users: seq<LocalUser>)
  {
    forall i, j :: 0 <= i < j < |users| ==> users[i].email != users[j].email && users[i].rollNo != users[j].rollNo
  }

  /** Some user has this e-mail (`users.find(u => u.email === email)`). */
  predicate EmailTaken(users: seq<LocalUser>, email: string)
  {
    exists k :: 0 <= k < |users| && users[k].email == email
  }

  /** Some user has this roll number. */
  predicate RollNoTaken(users: seq<LocalUser>, rollNo: string)
  {
    exists k :: 0 <= k < |users| && users[k].rollNo == rollNo
  }

  /**
   * JavaScript's `s.length`: the number of UTF-16 code units, two for a character outside the Basic
   * Multilingual Plane and one for every other character.
   */
  function Utf16Length(s: string): (n: nat)
    ensures |s| <= n <= 2 * |s|
    ensures n == |s| <==> forall k :: 0 <= k < |s| ==> s[k] <= '\U{FFFF}'
  {
    if s == [] then 0
    else
      var rest := Utf16Length(s[1..]);
      assert forall k :: 1 <= k < |s| ==> s[k] == s[1..][k - 1];
      (if s[0] <= '\U{FFFF}' then 1 else 2) + rest
  }

  /** Three characters outside the Basic Multilingual Plane already make a six-unit password. */
  lemma AstralPasswordIsLongEnough()
    ensures Utf16Length("\U{1F600}\U{1F600}\U{1F600}") == 6
  {
    var s := "\U{1F600}\U{1F600}\U{1F600}";
    assert s[1..] == "\U{1F600}\U{1F600}" && s[1..][1..] == "\U{1F600}";
  }

  const MissingFields := "All fields are required: rollNo, username, email, password"
  const BadEmail := "Please provide a valid email address"
  const ShortPassword := "Password must be at least 6 characters"
  const DuplicateEmail := "User already exists with this email"
  const DuplicateRollNo := "Roll number already registered"

  /**
   * The register checks in their order; `None` lets the request through. Each rejection happens exactly
   * when the earlier checks passed and its own failed.
   */
  function RegisterCheck(users: seq<LocalUser>, rollNo: Option<string>, username: Option<string>,
                         email: Option<string>, password: Option<string>): (r: Option<string>)
    ensures r == Some(MissingFields) <==>
      !(Truthy(rollNo) && Truthy(username) && Truthy(email) && Truthy(password))
    ensures r == Some(BadEmail) <==>
      Truthy(rollNo) && Truthy(username) && Truthy(email) && Truthy(password) && !ValidEmail(email.value)
    ensures r == Some(ShortPassword) <==>
      Truthy(rollNo) && Truthy(username) && Truthy(email) && Truthy(password) && ValidEmail(email.value)
      && Utf16Length(password.value) < 6
    ensures r == Some(DuplicateEmail) <==>
      Truthy(rollNo) && Truthy(username) && Truthy(email) && Truthy(password) && ValidEmail(email.value)
      && Utf16Length(password.value) >= 6 && EmailTaken(users, email.value)
    ensures r == Some(DuplicateRollNo) <==>
      Truthy(rollNo) && Truthy(username) && Truthy(email) && Truthy(password) && ValidEmail(email.value)
      && Utf16Length(password.value) >= 6 && !EmailTaken(users, email.value) && RollNoTaken(users, rollNo.value)
    ensures r.None? <==>
      Truthy(rollNo) && Truthy(username) && Truthy(email) && Truthy(password) && ValidEmail(email.value)
      && Utf16Length(password.value) >= 6 && !EmailTaken(users, email.value) && !RollNoTaken(users, rollNo.value)
  {
    if !(Truthy(rollNo) && Truthy(username) && Truthy(email) && Truthy(password)) then Some(MissingFields)
    else if !ValidEmail(email.value) then Some(BadEmail)
    else if Utf16Length(password.value) < 6 then Some(ShortPassword)
    else if EmailTaken(users, email.value) then Some(DuplicateEmail)
    else if RollNoTaken(users, rollNo.value) then Some(DuplicateRollNo)
    else None
  }

  /** Appending a user with an e-mail and roll number no one has keeps both unique. */
  lemma AppendKeepsContactsUnique(users: seq<LocalUser>, u: LocalUser)
    requires UniqueContacts(users)
    requires !EmailTaken(users, u.email) && !RollNoTaken(users, u.rollNo)
    ensures UniqueContacts(users + [u])
  {
    var all := users + [u];
    forall i, j | 0 <= i < j < |all|
      ensures all[i].email != all[j].email && all[i].rollNo != all[j].rollNo
    {
      if j == |users| {
        assert all[i] == users[i];
      }
    }
  }

  /** The module-level `users` array. */
  class UserList {
    var users: seq<LocalUser>

    /** E-mails and roll numbers are unique, which register maintains. */
    predicate Valid()
      reads this
    {
      UniqueContacts(users)
    }

    /** The empty list the module starts with. */
    constructor ()
      ensures Valid() && users == []
    {
      users := [];
    }
  }

  /**
   * `POST /register`: on a rejection the list is unchanged and the reply is 400 with the check's message;
   * otherwise exactly one student is appended and the reply is 201 with a token for it.
   * `id` is the clock reading as text, `hash` the password digest and `sign` the token signer.
   */
  method Register(list: UserList, rollNo: Option<string>, username: Option<string>, email: Option<string>,
                  password: Option<string>, id: string, now: int,
                  hash: string -> string, sign: Claims -> string) returns (r: Reply)
    requires list.Valid()
    modifies list
    ensures list.Valid()
    ensures var check := RegisterCheck(old(list.users), rollNo, username, email, password);
      match check
      case Some(msg) => r == Fail(400, msg) && list.users == old(list.users)
      case None =>
        var u := LocalUser(id, rollNo.value, username.value, email.value, hash(password.value), "student", now);
        && list.users == old(list.users) + [u]
        && r == Success(201, sign(ClaimsOf(u)), PublicOf(u))
  {
    var check := RegisterCheck(list.users, rollNo, username, email, password);
    if check.Some? {
      return Fail(400, check.value);
    }
    var u := LocalUser(id, rollNo.value, username.value, email.value, hash(password.value), "student", now);
    AppendKeepsContactsUnique(list.users, u);
    list.users := list.users + [u];
    r := Success(201, sign(ClaimsOf(u)), PublicOf(u));
  }

  /** The index of the first user whose roll number or e-mail is `login`. */
  function FindLogin(users: seq<LocalUser>, login: string): (r: Option<nat>)
    ensures r.None? <==> forall k :: 0 <= k < |users| ==> users[k].rollNo != login && users[k].email != login
    ensures r.Some? ==> r.value < |users| && (users[r.value].rollNo == login || users[r.value].email == login)
    ensures r.Some? ==> forall k :: 0 <= k < r.value ==> users[k].rollNo != login && users[k].email != login
  {
    if |users| == 0 then None
    else if users[0].rollNo == login || users[0].email == login then Some(0)
    else
      var rest := FindLogin(users[1..], login);
      if rest.None? then None else Some(rest.value + 1)
  }

  const LoginMissing := "Roll number and password are required"
  const InvalidCredentials := "Invalid credentials"

  /**
   * `POST /login`: 400 when the identifier or the password is missing; 401 when no user has it as roll number
   * or e-mail, or when the password does not match the first such user's digest; otherwise 200 with a token
   * for that user. `matches` stands for the digest comparison.
   */
  function Login(users: seq<LocalUser>, login: Option<string>, password: Option<string>,
                 matches: (string, string) -> bool, sign: Claims -> string): (r: Reply)
    ensures !(Truthy(login) && Truthy(password)) <==> r == Fail(400, LoginMissing)
    ensures r.Success? <==>
      && Truthy(login) && Truthy(password)
      && FindLogin(users, login.value).Some?
      && matches(password.value, users[FindLogin(users, login.value).value].password)
    ensures r.Success? ==>
      var u := users[FindLogin(users, login.value).value];
      r == Success(200, sign(ClaimsOf(u)), PublicOf(u)) && (u.rollNo == login.value || u.email == login.value)
    ensures r.Fail? && r.status != 400 ==> r == Fail(401, InvalidCredentials)
    ensures Truthy(login) && Truthy(password) && !r.Success? ==> r == Fail(401, InvalidCredentials)
  {
    if !(Truthy(login) && Truthy(password)) then Fail(400, LoginMissing)
    else
      match FindLogin(users, login.value)
      case None => Fail(401, InvalidCredentials)
      case Some(i) =>
        if !matches(password.value, users[i].password) then Fail(401, InvalidCredentials)
        else Success(200, sign(ClaimsOf(users[i])), PublicOf(users[i]))
  }

  /** Once registered, a user can log in with its own roll number and the password it registered with. */
  lemma RegisteredUserCanLogIn(users: seq<LocalUser>, u: LocalUser, password: string,
                               matches: (string, string) -> bool, sign: Claims -> string)
    requires UniqueContacts(users + [u])
    requires u.rollNo != "" && password != ""
    requires forall k :: 0 <= k < |users| ==> users[k].email != u.rollNo
    requires matches(password, u.password)
    ensures Login(users + [u], Some(u.rollNo), Some(password), matches, sign)
            == Success(200, sign(ClaimsOf(u)), PublicOf(u))
  {
    var all := users + [u];
    var r := FindLogin(all, u.rollNo);
    assert all[|users|] == u;
    assert r.Some?;
  }

  /**
   * Registration compares a new roll number only with roll numbers, while login matches an identifier against
   * roll numbers and e-mails alike. A roll number that is an earlier user's e-mail therefore always resolves to
   * that earlier user: the new user can never log in with its roll number.
   */
  lemma ShadowedLoginMissesNewUser(users: seq<LocalUser>, u: LocalUser, password: string,
                                   matches: (string, string) -> bool, sign: Claims -> string)
    requires UniqueContacts(users + [u])
    requires u.rollNo != "" && password != ""
    requires exists k :: 0 <= k < |users| && users[k].email == u.rollNo
    ensures FindLogin(users + [u], u.rollNo).Some? && FindLogin(users + [u], u.rollNo).value < |users|
    ensures Login(users + [u], Some(u.rollNo), Some(password), matches, sign) != Success(200, sign(ClaimsOf(u)), PublicOf(u))
  {
    var all := users + [u];
    var k :| 0 <= k < |users| && users[k].email == u.rollNo;
    assert all[k] == users[k];
    var r := FindLogin(all, u.rollNo);
    assert r.Some? && r.value <= k;
    assert all[r.value].email != all[|users|].email;
    assert all[|users|] == u;
  }

  /** The `/users` listing: a count and the public fields of every user in order. */
  datatype Listing = Listing(count: nat, users: seq<PublicUser>)

  /** `GET /users`: every user appears once, in order, with its public fields and without its digest. */
  function ListUsers(users: seq<LocalUser>): (r: Listing)
    ensures r.count == |r.users| == |users|
    ensures forall k :: 0 <= k < |users| ==>
      r.users[k].id == users[k].id && r.users[k].rollNo == users[k].rollNo && r.users[k].email == users[k].email
      && r.users[k].username == users[k].username && r.users[k].role == users[k].role
  {
    Listing(|users|, seq(|users|, k requires 0 <= k < |users| => PublicOf(users[k])))
  }
}
