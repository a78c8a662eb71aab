/** The admin authorisation middleware: which requests reach the admin routes. */
module AdminAuth {
  import opened Common
  import opened UserModel

  /** The middleware's decision: call `next`, or answer with a status and a message. */
  datatype Decision = Next | Deny(status: int, message: string)

  const AuthRequired := "Authentication required"
  const UserNotFound := "User not found"
  const AdminRequired := "Access denied. Admin privileges required."
  const CheckFailed := "Authorization check failed"

  /**
   * `adminAuth` for the id the auth middleware left on the request. `lookupFails` says whether
   * `User.findById` threw. 401 without an id, 500 when the lookup throws, 404 when no user has the id,
   * 403 when that user is not an admin, and `next` otherwise.
   */
  function Authorize(userId: Option<string>, users: seq<User>, lookupFails: bool): (d: Decision)
    ensures d == Deny(401, AuthRequired) <==> !Truthy(userId)
    ensures d == Deny(500, CheckFailed) <==> Truthy(userId) && lookupFails
    ensures d == Deny(404, UserNotFound) <==>
      Truthy(userId) && !lookupFails && forall i :: 0 <= i < |users| ==> users[i].id != userId.value
    ensures d == Deny(403, AdminRequired) <==>
      Truthy(userId) && !lookupFails && FindById(users, userId.value).Some?
      && users[FindById(users, userId.value).value].role != Admin
    ensures d.Next? <==>
      Truthy(userId) && !lookupFails && FindById(users, userId.value).Some?
      && users[FindById(users, userId.value).value].role == Admin
  {
    if !Truthy(userId) then Deny(401, AuthRequired)
    else if lookupFails then Deny(500, CheckFailed)
    else
      match FindById(users, userId.value)
      case None => Deny(404, UserNotFound)
      case Some(i) => if users[i].role != Admin then Deny(403, AdminRequired) else Next
  }

  /** With unique document ids, a request goes on exactly when its id belongs to an administrator. */
  lemma NextIffAdmin(userId: Option<string>, users: seq<User>, lookupFails: bool)
    requires ValidUsers(users)
    ensures Authorize(userId, users, lookupFails).Next? <==>
      Truthy(userId) && !lookupFails && exists i :: 0 <= i < |users| && users[i].id == userId.value && users[i].role == Admin
  {
    if Truthy(userId) && !lookupFails {
      if k :| 0 <= k < |users| && users[k].id == userId.value && users[k].role == Admin {
        assert FindById(users, userId.value).value == k;
      }
    }
  }
}
