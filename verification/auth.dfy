/** The session lookup every protected action starts with. */
module Auth {
  import opened Wrappers
  import Db

  /**
   * `getRequiredUserId`: the session's user id, or the error `"Unauthorized"` when the
   * session has none. A missing id and an empty one are both falsy and both rejected.
   * `session` is what the identity provider reports for the current request.
   */
  function RequiredUserId(session: Option<Db.UserId>): (r: Result<Db.UserId, string>)
    ensures r.Success? <==> session.Some? && session.value != ""
    ensures r.Success? ==> r.value == session.value
    ensures r.Failure? ==> r.error == "Unauthorized"
  {
    if session.None? || session.value == "" then Failure("Unauthorized") else Success(session.value)
  }
}
