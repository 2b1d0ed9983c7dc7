/** The authentication gate every protected route sits behind. Its middleware file
    (src/middleware/auth.js) is not part of this model; what it must do is read from the routes
    and their tests: a request without a valid token gets 401, and a handler runs only for a
    stored user whose token list holds the request's token. */
module Auth {

  import opened Common
  import opened UserModel

  /** The precondition of every protected handler: `req.user` is a stored user and `req.token`
      is one of its session tokens. */
  predicate Authenticated(users: map<UserId, User>, caller: UserId, token: Token)
  {
    caller in users && token in users[caller].tokens
  }

  /** The gate: `bearer` is the token from the Authorization header (absent without one) and
      `claim` the user id its verified signature carries (absent when verification fails).
      Every failure is the same 401. */
  function Gate(users: map<UserId, User>, bearer: Option<Token>, claim: Option<UserId>): (r: Option<UserId>)
    ensures r.Some? <==> bearer.Some? && claim.Some? && Authenticated(users, claim.value, bearer.value)
    ensures r.Some? ==> r.value == claim.value
  {
    if bearer.Some? && claim.Some? && Authenticated(users, claim.value, bearer.value) then claim
    else None
  }

  /** The status a protected route answers a request the gate refuses. */
  function GateStatus(users: map<UserId, User>, bearer: Option<Token>, claim: Option<UserId>): (status: nat)
    ensures status == UNAUTHORIZED <==> Gate(users, bearer, claim).None?
    ensures bearer.None? ==> status == UNAUTHORIZED
  {
    if Gate(users, bearer, claim).None? then UNAUTHORIZED else OK
  }
}
