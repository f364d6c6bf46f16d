/**
 The authentication middleware and the login decision. Token verification,
 token signing and password-hash comparison are library calls; they enter as
 function parameters, so every property here holds whatever they compute.
 */
module Auth {
  import opened Schema

  /** Verifies a token with the server's secret: the user id it carries, or None. */
  type Verifier = string -> Option<UserId>
  /** Signs a token carrying the given user id. */
  type Signer = UserId -> string
  /** Compares a plaintext password with a stored hash. */
  type HashCheck = (string, string) -> bool

  /** The middleware's verdict: run the handler as `user`, or answer `status`. */
  datatype AuthResult = Proceed(user: UserId) | Deny(status: int)

  /** A header value the middleware treats as missing (`!token` is true). */
  predicate Missing(header: Option<string>)
  {
    header.None? || header.value == ""
  }

  /** authenticateJWT: 401 without a token, 403 when it does not verify. */
  function Authenticate(header: Option<string>, verify: Verifier): (r: AuthResult)
    ensures r == Deny(401) <==> Missing(header)
    ensures r == Deny(403) <==> !Missing(header) && verify(header.value).None?
    ensures r.Proceed? <==> !Missing(header) && verify(header.value).Some?
    ensures r.Proceed? ==> Some(r.user) == verify(header.value)
  {
    if Missing(header) then Deny(401)
    else match verify(header.value)
      case None => Deny(403)
      case Some(user) => Proceed(user)
  }

  /**
   The first user, in store order, whose username is exactly `username`
   (`User.findOne({ username })`), by position.
   */
  function FindUser(users: seq<User>, username: string): (r: Option<nat>)
    ensures r.Some? ==> r.value < |users| && users[r.value].username == username
    ensures r.Some? ==> forall j :: 0 <= j < r.value ==> users[j].username != username
    ensures r.None? ==> forall j :: 0 <= j < |users| ==> users[j].username != username
  {
    if |users| == 0 then None
    else if users[0].username == username then Some(0)
    else match FindUser(users[1..], username)
      case None => None
      case Some(i) => Some(i + 1)
  }

  /** The login handler's answer: a signed token (200) or 401. */
  datatype LoginResult = Issued(token: string) | Denied {
    function Status(): (code: int)
      ensures code == 200 || code == 401
      ensures code == 401 <==> Denied?
    {
      if Issued? then 200 else 401
    }
  }

  /**
   A token is issued exactly when the first user with that username exists and
   the password matches its hash; the token carries that user's id. An unknown
   username and a wrong password both give the same `Denied`.
   */
  function Login(users: seq<User>, username: string, password: string,
                 check: HashCheck, sign: Signer): (r: LoginResult)
    ensures r.Issued? ==>
      exists i :: 0 <= i < |users| && users[i].username == username
        && check(password, users[i].password) && r.token == sign(users[i].id)
    ensures (forall j :: 0 <= j < |users| ==> users[j].username != username) ==> r == Denied
    ensures forall i ::
      (0 <= i < |users| && users[i].username == username
       && forall j :: 0 <= j < i ==> users[j].username != username) ==>
        (r.Issued? <==> check(password, users[i].password))
        && (r.Issued? ==> r.token == sign(users[i].id))
  {
    match FindUser(users, username)
    case None => Denied
    case Some(i) =>
      if check(password, users[i].password) then Issued(sign(users[i].id)) else Denied
  }

  /**
   A token that login issues, sent back as the Authorization header, lets the
   middleware through as the first user with that username, provided that
   verification accepts what signing produces and signing never gives "".
   */
  lemma LoginThenAuthenticate(users: seq<User>, username: string, password: string,
                              check: HashCheck, sign: Signer, verify: Verifier, i: nat)
    requires forall u :: verify(sign(u)) == Some(u)
    requires forall u :: sign(u) != ""
    requires i < |users| && users[i].username == username
    requires forall j :: 0 <= j < i ==> users[j].username != username
    ensures var r := Login(users, username, password, check, sign);
      r.Issued? ==> Authenticate(Some(r.token), verify) == Proceed(users[i].id)
  {
  }
}
