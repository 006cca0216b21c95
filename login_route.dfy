/** The token-issuance endpoint of the deployed example (`POST /api/auth/login`):
    it checks the credentials, then the server's signing secret, then signs a token
    holding the user's public fields.

    The credential check is its result, the `usr` argument (`userLogin` of the user
    directory). The signer (`encode` of the token library) is the function-valued
    argument `encode`, applied to the payload, the secret and the lifetime in seconds. */
module LoginRoute {
  import opened Wrappers
  import UserDirectory

  /** The claims the token carries: `{ sub, name, email, role }`. */
  datatype TokenPayload = TokenPayload(sub: string, name: string, email: string, role: string)

  datatype Body = ErrorBody(error: string) | TokenBody(token: string)

  datatype Response = Response(status: int, body: Body)

  /** The token lifetime in seconds. */
  const MaxAge: int := 60

  /** The token payload of a user: its identifier as the subject, then its public fields. */
  function PayloadOf(u: UserDirectory.User): TokenPayload {
    TokenPayload(u.id, u.name, u.email, u.role)
  }

  /** `process.env.NEXTAUTH_SECRET` is usable when it is defined and not empty. */
  predicate SecretUsable(secret: Option<string>) {
    secret.Some? && secret.value != ""
  }

  /** The endpoint. */
  function Post(usr: Option<UserDirectory.User>, secret: Option<string>,
                encode: (TokenPayload, string, int) -> string): (r: Response)
    // credentials are checked first: a failed login is 401 whatever the secret
    ensures usr.None? ==> r == Response(401, ErrorBody("Invalid credentials"))
    ensures usr.Some? && !SecretUsable(secret) ==> r == Response(500, ErrorBody("Server misconfigured"))
    // a token is produced exactly when the login succeeded and the secret is usable
    ensures r.body.TokenBody? <==> usr.Some? && SecretUsable(secret)
    ensures r.body.TokenBody? ==> r.status == 200 && r.body.token == encode(PayloadOf(usr.value), secret.value, 60)
    ensures r.status in {200, 401, 500}
  {
    match usr
    case None => Response(401, ErrorBody("Invalid credentials"))
    case Some(u) =>
      var payload := PayloadOf(u);
      if secret.None? || secret.value == "" then Response(500, ErrorBody("Server misconfigured"))
      else Response(200, TokenBody(encode(payload, secret.value, MaxAge)))
  }

  /** The endpoint as the deployed example runs it: the credential check is `userLogin`
      over the directory's records. A token is issued only for a record whose e-mail and
      password equal the request's, the password being non-empty, and its payload is
      that record's public fields. */
  lemma PostSignsOnlyMatchingRecord(rs: seq<UserDirectory.UserRecord>, email: string, password: string,
                                    secret: Option<string>, encode: (TokenPayload, string, int) -> string)
    requires Post(UserDirectory.LoginResult(rs, email, password), secret, encode).body.TokenBody?
    ensures password != ""
    ensures exists i :: 0 <= i < |rs| && rs[i].email == email && rs[i].password == password
                        && Post(UserDirectory.LoginResult(rs, email, password), secret, encode).body.token
                           == encode(PayloadOf(UserDirectory.Public(rs[i])), secret.value, MaxAge)
  {
  }

  /** With a reachable directory only the two seeded users ever receive a token. */
  lemma PostSignsOnlySeeded(rs: seq<UserDirectory.UserRecord>, email: string, password: string,
                            secret: Option<string>, encode: (TokenPayload, string, int) -> string)
    requires UserDirectory.Reachable(rs)
    requires Post(UserDirectory.LoginResult(rs, email, password), secret, encode).body.TokenBody?
    ensures exists i :: 0 <= i < 2 && rs[i].email == email && rs[i].password == password
                        && Post(UserDirectory.LoginResult(rs, email, password), secret, encode).body.token
                           == encode(PayloadOf(UserDirectory.Public(rs[i])), secret.value, MaxAge)
  {
    UserDirectory.LoginOnlySeeded(rs, email, password);
    assert rs[..2] == UserDirectory.Seed();
    var s := UserDirectory.Seed();
    var u := UserDirectory.LoginResult(s, email, password).value;
    if u == UserDirectory.Public(s[0]) {
      assert rs[0] == s[0];
    } else {
      assert rs[1] == s[1];
    }
  }
}
