/** The request interceptor of the authentication example: it classifies each request
    path as open or restricted by prefix, and for a restricted path either rejects it
    (401 JSON for API paths), redirects it to the sign-in page (page paths), or forwards
    it with the verified token's claims in the `x-user` request header.

    The session token verifier is not modelled: its verdict is the `token` argument,
    `None` when no valid token was found. */
module AccessGate {
  import opened Wrappers
  import UriComponent
  import JsonText

  /** A claim as the token holds it; `JSON.stringify` omits an undefined member. */
  datatype ClaimValue = Undefined | Null | Str(s: string)

  /** The fields of a verified token that the gate forwards. */
  datatype Claims = Claims(sub: ClaimValue, email: ClaimValue, role: ClaimValue)

  /** A request as the gate sees it. Header names are already lower-case, as the
      `Headers` object keeps them. */
  datatype Request = Request(origin: string, pathname: string, search: string, headers: map<string, string>)

  /** What the gate answers. */
  datatype Outcome =
    | Next                                         // the request goes on exactly as it came
    | NextWithHeaders(headers: map<string, string>) // the request goes on with these headers
    | Respond(status: int, headers: map<string, string>, body: string)
    | Redirect(status: int, location: string)

  const RestrictedPrefixes: seq<string> := ["/api/restrict", "/pages/restrict", "/actions/restrict"]
  const ApiPrefix: string := "/api/restrict"
  /** The sign-in page, with the query parameter that carries the URL to return to. */
  const SignInCallback: string := "/pages/auth/signin?callbackUrl="
  const UserHeader: string := "x-user"
  /** The status `NextResponse.redirect` answers with by default. */
  const RedirectStatus: int := 307

  /** `req.url`: the absolute URL of the request. */
  function Url(req: Request): string {
    req.origin + req.pathname + req.search
  }

  predicate StartsWith(s: string, prefix: string) {
    |prefix| <= |s| && s[..|prefix|] == prefix
  }

  /** `prefixes.some(p => path.startsWith(p))`. */
  function SomeStartsWith(prefixes: seq<string>, path: string): (b: bool)
    ensures b <==> exists i :: 0 <= i < |prefixes| && StartsWith(path, prefixes[i])
  {
    if prefixes == [] then false
    else StartsWith(path, prefixes[0]) || SomeStartsWith(prefixes[1..], path)
  }

  predicate IsRestricted(path: string) {
    SomeStartsWith(RestrictedPrefixes, path)
  }

  /** True when the call is to a protected endpoint rather than to a page. */
  predicate IsApiCall(path: string) {
    StartsWith(path, ApiPrefix)
  }

  function ClaimMember(key: string, v: ClaimValue): seq<JsonText.Member> {
    match v
    case Undefined => []
    case Null => [(key, JsonText.Null)]
    case Str(s) => [(key, JsonText.Str(s))]
  }

  /** `JSON.stringify({ sub, email, role })`. */
  function ClaimsJson(c: Claims): string {
    JsonText.ObjectText(ClaimMember("sub", c.sub) + ClaimMember("email", c.email) + ClaimMember("role", c.role))
  }

  /** The value the gate puts in the `x-user` header. */
  function UserHeaderValue(c: Claims): string {
    UriComponent.Encode(ClaimsJson(c))
  }

  function ClaimOf(v: Option<JsonText.Value>): ClaimValue {
    match v
    case None => Undefined
    case Some(j) => if j.Null? then Null else Str(j.s)
  }

  /** How a protected endpoint reads the header:
      `JSON.parse(decodeURIComponent(header))` and then its `sub`, `email` and `role`. */
  function ReadUserHeader(h: string): Option<Claims> {
    var json :- UriComponent.Decode(h);
    var ms :- JsonText.ParseObject(json);
    Some(Claims(ClaimOf(JsonText.Lookup(ms, "sub")), ClaimOf(JsonText.Lookup(ms, "email")), ClaimOf(JsonText.Lookup(ms, "role"))))
  }

  const ErrorKey: string := "error"
  const UnauthorizedMessage: string := "Unauthorized"

  /** `JSON.stringify({ error: "Unauthorized" })`. */
  function UnauthorizedBody(): string {
    JsonText.ObjectText([(ErrorKey, JsonText.Str(UnauthorizedMessage))])
  }

  /** `new URL("/pages/auth/signin?callbackUrl=" + encodeURIComponent(req.url), req.url)`. */
  function SignInLocation(req: Request): string {
    req.origin + SignInCallback + UriComponent.Encode(Url(req))
  }

  /** The gate. */
  function Middleware(req: Request, token: Option<Claims>): (o: Outcome)
    // an open path passes untouched, whatever the token
    ensures o == Next <==> !IsRestricted(req.pathname)
    // a restricted path goes on only with a token, and then with new headers
    ensures o.NextWithHeaders? <==> IsRestricted(req.pathname) && token.Some?
    ensures o.Respond? <==> IsRestricted(req.pathname) && token.None? && IsApiCall(req.pathname)
    ensures o.Redirect? <==> IsRestricted(req.pathname) && token.None? && !IsApiCall(req.pathname)
    ensures o.Respond? ==> o.status == 401 && o.headers == map["content-type" := "application/json"]
                           && o.body == UnauthorizedBody()
    ensures o.Redirect? ==> o.status == RedirectStatus && o.location == SignInLocation(req)
    // only `x-user` differs from the request's headers, and it holds the token's claims
    ensures o.NextWithHeaders? ==>
              && UserHeader in o.headers && o.headers[UserHeader] == UserHeaderValue(token.value)
              && (forall k :: k != UserHeader ==> (k in o.headers <==> k in req.headers))
              && (forall k :: k != UserHeader && k in req.headers ==> o.headers[k] == req.headers[k])
  {
    if !SomeStartsWith(RestrictedPrefixes, req.pathname) then Next
    else
      var apiCall := StartsWith(req.pathname, ApiPrefix);
      match token
      case None =>
        if apiCall then Respond(401, map["content-type" := "application/json"], UnauthorizedBody())
        else Redirect(RedirectStatus, SignInLocation(req))
      case Some(claims) =>
        NextWithHeaders(req.headers[UserHeader := UserHeaderValue(claims)])
  }

  /** The request headers a route handler behind the gate receives, if it is reached. */
  function Downstream(req: Request, o: Outcome): Option<map<string, string>> {
    match o
    case Next => Some(req.headers)
    case NextWithHeaders(h) => Some(h)
    case _ => None
  }

  // ---------------------------------------------------------------------------
  // Properties

  /** Every API-style path is restricted. */
  lemma ApiCallIsRestricted(path: string)
    requires IsApiCall(path)
    ensures IsRestricted(path)
  {
    assert StartsWith(path, RestrictedPrefixes[0]);
  }

  /** Reading the header the gate writes gives back exactly the token's claims. */
  lemma UserHeaderRoundTrip(c: Claims)
    ensures ReadUserHeader(UserHeaderValue(c)) == Some(c)
  {
    var ms := ClaimMember("sub", c.sub) + ClaimMember("email", c.email) + ClaimMember("role", c.role);
    UriComponent.DecodeEncode(ClaimsJson(c));
    JsonText.ParseObjectText(ms);
    LookupClaims(c);
  }

  lemma LookupClaimMember(key: string, v: ClaimValue, k: string)
    ensures key == k ==> ClaimOf(JsonText.Lookup(ClaimMember(key, v), k)) == v
    ensures key != k ==> JsonText.Lookup(ClaimMember(key, v), k) == None
  {
  }

  lemma LookupClaimsAt(c: Claims, k: string)
    ensures var ms := ClaimMember("sub", c.sub) + ClaimMember("email", c.email) + ClaimMember("role", c.role);
            JsonText.Lookup(ms, k) ==
              if JsonText.Lookup(ClaimMember("role", c.role), k).Some? then JsonText.Lookup(ClaimMember("role", c.role), k)
              else if JsonText.Lookup(ClaimMember("email", c.email), k).Some? then JsonText.Lookup(ClaimMember("email", c.email), k)
              else JsonText.Lookup(ClaimMember("sub", c.sub), k)
  {
    var a, b, r := ClaimMember("sub", c.sub), ClaimMember("email", c.email), ClaimMember("role", c.role);
    JsonText.LookupAppend(a, b, k);
    JsonText.LookupAppend(a + b, r, k);
  }

  lemma LookupClaims(c: Claims)
    ensures var ms := ClaimMember("sub", c.sub) + ClaimMember("email", c.email) + ClaimMember("role", c.role);
            && ClaimOf(JsonText.Lookup(ms, "sub")) == c.sub
            && ClaimOf(JsonText.Lookup(ms, "email")) == c.email
            && ClaimOf(JsonText.Lookup(ms, "role")) == c.role
  {
    assert "sub" != "email" && "sub" != "role" && "email" != "role" by {
      assert "sub"[0] == 's' && "email"[0] == 'e' && "role"[0] == 'r';
    }
    LookupClaimsAt(c, "sub");
    LookupClaimMember("sub", c.sub, "sub");
    LookupClaimMember("email", c.email, "sub");
    LookupClaimMember("role", c.role, "sub");
    LookupClaimsAt(c, "email");
    LookupClaimMember("sub", c.sub, "email");
    LookupClaimMember("email", c.email, "email");
    LookupClaimMember("role", c.role, "email");
    LookupClaimsAt(c, "role");
    LookupClaimMember("sub", c.sub, "role");
    LookupClaimMember("email", c.email, "role");
    LookupClaimMember("role", c.role, "role");
  }

  /** The security invariant: a handler behind a restricted path is reached only with a
      valid token, and the `x-user` it reads is that token's claims, whatever header the
      client sent. */
  lemma RestrictedHandlerSeesTokenClaims(req: Request, token: Option<Claims>)
    requires IsRestricted(req.pathname)
    requires Downstream(req, Middleware(req, token)).Some?
    ensures token.Some?
    ensures var h := Downstream(req, Middleware(req, token)).value;
            UserHeader in h && ReadUserHeader(h[UserHeader]) == token
  {
    UserHeaderRoundTrip(token.value);
  }

  /** On an open path the handler receives the client's headers, `x-user` included. */
  lemma OpenPathKeepsHeaders(req: Request, token: Option<Claims>)
    requires !IsRestricted(req.pathname)
    ensures Downstream(req, Middleware(req, token)) == Some(req.headers)
  {
  }

  /** The sign-in redirect carries the absolute request URL as its `callbackUrl`, encoded
      so that it cannot end the query parameter early, and decoding it yields `req.url`. */
  lemma RedirectCallback(req: Request)
    requires IsRestricted(req.pathname) && !IsApiCall(req.pathname)
    ensures var o := Middleware(req, None);
            exists cb ::
              && o == Redirect(307, req.origin + "/pages/auth/signin?callbackUrl=" + cb)
              && UriComponent.Decode(cb) == Some(Url(req))
              && forall i :: 0 <= i < |cb| ==> UriComponent.EncodedChar(cb[i])
  {
    var cb := UriComponent.Encode(Url(req));
    UriComponent.DecodeEncode(Url(req));
    UriComponent.EncodeChars(Url(req));
    assert Middleware(req, None) == Redirect(307, req.origin + "/pages/auth/signin?callbackUrl=" + cb);
  }

  /** The 401 body is exactly `{"error":"Unauthorized"}`. */
  /** The literal pieces of the 401 body joined together. Kept apart from
      `UnauthorizedBodyText` so that the solver compares the literals on their own. */
  lemma UnauthorizedText()
    ensures "{\"" + "error" + "\":\"" + "Unauthorized" + "\"}" == "{\"error\":\"Unauthorized\"}"
  {
  }

  lemma UnauthorizedBodyText()
    ensures UnauthorizedBody() == "{\"error\":\"Unauthorized\"}"
  {
    assert JsonText.Plain(ErrorKey) && JsonText.Plain(UnauthorizedMessage);
    JsonText.SingleMemberText(ErrorKey, UnauthorizedMessage);
    UnauthorizedText();
  }

  // ---------------------------------------------------------------------------
  // Scenarios

  /** `/` is open: it passes untouched, with or without a token. */
  lemma ScenarioOpenRoot(origin: string, headers: map<string, string>, token: Option<Claims>)
    ensures Middleware(Request(origin, "/", "", headers), token) == Next
  {
    assert !StartsWith("/", RestrictedPrefixes[0]) && !StartsWith("/", RestrictedPrefixes[1])
           && !StartsWith("/", RestrictedPrefixes[2]);
  }

  lemma StartsWithAppend(prefix: string, rest: string)
    ensures StartsWith(prefix + rest, prefix)
  {
    assert (prefix + rest)[..|prefix|] == prefix;
  }

  /** An API call without a token is refused with 401 and the body `{"error":"Unauthorized"}`
      (see `UnauthorizedBodyText`). */
  lemma ScenarioApiWithoutToken(origin: string, headers: map<string, string>)
    ensures Middleware(Request(origin, ApiPrefix + "/ola/Brasil", "", headers), None)
            == Respond(401, map["content-type" := "application/json"], UnauthorizedBody())
  {
    StartsWithAppend(ApiPrefix, "/ola/Brasil");
    ApiCallIsRestricted(ApiPrefix + "/ola/Brasil");
  }
}
