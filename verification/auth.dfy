/** The `auth` middleware, and what the handlers read from the request it
    prepares: `req.userId` and `req.user`. */
module Auth {
  import opened Wrappers
  import opened Text
  import opened Documents
  import opened Http

  /** The claims of a verified token, `{ userId, role, username }`. A claim
      that is absent is the empty string: the handlers only compare `role`
      with "admin" and test `username` for truthiness. */
  datatype Payload = Payload(userId: string, role: string, username: string)

  /** The request after the middleware ran: `req.userId` and `req.user`. */
  datatype Principal = Principal(userId: string, user: Payload)

  /** The identity a handler sees; none when no middleware set one. */
  type Caller = Option<Principal>

  /** `jwt.verify(token, secret)`: the payload, or none when it throws. */
  type TokenVerifier = string -> Option<Payload>

  datatype AuthResult = Authenticated(principal: Principal) | Rejected(response: Response)

  const MissingToken := "Unauthorized: missing token"
  const InvalidToken := "Unauthorized: invalid token"

  /** `req.headers.authorization || ''`. */
  function HeaderText(header: Option<string>): string {
    if header.Some? then header.value else ""
  }

  /** `type` in `const [type, token] = header.split(' ')`. */
  function Scheme(h: string): string {
    Split(h, ' ')[0]
  }

  /** `token` in `const [type, token] = header.split(' ')`; an absent second
      part is falsy like the empty one, so both are "". */
  function Token(h: string): string {
    var parts := Split(h, ' ');
    if |parts| > 1 then parts[1] else ""
  }

  /** The middleware: the scheme must be exactly `Bearer` and the second
      space-separated part non-empty, else 401 "missing token"; a token the
      verifier refuses gives 401 "invalid token"; otherwise the request
      carries the payload as `req.user` and its `userId` as `req.userId`. */
  function Authenticate(verify: TokenVerifier, header: Option<string>): (r: AuthResult)
    ensures r.Rejected? ==> r.response.status == Unauthorized
    ensures header.None? ==> r == Rejected(Fail(Unauthorized, MissingToken))
    ensures Scheme(HeaderText(header)) != "Bearer" ==> r == Rejected(Fail(Unauthorized, MissingToken))
    ensures Token(HeaderText(header)) == "" ==> r == Rejected(Fail(Unauthorized, MissingToken))
    ensures (Scheme(HeaderText(header)) == "Bearer" && Token(HeaderText(header)) != ""
      && verify(Token(HeaderText(header))).None?) ==>
      r == Rejected(Fail(Unauthorized, InvalidToken))
    ensures r.Authenticated? <==>
      && Scheme(HeaderText(header)) == "Bearer"
      && Token(HeaderText(header)) != ""
      && verify(Token(HeaderText(header))).Some?
    ensures r.Authenticated? ==>
      && r.principal.user == verify(Token(HeaderText(header))).value
      && r.principal.userId == r.principal.user.userId
  {
    var h := HeaderText(header);
    if header.None? then
      assert Split(h, ' ') == [""];
      Rejected(Fail(Unauthorized, MissingToken))
    else if Scheme(h) != "Bearer" || Token(h) == "" then
      Rejected(Fail(Unauthorized, MissingToken))
    else match verify(Token(h))
      case None => Rejected(Fail(Unauthorized, InvalidToken))
      case Some(p) => Authenticated(Principal(p.userId, p))
  }

  /** The identity the middleware hands on, if it let the request through. */
  function CallerOf(r: AuthResult): (c: Caller)
    ensures c.Some? <==> r.Authenticated?
  {
    if r.Authenticated? then Some(r.principal) else None
  }

  /** `safeObjectId(req.userId)`: the caller's id, or none when there is no
      caller or its id does not parse. */
  function CallerId(parseId: IdParser, caller: Caller): Option<ObjectId> {
    match caller
    case None => None
    case Some(pr) => parseId(pr.userId)
  }

  /** `req.user && req.user.role === 'admin'`. */
  predicate IsAdmin(caller: Caller) {
    caller.Some? && caller.value.user.role == "admin"
  }

  /** `req.user?.username || 'User'`. */
  function AuthorName(caller: Caller): (name: string)
    ensures name != ""
    ensures caller.Some? && caller.value.user.username != "" ==> name == caller.value.user.username
    ensures !(caller.Some? && caller.value.user.username != "") ==> name == "User"
  {
    if caller.Some? && caller.value.user.username != "" then caller.value.user.username else "User"
  }

  /** A well-formed header `Bearer <token>` reaches the verifier with exactly
      that token, and the request carries what the verifier returns. */
  lemma BearerHeaderReachesVerifier(verify: TokenVerifier, token: string)
    requires token != [] && ' ' !in token
    ensures verify(token).None? ==>
      Authenticate(verify, Some("Bearer " + token)) == Rejected(Fail(Unauthorized, InvalidToken))
    ensures verify(token).Some? ==>
      Authenticate(verify, Some("Bearer " + token))
        == Authenticated(Principal(verify(token).value.userId, verify(token).value))
  {
    assert "Bearer " + token == "Bearer" + [' '] + token;
    SplitAtFirst("Bearer", token, ' ');
    SplitWithoutSeparator(token, ' ');
  }

  /** What a handler reads from a request sent with `Bearer <token>` whose
      token verifies to payload `p`: its id is the parse of `p.userId`, it
      is an admin exactly when `p.role` is "admin", and it signs comments
      with `p.username`, or "User" when that is empty. */
  lemma BearerCallerCarriesPayload(verify: TokenVerifier, parseId: IdParser, token: string, p: Payload)
    requires token != [] && ' ' !in token && verify(token) == Some(p)
    ensures var caller := CallerOf(Authenticate(verify, Some("Bearer " + token)));
      && caller.Some?
      && CallerId(parseId, caller) == parseId(p.userId)
      && (IsAdmin(caller) <==> p.role == "admin")
      && AuthorName(caller) == (if p.username != "" then p.username else "User")
  {
    BearerHeaderReachesVerifier(verify, token);
  }

  /** Two spaces after `Bearer` leave an empty second part: 401 whatever the
      token and whatever the verifier would say. */
  lemma DoubleSpaceIsMissingToken(verify: TokenVerifier, x: string)
    ensures Authenticate(verify, Some("Bearer  " + x)) == Rejected(Fail(Unauthorized, MissingToken))
  {
    assert "Bearer  " + x == "Bearer" + [' '] + ([' '] + x);
    SplitAtFirst("Bearer", [' '] + x, ' ');
    assert [' '] + x == [] + [' '] + x;
    SplitAtFirst([], x, ' ');
  }

  /** Anything after a second space is ignored: only the second part is
      the token. */
  lemma TrailingPartsIgnored(verify: TokenVerifier, token: string, rest: string)
    requires token != [] && ' ' !in token
    ensures Authenticate(verify, Some("Bearer " + token + " " + rest))
      == Authenticate(verify, Some("Bearer " + token))
  {
    assert "Bearer " + token + " " + rest == "Bearer" + [' '] + (token + [' '] + rest);
    SplitAtFirst("Bearer", token + [' '] + rest, ' ');
    SplitAtFirst(token, rest, ' ');
    BearerHeaderReachesVerifier(verify, token);
  }

  /** Another scheme, such as `Basic` or a lower-case `bearer`, is refused
      before the verifier is consulted. */
  lemma OtherSchemeRefused(verify: TokenVerifier, scheme: string, token: string)
    requires scheme != "Bearer" && ' ' !in scheme
    ensures Authenticate(verify, Some(scheme + " " + token)) == Rejected(Fail(Unauthorized, MissingToken))
  {
    assert scheme + " " + token == scheme + [' '] + token;
    SplitAtFirst(scheme, token, ' ');
  }
}
