/**
 * `verfifyJWT` (src/middlewares/auth.middleware.js): the gate in front of every protected
 * route. It takes the access token from the request, verifies it, looks its subject up in
 * the user store and either attaches the sanitized record to the request and calls `next`,
 * or throws. Every failure inside the `try` is caught and rethrown as the same 401.
 */
module AuthMiddleware {
  import opened Wrappers
  import opened JsString
  import opened UserModel

  /** The decoded payload `jwt.verify` returns; only its `_id` claim is read. */
  datatype Claims = Claims(id: Option<UserId>)

  datatype ApiError = ApiError(status: int, message: string)

  const BearerPrefix := "Bearer "
  const TokenMissingMessage := "Unauthorized access, token missing"
  const UserNotFoundMessage := "Unauthorized access, user not found"
  const InvalidTokenMessage := "Unauthorized access, invalid token"

  /** Why the `try` block threw. */
  datatype Rejection =
    | TokenMissing        // line 16
    | VerificationFailed  // `jwt.verify` threw: malformed, expired, bad signature, missing secret
    | UserNotFound        // line 24: no `_id` claim, or no record under it

  /** What the `try` block ends with: the record to attach, or the reason it threw. */
  datatype Decision = Admit(user: PublicUser) | Deny(reason: Rejection)

  /**
   * `req.cookies?.accessToken || req.header("Authorization")?.replace("Bearer ", "")`:
   * a truthy cookie wins; otherwise the header with its first "Bearer " removed, if there is a header.
   */
  function ExtractToken(cookie: Option<string>, authorization: Option<string>): Option<string> {
    if Truthy(cookie) then cookie
    else match authorization
      case None => None
      case Some(header) => Some(ReplaceFirst(header, BearerPrefix, ""))
  }

  /**
   * Lines 11-25: `verify(token, secret)` stands for `jwt.verify` keyed by the access-token
   * secret, None standing for a thrown error.
   */
  function Decide(users: map<UserId, User>, cookie: Option<string>, authorization: Option<string>,
                  verify: (string, string) -> Option<Claims>, secret: string): Decision
  {
    var token := ExtractToken(cookie, authorization);
    if !Truthy(token) then Deny(TokenMissing)
    else match verify(token.value, secret)
      case None => Deny(VerificationFailed)
      case Some(decoded) =>
        if decoded.id.None? then Deny(UserNotFound)
        else match FindById(users, decoded.id.value)
          case None => Deny(UserNotFound)
          case Some(user) => Admit(user)
  }

  /** The message the `try` block throws with (the library's own for a failed verification). */
  function InnerMessage(reason: Rejection, libraryMessage: string): string {
    match reason
    case TokenMissing => TokenMissingMessage
    case VerificationFailed => libraryMessage
    case UserNotFound => UserNotFoundMessage
  }

  /** The `catch` block: whatever was thrown inside, the same error leaves the middleware. */
  function Rethrow(reason: Rejection, innerMessage: string): ApiError {
    ApiError(401, InvalidTokenMessage)
  }

  /** What leaves the middleware for a decision: nothing on admission, else the `catch` block's error. */
  function Thrown(d: Decision, libraryMessage: string): Option<ApiError> {
    match d
    case Admit(_) => None
    case Deny(reason) => Some(Rethrow(reason, InnerMessage(reason, libraryMessage)))
  }

  /** The request object as the middleware sees and changes it. */
  class Request {
    /** `req.cookies?.accessToken`: None when there are no parsed cookies or no such cookie. */
    const cookieAccessToken: Option<string>
    /** `req.header("Authorization")`. */
    const authorization: Option<string>
    /** `req.user`. */
    var user: Option<PublicUser>
    /** How many times the middleware has called `next()`. */
    var nextCalls: nat

    constructor (cookieAccessToken: Option<string>, authorization: Option<string>)
      ensures this.cookieAccessToken == cookieAccessToken && this.authorization == authorization
      ensures user == None && nextCalls == 0
    {
      this.cookieAccessToken := cookieAccessToken;
      this.authorization := authorization;
      user := None;
      nextCalls := 0;
    }
  }

  /**
   * The middleware. On success `req.user` is the sanitized record of the token's subject and
   * `next()` is called once; on any failure `req.user` and `next` are left alone and the one
   * 401 is thrown. The store is only read.
   */
  method VerifyJwt(req: Request, store: UserStore, verify: (string, string) -> Option<Claims>,
                   accessTokenSecret: string, libraryMessage: string)
    returns (thrown: Option<ApiError>)
    modifies req
    ensures unchanged(store)
    ensures thrown == Thrown(Decide(store.users, req.cookieAccessToken, req.authorization, verify, accessTokenSecret), libraryMessage)
    ensures match Decide(store.users, req.cookieAccessToken, req.authorization, verify, accessTokenSecret)
      case Admit(u) => thrown == None && req.user == Some(u) && req.nextCalls == old(req.nextCalls) + 1
      case Deny(_) =>
        && thrown == Some(ApiError(401, InvalidTokenMessage))
        && req.user == old(req.user) && req.nextCalls == old(req.nextCalls)
  {
    // try
    var failure: Option<Rejection> := None;
    var token := ExtractToken(req.cookieAccessToken, req.authorization);
    if !Truthy(token) {
      failure := Some(TokenMissing);
    } else {
      var decodedToken := verify(token.value, accessTokenSecret);
      if decodedToken.None? {
        failure := Some(VerificationFailed);
      } else {
        var user := if decodedToken.value.id.Some? then FindById(store.users, decodedToken.value.id.value) else None;
        if user.None? {
          failure := Some(UserNotFound);
        } else {
          req.user := user;
          req.nextCalls := req.nextCalls + 1;
        }
      }
    }
    // catch
    if failure.Some? {
      var error := Rethrow(failure.value, InnerMessage(failure.value, libraryMessage));
      return Some(error);
    }
    return None;
  }

  // ---------------------------------------------------------------------------
  // Properties of the gate
  // ---------------------------------------------------------------------------

  /** A truthy `accessToken` cookie is the token, whatever the `Authorization` header says. */
  lemma CookieTakesPrecedence(cookie: Option<string>, header1: Option<string>, header2: Option<string>)
    requires Truthy(cookie)
    ensures ExtractToken(cookie, header1) == cookie
    ensures ExtractToken(cookie, header1) == ExtractToken(cookie, header2)
  {
  }

  /**
   * With an empty or absent cookie the header is used, with its first "Bearer " removed:
   * "Bearer t" gives "t"; a header without "Bearer " is taken whole; and a "Bearer " further
   * in is removed from the middle (no strict prefix check).
   */
  lemma HeaderFallback(cookie: Option<string>, header: string, t: string, i: nat)
    requires !Truthy(cookie)
    ensures ExtractToken(cookie, Some(BearerPrefix + t)) == Some(t)
    ensures (forall j :: !OccursAt(header, BearerPrefix, j)) ==> ExtractToken(cookie, Some(header)) == Some(header)
    ensures OccursAt(header, BearerPrefix, i) && (forall j :: 0 <= j < i ==> !OccursAt(header, BearerPrefix, j)) ==>
      ExtractToken(cookie, Some(header)) == Some(header[..i] + header[i + |BearerPrefix|..])
    ensures ExtractToken(cookie, None) == None
  {
    RemoveLeadingPattern(BearerPrefix, t);
    if forall j :: !OccursAt(header, BearerPrefix, j) {
      ReplaceFirstWithoutOccurrence(header, BearerPrefix, "");
    }
    if OccursAt(header, BearerPrefix, i) && (forall j :: 0 <= j < i ==> !OccursAt(header, BearerPrefix, j)) {
      ReplaceFirstAtFirstOccurrence(header, BearerPrefix, "", i);
      assert header[..i] + "" == header[..i];
    }
  }

  /**
   * Without a token (no truthy cookie and no header, or a header that is empty once
   * "Bearer " is removed) the gate rejects, and neither the verifier nor the store is consulted.
   */
  lemma MissingTokenRejected(users: map<UserId, User>, users2: map<UserId, User>,
                             cookie: Option<string>, authorization: Option<string>,
                             verify: (string, string) -> Option<Claims>, verify2: (string, string) -> Option<Claims>,
                             secret: string)
    requires !Truthy(ExtractToken(cookie, authorization))
    ensures Decide(users, cookie, authorization, verify, secret) == Deny(TokenMissing)
    ensures Decide(users, cookie, authorization, verify, secret) == Decide(users2, cookie, authorization, verify2, secret)
  {
  }

  /** A token that verifies but whose `_id` names no stored record is rejected. */
  lemma UnknownSubjectRejected(users: map<UserId, User>, cookie: Option<string>, authorization: Option<string>,
                               verify: (string, string) -> Option<Claims>, secret: string)
    requires Truthy(ExtractToken(cookie, authorization))
    requires var claims := verify(ExtractToken(cookie, authorization).value, secret);
      claims.Some? && (claims.value.id.None? || claims.value.id.value !in users)
    ensures Decide(users, cookie, authorization, verify, secret) == Deny(UserNotFound)
  {
  }

  /**
   * The gate admits exactly the requests whose token verifies to an `_id` that names a stored
   * record, and then attaches that record without its password and refresh token.
   */
  lemma AdmitsExactlyStoredSubjects(users: map<UserId, User>, cookie: Option<string>, authorization: Option<string>,
                                    verify: (string, string) -> Option<Claims>, secret: string)
    ensures var d := Decide(users, cookie, authorization, verify, secret);
      var token := ExtractToken(cookie, authorization);
      d.Admit? <==>
        && Truthy(token)
        && verify(token.value, secret).Some?
        && verify(token.value, secret).value.id.Some?
        && verify(token.value, secret).value.id.value in users
    ensures var d := Decide(users, cookie, authorization, verify, secret);
      var token := ExtractToken(cookie, authorization);
      d.Admit? ==>
        var id := verify(token.value, secret).value.id.value;
        d.user == Sanitize(id, users[id]) && d.user.id == id
  {
  }

  /**
   * Uniform rejection: of two requests the middleware turns away, whatever their reasons and
   * whatever the library threw for them, both leave as the same 401, so callers cannot tell a
   * missing token from a bad one or from a vanished user; the messages of lines 16 and 24
   * never reach them. A request leaves with no error exactly when it is admitted.
   */
  lemma RejectionIsUniform(users1: map<UserId, User>, cookie1: Option<string>, authorization1: Option<string>,
                           users2: map<UserId, User>, cookie2: Option<string>, authorization2: Option<string>,
                           verify: (string, string) -> Option<Claims>, secret: string, m1: string, m2: string)
    ensures var d1 := Decide(users1, cookie1, authorization1, verify, secret);
      Thrown(d1, m1).None? <==> d1.Admit?
    ensures var d1 := Decide(users1, cookie1, authorization1, verify, secret);
      var d2 := Decide(users2, cookie2, authorization2, verify, secret);
      d1.Deny? && d2.Deny? ==>
        && Thrown(d1, m1) == Thrown(d2, m2) == Some(ApiError(401, InvalidTokenMessage))
        && Thrown(d1, m1).value.message != TokenMissingMessage
        && Thrown(d1, m1).value.message != UserNotFoundMessage
  {
    assert InvalidTokenMessage[23] != TokenMissingMessage[23];
    assert InvalidTokenMessage[23] != UserNotFoundMessage[23];
  }
}
