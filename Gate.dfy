/** The token gate in front of the protected routes: it takes the token from the `token`
    cookie or the `Authorization` header, verifies it, and either rejects the request or
    attaches the decoded claims to it and passes it on. */
module Gate {
  import opened Js
  import opened Api
  import opened Jwt

  const BearerPrefix := "Bearer "

  const NoToken := Response(401, Error("Access denied. No token provided."))
  const BadToken := Response(403, Error("Invalid or expired token"))

  /** `req.cookies?.token || req.header('Authorization')?.replace('Bearer ', '')`;
      None stands for `undefined`. */
  function ExtractToken(cookie: Option<string>, authorization: Option<string>): (token: Option<string>)
    ensures Truthy(cookie) ==> token == cookie
    ensures !Truthy(cookie) ==> (token.Some? <==> authorization.Some?)
    ensures !Truthy(cookie) && authorization.Some? && IndexOf(authorization.value, BearerPrefix).None? ==>
              token == authorization
    ensures !Truthy(cookie) && authorization.Some? && IndexOf(authorization.value, BearerPrefix).Some? ==>
              var i := IndexOf(authorization.value, BearerPrefix).value;
              token == Some(authorization.value[..i] + authorization.value[i + |BearerPrefix|..])
  {
    if Truthy(cookie) then cookie
    else
      match authorization
      case None => None
      case Some(h) => Some(ReplaceFirst(h, BearerPrefix, ""))
  }

  /** The gate's decision, as a value. */
  datatype Decision = Reject(response: Response) | Proceed(claims: Claims)

  /** What the gate does with a request carrying `cookie` and `authorization`, at time `now`. */
  function Decide(cookie: Option<string>, authorization: Option<string>, verify: Verifier, now: int): (d: Decision)
    ensures d.Reject? ==> d.response == NoToken || d.response == BadToken
    ensures d.Proceed? ==> Truthy(ExtractToken(cookie, authorization))
                           && verify(ExtractToken(cookie, authorization).value, now) == Some(d.claims)
  {
    var token := ExtractToken(cookie, authorization);
    if !Truthy(token) then Reject(NoToken)
    else
      match verify(token.value, now)
      case None => Reject(BadToken)
      case Some(claims) => Proceed(claims)
  }

  /** A header `Bearer <t>` with no usable cookie yields exactly `t`. */
  lemma BearerHeaderYieldsToken(cookie: Option<string>, t: string)
    requires !Truthy(cookie)
    ensures ExtractToken(cookie, Some(BearerPrefix + t)) == Some(t)
  {
    ReplaceLeadingPattern(BearerPrefix, t);
  }

  /** Without a usable cookie, a missing header or a bare `Bearer ` header is answered 401. */
  lemma MissingTokenIsUnauthenticated(cookie: Option<string>, authorization: Option<string>,
                                      verify: Verifier, now: int)
    requires !Truthy(cookie)
    requires authorization == None || authorization == Some(BearerPrefix)
    ensures Decide(cookie, authorization, verify, now) == Reject(NoToken)
  {
    if authorization.Some? {
      assert BearerPrefix == BearerPrefix + "";
      BearerHeaderYieldsToken(cookie, "");
    }
  }

  /** The gate answers 401 exactly when no token can be extracted, 403 exactly when a token is
      extracted and fails verification, and proceeds with exactly the verified claims otherwise. */
  lemma DecisionIsThreeWay(cookie: Option<string>, authorization: Option<string>,
                           verify: Verifier, now: int)
    ensures var token := ExtractToken(cookie, authorization);
            && (Decide(cookie, authorization, verify, now) == Reject(NoToken) <==> !Truthy(token))
            && (Decide(cookie, authorization, verify, now) == Reject(BadToken) <==>
                  Truthy(token) && verify(token.value, now).None?)
            && (forall c :: Decide(cookie, authorization, verify, now) == Proceed(c) <==>
                  Truthy(token) && verify(token.value, now) == Some(c))
  {
  }

  /** The request and response objects the gate sees: the credentials the request carries,
      `req.user`, the response written (if any) and the number of times `next` was called. */
  class Exchange {
    const cookie: Option<string>
    const authorization: Option<string>
    var user: Option<Claims>
    var response: Option<Response>
    var nextCalls: nat

    constructor (cookie: Option<string>, authorization: Option<string>)
      ensures this.cookie == cookie && this.authorization == authorization
      ensures user == None && response == None && nextCalls == 0
    {
      this.cookie := cookie;
      this.authorization := authorization;
      user := None;
      response := None;
      nextCalls := 0;
    }
  }

  /** `authenticateToken(req, res, next)`, run before any response has been written. */
  method AuthenticateToken(ex: Exchange, verify: Verifier, now: int)
    requires ex.response == None
    modifies ex
    ensures match Decide(ex.cookie, ex.authorization, verify, now)
            case Reject(r) =>
              ex.response == Some(r) && ex.user == old(ex.user) && ex.nextCalls == old(ex.nextCalls)
            case Proceed(c) =>
              ex.user == Some(c) && ex.response == old(ex.response) && ex.nextCalls == old(ex.nextCalls) + 1
    // exactly one of: a response is written, or `next` is called once
    ensures ex.response.Some? != (ex.nextCalls == old(ex.nextCalls) + 1)
  {
    var token := ExtractToken(ex.cookie, ex.authorization);
    if !Truthy(token) {
      ex.response := Some(NoToken);
      return;
    }
    var decoded := verify(token.value, now);
    if decoded.None? {
      ex.response := Some(BadToken);
      return;
    }
    ex.user := decoded;
    ex.nextCalls := ex.nextCalls + 1;
  }
}
