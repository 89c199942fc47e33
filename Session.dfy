/** The handlers together: a user who signs up can log in; the cookie login sets opens the
    token gate until the token expires once the application parses request cookies into the
    gate's `cookie` input, and, as deployed without a cookie parser, that input is always
    absent and a request carrying only the login cookie is refused. What the token codec does
    is stated pointwise, as `requires` on the signer and verifier at the times involved. */
module Session {
  import opened Js
  import opened Store
  import opened Api
  import opened Jwt
  import opened Auth
  import opened Gate

  /** Before expiry, the token of a successful login passes the gate, whatever header comes with
      it, and the gate attaches the id and email of a stored user with that email. */
  lemma LoginTokenPassesGate(users: UserTable, email: Option<string>, password: Option<string>,
                             compare: Comparer, sign: Signer, verify: Verifier,
                             now: int, later: int, authorization: Option<string>)
    requires Login(users, email, password, compare, sign, now, false).response.status == 200
    requires now <= later < now + TokenLifetime
    requires forall p: Payload :: sign(p, now, TokenLifetime) != ""
    requires forall p: Payload :: verify(sign(p, now, TokenLifetime), later)
                                  == Some(Claims(p.userId, p.email, now, now + TokenLifetime))
    ensures var cookie := Login(users, email, password, compare, sign, now, false).cookie;
            && cookie.Some? && cookie.value.name == TokenCookie && cookie.value.maxAge == CookieMaxAge
            && exists u :: u in users.rows && u.email == email.value
                           && Decide(Some(cookie.value.value), authorization, verify, later)
                              == Proceed(Claims(u.id, u.email, now, now + TokenLifetime))
  {
    var reply := Login(users, email, password, compare, sign, now, false);
    var u :| u in users.rows && u.email == email.value && compare(password.value, u.password)
             && reply == LoginReply(LoggedIn, Some(SessionCookie(u, sign, now)));
    var token := sign(Payload(u.id, u.email), now, TokenLifetime);
    assert token != "";
    assert verify(token, later) == Some(Claims(u.id, u.email, now, now + TokenLifetime));
  }

  /** As deployed, no cookie parser fills `req.cookies`, so the gate's cookie input is absent:
      the login cookie is set, yet a request that carries only that cookie is answered 401. */
  lemma DeployedGateIgnoresLoginCookie(users: UserTable, email: Option<string>, password: Option<string>,
                                       compare: Comparer, sign: Signer, verify: Verifier,
                                       now: int, later: int)
    requires Login(users, email, password, compare, sign, now, false).response.status == 200
    ensures Login(users, email, password, compare, sign, now, false).cookie.Some?
    ensures Decide(None, None, verify, later) == Reject(NoToken)
  {
    MissingTokenIsUnauthenticated(None, None, verify, later);
  }

  /** Once the token has expired the gate answers 403, and `next` is not reached. */
  lemma ExpiredLoginTokenIsRejected(users: UserTable, email: Option<string>, password: Option<string>,
                                    compare: Comparer, sign: Signer, verify: Verifier,
                                    now: int, later: int, authorization: Option<string>)
    requires Login(users, email, password, compare, sign, now, false).response.status == 200
    requires later >= now + TokenLifetime
    requires forall p: Payload :: sign(p, now, TokenLifetime) != ""
    requires forall p: Payload :: verify(sign(p, now, TokenLifetime), later) == None
    ensures var cookie := Login(users, email, password, compare, sign, now, false).cookie;
            && cookie.Some?
            && Decide(Some(cookie.value.value), authorization, verify, later) == Reject(BadToken)
  {
    var reply := Login(users, email, password, compare, sign, now, false);
    var u :| u in users.rows && u.email == email.value && compare(password.value, u.password)
             && reply == LoginReply(LoggedIn, Some(SessionCookie(u, sign, now)));
    var token := sign(Payload(u.id, u.email), now, TokenLifetime);
    assert token != "";
    assert verify(token, later) == None;
  }

  /** When `compare` accepts a password against its own hash, signing up and then logging in
      with the same credentials succeeds, and the cookie carries a token for the new user. */
  method SignupThenLogin(users: UserTable, email: string, password: string,
                         hash: Hasher, compare: Comparer, sign: Signer, now: int)
    returns (created: Response, reply: LoginReply)
    requires users.Valid()
    requires compare(password, hash(password, SaltRounds))
    modifies users
    ensures users.Valid()
    ensures created.status == 201 <==> email != "" && password != "" && old(users.FindByEmail(email)).None?
    ensures created.status == 201 ==>
              && created.body.UserCreated?
              && reply == LoginReply(LoggedIn, Some(SessionCookie(
                                       User(created.body.userId, email, hash(password, SaltRounds)), sign, now)))
  {
    created := Signup(users, Some(email), Some(password), hash, false);
    if created.status == 201 {
      LoginAcceptsStoredCredentials(users, users.rows[|users.rows| - 1], password, compare, sign, now);
    }
    reply := Login(users, Some(email), Some(password), compare, sign, now, false);
  }
}
