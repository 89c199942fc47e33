/** Signup and login over the user table. Password hashing and comparison and token signing
    are parameters: `hash(password, rounds)`, `compare(plain, hashed)` and a `Signer`. */
module Auth {
  import opened Js
  import opened Store
  import opened Api
  import opened Jwt

  /** The bcrypt cost factor signup hashes with. */
  const SaltRounds: nat := 10

  /** The name and `maxAge` of the cookie login sets: 24 hours in milliseconds. */
  const TokenCookie := "token"
  const CookieMaxAge: nat := 24 * 60 * 60 * 1000

  const MissingFields := Response(400, Error("Email and password are required"))
  const DuplicateEmail := Response(409, Error("User with this email already exists"))
  const InvalidCredentials := Response(401, Error("Invalid credentials"))
  const LoggedIn := Response(200, Message("Login successful"))

  type Hasher = (string, nat) -> string
  type Comparer = (string, string) -> bool

  datatype Cookie = Cookie(name: string, value: string, maxAge: nat)

  /** A login response together with the cookie it sets, if any. */
  datatype LoginReply = LoginReply(response: Response, cookie: Option<Cookie>)

  /** The cookie a successful login of `u` at time `now` sets. */
  function SessionCookie(u: User, sign: Signer, now: int): Cookie
  {
    Cookie(TokenCookie, sign(Payload(u.id, u.email), now, TokenLifetime), CookieMaxAge)
  }

  /** POST /auth/signup. `storeFails` says that the store throws when it is first used. */
  method Signup(users: UserTable, email: Option<string>, password: Option<string>,
                hash: Hasher, storeFails: bool) returns (res: Response)
    requires users.Valid()
    modifies users
    ensures users.Valid()
    ensures !Truthy(email) || !Truthy(password) ==> res == MissingFields
    ensures Truthy(email) && Truthy(password) && storeFails ==> res == InternalError
    ensures Truthy(email) && Truthy(password) && !storeFails ==>
              old(users.FindByEmail(email.value)).Some? ==> res == DuplicateEmail
    ensures res.status == 201 <==>
              Truthy(email) && Truthy(password) && !storeFails && old(users.FindByEmail(email.value)).None?
    ensures res.status != 201 ==> unchanged(users)
    ensures res.status == 201 ==>
              var user := User(old(users.nextId), email.value, hash(password.value, SaltRounds));
              && users.rows == old(users.rows) + [user]
              && users.nextId == old(users.nextId) + 1
              && res == Response(201, UserCreated("User created successfully", user.id))
  {
    if !Truthy(email) || !Truthy(password) {
      return MissingFields;
    }
    if storeFails {
      return InternalError;
    }
    var existing := users.FindByEmail(email.value);
    if existing.Some? {
      return DuplicateEmail;
    }
    var hashed := hash(password.value, SaltRounds);
    var user := users.Create(email.value, hashed);
    res := Response(201, UserCreated("User created successfully", user.id));
  }

  /** POST /auth/login: a decision over a read-only lookup; it never changes the table. */
  function Login(users: UserTable, email: Option<string>, password: Option<string>,
                 compare: Comparer, sign: Signer, now: int, storeFails: bool): (reply: LoginReply)
    reads users
    ensures !Truthy(email) || !Truthy(password) ==> reply == LoginReply(MissingFields, None)
    ensures Truthy(email) && Truthy(password) && storeFails ==> reply == LoginReply(InternalError, None)
    ensures reply.response.status == 200 || reply.cookie == None
    ensures reply.response.status == 200 ==>
              exists u :: u in users.rows && u.email == email.value
                          && compare(password.value, u.password)
                          && reply == LoginReply(LoggedIn, Some(SessionCookie(u, sign, now)))
    ensures reply.response.status != 200 ==>
              reply.response in {MissingFields, InternalError, InvalidCredentials}
  {
    if !Truthy(email) || !Truthy(password) then LoginReply(MissingFields, None)
    else if storeFails then LoginReply(InternalError, None)
    else
      match users.FindByEmail(email.value)
      case None => LoginReply(InvalidCredentials, None)
      case Some(u) =>
        if !compare(password.value, u.password) then LoginReply(InvalidCredentials, None)
        else LoginReply(LoggedIn, Some(SessionCookie(u, sign, now)))
  }

  /** Stored credentials log in: the response is 200 and the cookie carries the token signed
      for that user's id and email, for 24 hours. */
  lemma LoginAcceptsStoredCredentials(users: UserTable, u: User, password: string,
                                      compare: Comparer, sign: Signer, now: int)
    requires users.Valid() && u in users.rows && u.email != "" && password != ""
    requires compare(password, u.password)
    ensures Login(users, Some(u.email), Some(password), compare, sign, now, false)
            == LoginReply(LoggedIn, Some(SessionCookie(u, sign, now)))
  {
    var found := users.FindByEmail(u.email);
    var i :| 0 <= i < |users.rows| && users.rows[i] == u;
    var j :| 0 <= j < |users.rows| && users.rows[j] == found.value;
    assert i == j;
  }

  /** No credentials match any stored user: login answers 401, whatever the email or password. */
  lemma LoginRejectsUnmatchedCredentials(users: UserTable, email: string, password: string,
                                         compare: Comparer, sign: Signer, now: int)
    requires email != "" && password != ""
    requires forall u :: u in users.rows && u.email == email ==> !compare(password, u.password)
    ensures Login(users, Some(email), Some(password), compare, sign, now, false)
            == LoginReply(InvalidCredentials, None)
  {
  }

  /** An unknown email and a wrong password for a known one get the identical reply. */
  lemma UnknownEmailLooksLikeWrongPassword(users: UserTable, unknown: string, anyPassword: string,
                                           known: string, wrongPassword: string,
                                           compare: Comparer, sign: Signer, now: int)
    requires unknown != "" && anyPassword != "" && known != "" && wrongPassword != ""
    requires forall u :: u in users.rows ==> u.email != unknown
    requires exists u :: u in users.rows && u.email == known
    requires forall u :: u in users.rows && u.email == known ==> !compare(wrongPassword, u.password)
    ensures Login(users, Some(unknown), Some(anyPassword), compare, sign, now, false)
            == Login(users, Some(known), Some(wrongPassword), compare, sign, now, false)
  {
    LoginRejectsUnmatchedCredentials(users, unknown, anyPassword, compare, sign, now);
    LoginRejectsUnmatchedCredentials(users, known, wrongPassword, compare, sign, now);
  }
}
