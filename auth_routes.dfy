/**
 * The auth router: register (email uniqueness, then a hashed insert), login
 * (one answer for every credential failure, then a signed token in a cookie) and
 * logout (the cookie cleared). bcrypt and JWT appear only through `Crypto`.
 */
module AuthRoutes {
  import opened Wrappers
  import opened Entities
  import opened Envelope
  import opened Backend

  /** The bcrypt cost factor register passes to `bcrypt.hash`. */
  const SaltRounds := 10

  /** The `expiresIn` option of the login token. */
  const TokenLifetime := "1d"

  /** `jwt.sign({ userId }, secret, { expiresIn })`. */
  datatype SignRequest = SignRequest(userId: Id, secret: string, expiresIn: string)

  /**
   * `bcrypt.hash(password, rounds)`, `bcrypt.compare(password, digest)` and
   * `jwt.sign`, taken as given functions: the salt bcrypt draws is folded into `hash`.
   */
  datatype Crypto = Crypto(
    hash: (string, nat) -> string,
    compare: (string, string) -> bool,
    sign: SignRequest -> string)

  /** The one property assumed of bcrypt: a password matches its own digest. */
  ghost predicate HashVerifies(c: Crypto) {
    forall password :: c.compare(password, c.hash(password, SaltRounds))
  }

  /** The login failure response, the same for an unknown email and a wrong password. */
  const InvalidCredentials := Response(Unauthorized, "Invalid Credentials", NoData)

  /** Some user already has this primary key. */
  predicate IdTaken(users: map<Email, User>, id: Id) {
    exists e :: e in users && users[e].id == id
  }

  /**
   * POST `/register`: rejects a known email, otherwise stores the user with the
   * bcrypt digest of the password and answers with its id and email only.
   * `newId` is the key the store assigns; one in use makes the insert throw.
   */
  function Register(s: State, email: Email, password: string, crypto: Crypto, newId: Id,
                    faults: set<Call>): (h: Handled)
    ensures h.after == s.(users := h.after.users)
    ensures h.resp.kind != Ok ==> h.after == s
    ensures UserFindUnique in faults ==> h.resp == Failure("Failed to registration")
    ensures UserFindUnique !in faults && email in s.users ==>
      h.resp == Response(Conflict, "Email is already existed", NoData)
    ensures UserFindUnique !in faults && email !in s.users && h.resp.kind != Ok ==>
      h.resp == Failure("Failed to registration")
    ensures h.resp.kind == Ok <==>
      && UserFindUnique !in faults && email !in s.users
      && BcryptHash !in faults && UserCreate !in faults && !IdTaken(s.users, newId)
    ensures h.resp.kind == Ok ==>
      && h.after.users == s.users[email := User(newId, email, crypto.hash(password, SaltRounds))]
      && |h.after.users| == |s.users| + 1
      && h.resp == Response(Ok, "Register successful", Registered(newId, email))
    ensures h.resp.kind in {Ok, Conflict, ServerError}
  {
    if UserFindUnique in faults then Handled(Failure("Failed to registration"), s)
    else if email in s.users then Handled(Response(Conflict, "Email is already existed", NoData), s)
    else if BcryptHash in faults || UserCreate in faults || IdTaken(s.users, newId) then
      Handled(Failure("Failed to registration"), s)
    else
      var user := User(newId, email, crypto.hash(password, SaltRounds));
      Handled(Response(Ok, "Register successful", Registered(user.id, user.email)),
              s.(users := s.users[email := user]))
  }

  /**
   * POST `/login`: an unknown email and a wrong password give the same answer;
   * `compare` runs only for a known email. On success the token signed over the
   * user's id is set as cookie `token` and returned. Nothing here catches: a
   * throwing lookup, compare or sign leaves the request unanswered.
   */
  function Login(s: State, email: Email, password: string, crypto: Crypto, secret: string,
                 options: CookieOptions, faults: set<Call>): (h: Handled)
    ensures h.after == s.(tokenCookie := h.after.tokenCookie)
    ensures h.resp.kind != Ok ==> h.after == s
    ensures UserFindUnique in faults ==> h.resp == Unanswered
    ensures UserFindUnique !in faults && email !in s.users ==> h.resp == InvalidCredentials
    ensures (UserFindUnique !in faults && email in s.users && BcryptCompare !in faults
             && !crypto.compare(password, s.users[email].password)) ==> h.resp == InvalidCredentials
    ensures (&& UserFindUnique !in faults && email in s.users
             && (|| BcryptCompare in faults
                 || (crypto.compare(password, s.users[email].password) && JwtSign in faults)))
            ==> h.resp == Unanswered
    ensures h.resp.kind == Ok <==>
      && UserFindUnique !in faults && email in s.users
      && BcryptCompare !in faults && crypto.compare(password, s.users[email].password)
      && JwtSign !in faults
    ensures h.resp.kind == Ok ==>
      var user := s.users[email];
      var token := crypto.sign(SignRequest(user.id, secret, TokenLifetime));
      && h.after.tokenCookie == Issued(token, options)
      && h.resp == Response(Ok, "Login Successful", LoggedIn(user.id, email, token))
    ensures h.resp.kind in {Ok, Unauthorized, Unhandled}
  {
    if UserFindUnique in faults then Handled(Unanswered, s)
    else if email !in s.users then Handled(InvalidCredentials, s)
    else
      var user := s.users[email];
      if BcryptCompare in faults then Handled(Unanswered, s)
      else if !crypto.compare(password, user.password) then Handled(InvalidCredentials, s)
      else if JwtSign in faults then Handled(Unanswered, s)
      else
        var token := crypto.sign(SignRequest(user.id, secret, TokenLifetime));
        Handled(Response(Ok, "Login Successful", LoggedIn(user.id, email, token)),
                s.(tokenCookie := Issued(token, options)))
  }

  /** POST `/logout`: always succeeds and clears cookie `token` with `maxAge` unset. */
  function Logout(s: State, options: CookieOptions): (h: Handled)
    ensures h.resp == Response(Ok, "Logout successful", NoData)
    ensures h.after == s.(tokenCookie := Cleared(options.(maxAge := None)))
  {
    Handled(Response(Ok, "Logout successful", NoData), s.(tokenCookie := Cleared(options.(maxAge := None))))
  }

  // ---- Properties relating several requests ----

  /** Logging out twice is the same as logging out once. */
  lemma LogoutIdempotent(s: State, options: CookieOptions)
    ensures Logout(Logout(s, options).after, options) == Logout(s, options)
  {
  }

  /** Logout's outcome does not depend on the cookie already set. */
  lemma LogoutIgnoresSession(s: State, s': State, options: CookieOptions)
    requires s.(tokenCookie := s'.tokenCookie) == s'
    ensures Logout(s, options) == Logout(s', options)
  {
  }

  /**
   * An unknown email and a known email with a wrong password cannot be told apart:
   * same response, same state.
   */
  lemma LoginFailuresIndistinguishable(s: State, unknown: Email, known: Email, p1: string, p2: string,
                                       crypto: Crypto, secret: string, options: CookieOptions,
                                       faults: set<Call>)
    requires UserFindUnique !in faults && BcryptCompare !in faults
    requires unknown !in s.users && known in s.users && !crypto.compare(p2, s.users[known].password)
    ensures Login(s, unknown, p1, crypto, secret, options, faults)
            == Login(s, known, p2, crypto, secret, options, faults)
  {
  }

  /** Registering the same email twice: the second request is rejected and stores nothing. */
  lemma RegisterTwice(s: State, email: Email, p1: string, p2: string, crypto: Crypto, id1: Id, id2: Id,
                      faults: set<Call>)
    requires Register(s, email, p1, crypto, id1, {}).resp.kind == Ok
    requires UserFindUnique !in faults
    ensures var first := Register(s, email, p1, crypto, id1, {}).after;
            Register(first, email, p2, crypto, id2, faults)
              == Handled(Response(Conflict, "Email is already existed", NoData), first)
  {
  }

  /**
   * With a bcrypt whose digests verify, a user who just registered can log in with
   * the same password and receives a token signed over the new id.
   */
  lemma RegisterThenLogin(s: State, email: Email, password: string, crypto: Crypto, newId: Id,
                          secret: string, options: CookieOptions, faults: set<Call>)
    requires HashVerifies(crypto)
    requires Register(s, email, password, crypto, newId, {}).resp.kind == Ok
    requires UserFindUnique !in faults && BcryptCompare !in faults && JwtSign !in faults
    ensures var h := Login(Register(s, email, password, crypto, newId, {}).after, email, password,
                           crypto, secret, options, faults);
            h.resp == Response(Ok, "Login Successful",
                               LoggedIn(newId, email, crypto.sign(SignRequest(newId, secret, TokenLifetime))))
  {
    var after := Register(s, email, password, crypto, newId, {}).after;
    assert after.users[email].password == crypto.hash(password, SaltRounds);
  }

  /** Register keeps every user filed under its own email with a primary key of its own. */
  lemma RegisterPreservesValid(s: State, email: Email, password: string, crypto: Crypto, newId: Id,
                               faults: set<Call>)
    requires Valid(s)
    ensures Valid(Register(s, email, password, crypto, newId, faults).after)
  {
  }
}
