/** The `/auth` login handler, a chain of early-return checks ending in a token issue,
    and the `/logout` handler, which deletes the bearer token it is given. */
module AuthenticationRouters {
  import opened Common
  import opened Models
  import opened TokenService
  import Keys

  /** The two fields of the login body; `None` where the field is absent. */
  datatype LoginBody = LoginBody(email: Option<string>, password: Option<string>)

  /** The body of a successful login response. */
  datatype LoginResponse = LoginResponse(id: nat, username: string, image: Option<string>, token: string)

  /** `notEmpty()`: an absent field is validated as the empty string. */
  predicate NotEmpty(field: Option<string>) {
    field.Some? && field.value != ""
  }

  /** The validation chain: email present, then email well-formed (checked only once
      present), and password present. `isEmail` stands for the validator's address test. */
  predicate BodyValid(body: LoginBody, isEmail: string -> bool) {
    NotEmpty(body.email) && isEmail(body.email.value) && NotEmpty(body.password)
  }

  /** The ids of the users registered under `email`. */
  function UsersWithEmail(users: map<nat, User>, email: string): set<nat> {
    set k | k in users && users[k].email == email
  }

  /** `findByEmail`: the row `findOne` returns, taken as the lowest id among the users with
      that email; `None` (`null`) when there is none. */
  function FindByEmail(users: map<nat, User>, email: string): (r: Option<nat>)
    ensures r.None? <==> UsersWithEmail(users, email) == {}
    ensures r.Some? ==> r.value in users && users[r.value].email == email
    ensures r.Some? ==> forall k :: k in UsersWithEmail(users, email) ==> r.value <= k
  {
    var ids := UsersWithEmail(users, email);
    if ids == {} then None else Some(Keys.Least(ids))
  }

  /** The decision of `/auth` before any token is written: the id of the user to log in,
      or the exception passed to `next`. `passwordMatches(plain, hash)` stands for
      `bcrypt.compare`. */
  function LoginDecision(users: map<nat, User>, body: LoginBody, isEmail: string -> bool,
                         passwordMatches: (string, string) -> bool): (r: Result<nat, Exception>)
    ensures !BodyValid(body, isEmail) ==> r == Failure(AuthenticationException(None))
    ensures r.Success? ==>
      && BodyValid(body, isEmail)
      && r.value in users && users[r.value].email == body.email.value
      && passwordMatches(body.password.value, users[r.value].password)
      && !users[r.value].inactive
    ensures r.Failure? ==>
      r.error == AuthenticationException(None) || r.error == ForbiddenException(None)
    ensures r.Failure? && r.error == ForbiddenException(None) ==>
      && BodyValid(body, isEmail)
      && exists k :: k in users && users[k].email == body.email.value
           && passwordMatches(body.password.value, users[k].password) && users[k].inactive
  {
    if !BodyValid(body, isEmail) then Failure(AuthenticationException(None))
    else
      match FindByEmail(users, body.email.value)
      case None => Failure(AuthenticationException(None))
      case Some(k) =>
        if !passwordMatches(body.password.value, users[k].password) then Failure(AuthenticationException(None))
        else if users[k].inactive then Failure(ForbiddenException(None))
        else Success(k)
  }

  /** `POST /auth`: on success issues one token for the user (through `createToken`, with
      `generated` standing for the random value) and answers with the user's id, username,
      image and that token; on failure no token is written. */
  method Login(tokens: TokenStore, users: map<nat, User>, body: LoginBody, isEmail: string -> bool,
               passwordMatches: (string, string) -> bool, generated: string, now: int)
    returns (r: Result<LoginResponse, Exception>)
    requires tokens.Valid()
    modifies tokens
    ensures tokens.Valid()
    ensures match LoginDecision(users, body, isEmail, passwordMatches)
      case Failure(e) =>
        r == Failure(e) && tokens.rows == old(tokens.rows) && tokens.nextId == old(tokens.nextId)
      case Success(k) =>
        && r == Success(LoginResponse(k, users[k].username, users[k].image, generated))
        && old(tokens.nextId) !in old(tokens.rows)
        && tokens.rows == old(tokens.rows)[old(tokens.nextId) := Token(generated, k, now)]
  {
    var decision := LoginDecision(users, body, isEmail, passwordMatches);
    match decision
    case Failure(e) =>
      r := Failure(e);
    case Success(k) =>
      var token := tokens.CreateToken(k, generated, now);
      r := Success(LoginResponse(k, users[k].username, users[k].image, token));
  }

  /** A malformed body is refused before the user table is read: the answer is the same
      whatever the users and whatever the password check says. */
  lemma ValidationBeforeLookup(users1: map<nat, User>, users2: map<nat, User>, body: LoginBody,
                               isEmail: string -> bool, match1: (string, string) -> bool, match2: (string, string) -> bool)
    requires !BodyValid(body, isEmail)
    ensures LoginDecision(users1, body, isEmail, match1) == LoginDecision(users2, body, isEmail, match2)
  {
  }

  /** An unknown email is refused with `AuthenticationException`. */
  lemma UnknownEmailRefused(users: map<nat, User>, body: LoginBody, isEmail: string -> bool,
                            passwordMatches: (string, string) -> bool)
    requires BodyValid(body, isEmail)
    requires forall k :: k in users ==> users[k].email != body.email.value
    ensures LoginDecision(users, body, isEmail, passwordMatches) == Failure(AuthenticationException(None))
  {
    assert UsersWithEmail(users, body.email.value) == {};
  }

  /** The password is checked before the account state: when the account `findByEmail`
      returns has a different password, the answer is `AuthenticationException`, never
      `ForbiddenException`, whether or not that account is inactive. */
  lemma WrongPasswordBeatsInactive(users: map<nat, User>, body: LoginBody, isEmail: string -> bool,
                                   passwordMatches: (string, string) -> bool, k: nat)
    requires BodyValid(body, isEmail)
    requires FindByEmail(users, body.email.value) == Some(k)
    requires !passwordMatches(body.password.value, users[k].password)
    ensures LoginDecision(users, body, isEmail, passwordMatches) == Failure(AuthenticationException(None))
  {
  }

  /** With a single account under the email, login succeeds iff the password matches and
      the account is active, and it is refused with `ForbiddenException` iff the password
      matches and the account is inactive. */
  lemma SingleAccountOutcome(users: map<nat, User>, body: LoginBody, isEmail: string -> bool,
                             passwordMatches: (string, string) -> bool, k: nat)
    requires BodyValid(body, isEmail)
    requires UsersWithEmail(users, body.email.value) == {k}
    ensures k in users
    ensures LoginDecision(users, body, isEmail, passwordMatches).Success? <==>
      passwordMatches(body.password.value, users[k].password) && !users[k].inactive
    ensures LoginDecision(users, body, isEmail, passwordMatches) == Failure(ForbiddenException(None)) <==>
      passwordMatches(body.password.value, users[k].password) && users[k].inactive
  {
    assert k in UsersWithEmail(users, body.email.value);
    assert FindByEmail(users, body.email.value) == Some(k);
  }

  /** The token a successful login issues is accepted by `verify` at the same instant. */
  lemma IssuedTokenIsLive(rows: map<nat, Token>, id: nat, userId: nat, generated: string, now: int)
    ensures HasLive(rows[id := Token(generated, userId, now)], generated, now)
  {
    var rows' := rows[id := Token(generated, userId, now)];
    assert id in rows' && IsLive(rows'[id], generated, now);
  }

  /** `authorization.substring(7)`: the header without its first seven characters (the
      `Bearer ` prefix), or the empty string when the header is shorter. */
  function TokenFromHeader(authorization: string): (t: string)
    ensures |authorization| >= 7 ==> authorization == authorization[..7] + t
    ensures |authorization| < 7 ==> t == ""
  {
    if |authorization| < 7 then "" else authorization[7..]
  }

  /** The token a client sends as `Bearer <token>` is the one logout deletes. */
  lemma BearerRoundTrip(t: string)
    ensures TokenFromHeader("Bearer " + t) == t
  {
    assert ("Bearer " + t)[7..] == t;
  }

  /** `POST /logout`: with a (non-empty) `Authorization` header, deletes every token equal
      to the header from its eighth character on; with none, changes nothing. It always
      answers success, so there is no result. */
  method Logout(tokens: TokenStore, authorization: Option<string>)
    requires tokens.Valid()
    modifies tokens
    ensures tokens.Valid() && tokens.nextId == old(tokens.nextId)
    ensures tokens.rows ==
      if TruthyString(authorization) then WithoutValue(old(tokens.rows), TokenFromHeader(authorization.value))
      else old(tokens.rows)
  {
    if TruthyString(authorization) {
      var token := TokenFromHeader(authorization.value);
      tokens.DeleteToken(token);
    }
  }

  /** After logging out with `Bearer <t>`, the token `t` no longer verifies. */
  lemma LogoutEndsSession(rows: map<nat, Token>, t: string, now: int)
    ensures !HasLive(WithoutValue(rows, TokenFromHeader("Bearer " + t)), t, now)
  {
    BearerRoundTrip(t);
    DeletedTokenNeverVerifies(rows, t, now);
  }
}
