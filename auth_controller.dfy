/**
 * The three exported authentication handlers: registration, account verification and login.
 * Each handler's answer is a status code with one of the messages the handler can send; the
 * store is the user collection, and hashing, e-mail, the clock and the network are parameters.
 */
module AuthController {
  import opened Wrappers
  import opened JsText
  import opened PasswordPolicy
  import opened PasswordRegex
  import opened PwnedLookup
  import opened UserModel

  /** The distinct `msg` texts the handlers send. */
  datatype AuthMessage =
    | FieldsRequired
    | PasswordRejected(check: PasswordCheck)
    | PublicPassword
    | EmailTaken
    | RegisterServerError
    | Registered
    | InvalidToken
    | AccountConfirmed
    | ConfirmServerError
    | EmptyCredentials
    | UserNotFound
    | NotVerified
    | WrongPassword
    | LoginServerError
    | LoggedIn

  datatype Reply = Reply(status: nat, msg: AuthMessage)

  /** `!field || field.trim() === ""` for a body field that is absent or a string. */
  predicate Missing(field: Option<string>) {
    field.None? || IsBlank(field.value)
  }

  /** `!field` for a body field that is absent or a string: absent, or the empty string. */
  predicate Falsy(field: Option<string>) {
    field.None? || field.value == ""
  }

  /**
   * The checks `register` makes before it looks at the store: the blank-field gate, then the
   * six password checks in order, then the breach lookup. `None` means every check let the
   * request through; otherwise the 400 reply it gets.
   */
  function ScreenRegistration(name: Option<string>, email: Option<string>, password: Option<string>,
                              patterns: seq<string>, digest: string, fetch: string -> FetchResult): (r: Option<Reply>)
    ensures r.Some? ==> r.value.status == 400
    ensures r == Some(Reply(400, FieldsRequired)) <==> Missing(name) || Missing(email) || Missing(password)
    ensures r.None? <==>
      && !Missing(name) && !Missing(email) && !Missing(password)
      && FirstFailure(password.value, patterns) == None
      && !IsPwnedPassword(digest, fetch)
    ensures forall c :: r == Some(Reply(400, PasswordRejected(c))) <==>
      && !Missing(name) && !Missing(email) && !Missing(password)
      && FirstFailure(password.value, patterns) == Some(c)
    ensures r == Some(Reply(400, PublicPassword)) <==>
      && !Missing(name) && !Missing(email) && !Missing(password)
      && FirstFailure(password.value, patterns) == None
      && IsPwnedPassword(digest, fetch)
  {
    if Missing(name) || Missing(email) || Missing(password) then
      Some(Reply(400, FieldsRequired))
    else
      match FirstFailure(password.value, patterns)
      case Some(c) => Some(Reply(400, PasswordRejected(c)))
      case None => if IsPwnedPassword(digest, fetch) then Some(Reply(400, PublicPassword)) else None
  }

  /**
   * `register`. `digest` is the SHA-1 hex digest of the password and `fetch` the range API;
   * `hashed` is what bcrypt makes of the password; `now` and `randomDigits` feed `uniqueId()`;
   * `lookupFails` says the duplicate lookup throws and `storeFails` that hashing or saving
   * throws. The verification e-mail's outcome is caught and does not change the answer, so it
   * is not a parameter.
   */
  method Register(db: UserCollection, name: Option<string>, email: Option<string>, password: Option<string>,
                  config: Option<string>, digest: string, fetch: string -> FetchResult,
                  hashed: string, now: nat, randomDigits: string, lookupFails: bool, storeFails: bool)
    returns (reply: Reply)
    requires db.Valid()
    requires !IsBlank(hashed)
    modifies db
    ensures db.Valid()
    ensures ScreenRegistration(name, email, password, CommonPatterns(config), digest, fetch).Some? ==>
      && reply == ScreenRegistration(name, email, password, CommonPatterns(config), digest, fetch).value
      && db.users == old(db.users)
    ensures ScreenRegistration(name, email, password, CommonPatterns(config), digest, fetch).None? ==>
      SaveOutcome(old(db.users), NewUser(name.value, email.value, hashed, UniqueId(now, randomDigits)),
                  lookupFails, storeFails, reply, db.users)
  {
    if Missing(name) || Missing(email) || Missing(password) {
      return Reply(400, FieldsRequired);
    }
    var patterns := CommonPatterns(config);
    var failure := RunPasswordChecks(password.value, patterns);
    if failure.Some? {
      return Reply(400, PasswordRejected(failure.value));
    }
    if IsPwnedPassword(digest, fetch) {
      return Reply(400, PublicPassword);
    }
    var token := UniqueId(now, randomDigits);
    NewUserWellFormed(name.value, email.value, hashed, token);
    reply := SaveNewUser(db, NewUser(name.value, email.value, hashed, token), lookupFails, storeFails);
  }

  /**
   * What the store step of `register` does with the new record `user`: 500 if the duplicate
   * lookup throws, 409 if its e-mail is taken, 500 if hashing or saving throws, otherwise 201
   * with the record added under its e-mail.
   */
  ghost predicate SaveOutcome(before: map<string, User>, user: User, lookupFails: bool, storeFails: bool,
                              reply: Reply, after: map<string, User>)
  {
    if lookupFails then
      reply == Reply(500, RegisterServerError) && after == before
    else if user.email in before then
      reply == Reply(409, EmailTaken) && after == before
    else if storeFails then
      reply == Reply(500, RegisterServerError) && after == before
    else
      reply == Reply(201, Registered) && after == before[user.email := user]
  }

  /**
   * Lines 152-203 of `register`: the duplicate check (the lookup casts the e-mail through the
   * trim setter, so it finds the key the new record would be stored under), then the save.
   */
  method SaveNewUser(db: UserCollection, user: User, lookupFails: bool, storeFails: bool) returns (reply: Reply)
    requires db.Valid() && WellFormed(user)
    modifies db
    ensures db.Valid()
    ensures SaveOutcome(old(db.users), user, lookupFails, storeFails, reply, db.users)
  {
    if lookupFails {
      return Reply(500, RegisterServerError);
    }
    if user.email in db.users {
      return Reply(409, EmailTaken);
    }
    if storeFails {
      return Reply(500, RegisterServerError);
    }
    StoreKeepsValid(db.users, user);
    db.users := db.users[user.email := user];
    reply := Reply(201, Registered);
  }

  /** A registered account is stored unverified, under the trimmed e-mail, with a non-empty token. */
  lemma RegisteredRecord(name: string, email: string, hashed: string, now: nat, randomDigits: string)
    ensures var u := NewUser(name, email, hashed, UniqueId(now, randomDigits));
      u.email == Trim(email) && !u.verified && !u.admin && u.token != "" && u.password == Trim(hashed)
  {
  }

  /** A request that passes the screen carries a password meeting every one of the six checks. */
  lemma ScreenedPasswordIsStrong(name: Option<string>, email: Option<string>, password: Option<string>,
                                 patterns: seq<string>, digest: string, fetch: string -> FetchResult)
    requires ScreenRegistration(name, email, password, patterns, digest, fetch).None?
    ensures password.Some? && |password.value| >= 16
    ensures HasUppercase(password.value) && HasLowercase(password.value) && HasDigit(password.value)
    ensures HasSpecialChar(password.value) && !IsCommon(password.value, patterns)
  {
    AcceptedPasswordIsStrong(password.value, patterns);
  }

  /** The record a confirmed account is saved as: verified, with its verification token cleared. */
  function Confirmed(u: User): (v: User)
    ensures v.verified && v.token == "" && v.email == u.email && v.password == u.password && v.name == u.name
    ensures v.deleteToken == u.deleteToken && v.deleteTokenExpires == u.deleteTokenExpires && v.admin == u.admin
  {
    u.(verified := true, token := "")
  }

  /**
   * `verifyAccount`: find a record holding `token`, mark it verified and clear the token.
   * `storeFails` says the save throws.
   */
  method VerifyAccount(db: UserCollection, token: string, storeFails: bool) returns (reply: Reply)
    requires db.Valid()
    modifies db
    ensures db.Valid()
    ensures TokenHolders(old(db.users), token) == {} ==>
      reply == Reply(401, InvalidToken) && db.users == old(db.users)
    ensures TokenHolders(old(db.users), token) != {} && storeFails ==>
      reply == Reply(500, ConfirmServerError) && db.users == old(db.users)
    ensures TokenHolders(old(db.users), token) != {} && !storeFails ==>
      && reply == Reply(200, AccountConfirmed)
      && exists e :: e in TokenHolders(old(db.users), token) && db.users == old(db.users)[e := Confirmed(old(db.users)[e])]
  {
    var holders := TokenHolders(db.users, token);
    if holders == {} {
      return Reply(401, InvalidToken);
    }
    var e :| e in holders;
    if storeFails {
      return Reply(500, ConfirmServerError);
    }
    ConfirmedWellFormed(db.users[e]);
    StoreKeepsValid(db.users, Confirmed(db.users[e]));
    db.users := db.users[e := Confirmed(db.users[e])];
    reply := Reply(200, AccountConfirmed);
  }

  /**
   * Verification uses a token up: after the holder of a non-empty token is confirmed, one fewer
   * record holds it, so replaying a token that only one account held is answered 401.
   */
  lemma ConfirmSpendsToken(users: map<string, User>, token: string, e: string)
    requires token != "" && e in TokenHolders(users, token)
    ensures TokenHolders(users[e := Confirmed(users[e])], token) == TokenHolders(users, token) - {e}
  {
  }

  /** Confirming an account cannot take it outside the store's invariant. */
  lemma ConfirmedWellFormed(u: User)
    requires WellFormed(u)
    ensures WellFormed(Confirmed(u))
  {
  }

  /**
   * `login`. `compare` is bcrypt's comparison of a plain password with a stored hash.
   * `lookupFails` says `findOne` throws and `compareFails` that `bcrypt.compare` throws; both
   * are caught and answered 500. Lookups use the e-mail as the schema's trim setter casts it.
   */
  function Login(users: map<string, User>, email: Option<string>, password: Option<string>,
                 compare: (string, string) -> bool, lookupFails: bool, compareFails: bool): (r: Reply)
    ensures r.status == 400 <==> Falsy(email) || Falsy(password)
    ensures r == Reply(200, LoggedIn) <==>
      && !Falsy(email) && !Falsy(password) && !lookupFails
      && Trim(email.value) in users
      && users[Trim(email.value)].verified
      && !compareFails
      && compare(password.value, users[Trim(email.value)].password)
    ensures r.status in {200, 400, 401, 500}
    ensures r.status == 200 ==> r.msg == LoggedIn
    ensures r == Reply(400, EmptyCredentials) <==> Falsy(email) || Falsy(password)
    ensures r == Reply(500, LoginServerError) <==>
      && !Falsy(email) && !Falsy(password)
      && (lookupFails || (Trim(email.value) in users && users[Trim(email.value)].verified && compareFails))
    ensures r == Reply(401, UserNotFound) <==>
      !Falsy(email) && !Falsy(password) && !lookupFails && Trim(email.value) !in users
    ensures r == Reply(401, NotVerified) <==>
      && !Falsy(email) && !Falsy(password) && !lookupFails
      && Trim(email.value) in users && !users[Trim(email.value)].verified
    ensures r == Reply(401, WrongPassword) <==>
      && !Falsy(email) && !Falsy(password) && !lookupFails
      && Trim(email.value) in users && users[Trim(email.value)].verified
      && !compareFails && !compare(password.value, users[Trim(email.value)].password)
  {
    if Falsy(email) || Falsy(password) then Reply(400, EmptyCredentials)
    else if lookupFails then Reply(500, LoginServerError)
    else
      var key := Trim(email.value);
      if key !in users then Reply(401, UserNotFound)
      else if !users[key].verified then Reply(401, NotVerified)
      else if compareFails then Reply(500, LoginServerError)
      else if !compare(password.value, users[key].password) then Reply(401, WrongPassword)
      else Reply(200, LoggedIn)
  }

  /** An account that registered and was never confirmed cannot log in, whatever the password. */
  lemma UnconfirmedCannotLogIn(users: map<string, User>, email: string, password: Option<string>,
                               compare: (string, string) -> bool, lookupFails: bool, compareFails: bool)
    requires Trim(email) in users && users[Trim(email)].token != "" && WellFormed(users[Trim(email)])
    ensures Login(users, Some(email), password, compare, lookupFails, compareFails).status != 200
  {
  }
}
