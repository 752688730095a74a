/**
 * The `User` schema: the record's fields, their required/trim/unique constraints and defaults,
 * the default token built by `uniqueId()`, and the collection the controllers read and write.
 */
module UserModel {
  import opened Wrappers
  import opened JsText

  /**
   * One stored user. `deleteToken` and `deleteTokenExpires` are not declared by the schema but are
   * written by the account-deletion service, so they are explicit optional fields here.
   */
  datatype User = User(
    name: string,
    password: string,
    email: string,
    token: string,
    verified: bool,
    admin: bool,
    deleteToken: Option<string>,
    deleteTokenExpires: Option<int>)

  /** The digits of `Number.prototype.toString(32)`. */
  const Base32Digits: string := "0123456789abcdefghijklmnopqrstuv"

  lemma Base32DigitsAt()
    ensures |Base32Digits| == 32
    ensures forall d :: 0 <= d < 32 ==>
      Base32Digits[d] == if d < 10 then ('0' as int + d) as char else ('a' as int + d - 10) as char
  {
  }

  /** The value of one base-32 digit. */
  function Base32Value(c: char): int {
    if '0' <= c <= '9' then c as int - '0' as int else c as int - 'a' as int + 10
  }

  /** `n.toString(32)` for a whole number: non-empty, base-32 digits only, no leading zero. */
  function ToBase32(n: nat): (r: string)
    ensures |r| >= 1 && forall i :: 0 <= i < |r| ==> r[i] in Base32Digits
    ensures n > 0 ==> r[0] != '0'
    decreases n
  {
    if n < 32 then [Base32Digits[n]] else ToBase32(n / 32) + [Base32Digits[n % 32]]
  }

  /** Reads a string of base-32 digits back as a number. */
  function FromBase32(s: string): int
    decreases |s|
  {
    if s == [] then 0 else FromBase32(s[..|s| - 1]) * 32 + Base32Value(s[|s| - 1])
  }

  /** Appending one digit multiplies the value read so far by 32 and adds the digit. */
  lemma FromBase32Snoc(prefix: string, d: int)
    requires 0 <= d < 32
    ensures FromBase32(prefix + [Base32Digits[d]]) == FromBase32(prefix) * 32 + d
  {
    Base32DigitsAt();
    assert (prefix + [Base32Digits[d]])[..|prefix|] == prefix;
  }

  /** `toString(32)` loses nothing: reading the digits back gives the clock value. */
  lemma {:induction false} Base32RoundTrip(n: nat)
    ensures FromBase32(ToBase32(n)) == n
    decreases n
  {
    if n < 32 {
      FromBase32Snoc([], n);
      assert [] + [Base32Digits[n]] == ToBase32(n);
    } else {
      Base32RoundTrip(n / 32);
      FromBase32Snoc(ToBase32(n / 32), n % 32);
    }
  }

  /**
   * `uniqueId()`: `Date.now().toString(32)` followed by the digits of `Math.random().toString(32)`
   * after "0."; the clock part makes it non-empty.
   */
  function UniqueId(now: nat, randomDigits: string): (id: string)
    ensures |id| > |randomDigits| && id[|id| - |randomDigits|..] == randomDigits
    ensures FromBase32(id[..|id| - |randomDigits|]) == now
  {
    Base32RoundTrip(now);
    assert (ToBase32(now) + randomDigits)[..|ToBase32(now)|] == ToBase32(now);
    ToBase32(now) + randomDigits
  }

  /**
   * The schema's own constraints on a saved record: `name`, `password` and `email` are
   * `required` (non-empty) and pass through the `trim` setter before they are stored.
   */
  predicate SchemaValid(u: User) {
    IsTrimmedNonEmpty(u.name) && IsTrimmedNonEmpty(u.password) && IsTrimmedNonEmpty(u.email)
  }

  /**
   * What every stored record keeps: the schema's constraints, the two deletion fields set and
   * cleared together, and an account is verified exactly when its verification token is cleared.
   */
  predicate WellFormed(u: User) {
    && SchemaValid(u)
    && (u.deleteToken.Some? <==> u.deleteTokenExpires.Some?)
    && (u.verified <==> u.token == "")
  }

  /** `new User({ name, email, password })`: trim setters applied and the schema's defaults filled in. */
  function NewUser(name: string, email: string, password: string, token: string): User {
    User(Trim(name), Trim(password), Trim(email), token, false, false, None, None)
  }

  /** A new record built from non-blank fields and a non-empty token is well-formed and unverified. */
  lemma NewUserWellFormed(name: string, email: string, password: string, token: string)
    requires !IsBlank(name) && !IsBlank(email) && !IsBlank(password) && token != ""
    ensures WellFormed(NewUser(name, email, password, token))
    ensures !NewUser(name, email, password, token).verified && !NewUser(name, email, password, token).admin
  {
  }

  /** The e-mails of the records whose verification token is `token` (what `findOne({ token })` may find). */
  function TokenHolders(users: map<string, User>, token: string): set<string> {
    set e | e in users && users[e].token == token
  }

  /** Every record is filed under its own e-mail and is well-formed. */
  predicate ValidUsers(users: map<string, User>) {
    forall e :: e in users ==> users[e].email == e && WellFormed(users[e])
  }

  /** Filing a well-formed record under its own e-mail keeps the store valid. */
  lemma StoreKeepsValid(users: map<string, User>, u: User)
    requires ValidUsers(users) && WellFormed(u)
    ensures ValidUsers(users[u.email := u])
  {
  }

  /** Removing a record keeps the store valid. */
  lemma RemoveKeepsValid(users: map<string, User>, e: string)
    requires ValidUsers(users)
    ensures ValidUsers(users - {e})
  {
  }

  /** The store of user documents, keyed by e-mail: the unique index allows one record per e-mail. */
  class UserCollection {
    var users: map<string, User>

    ghost predicate Valid()
      reads this
    {
      ValidUsers(users)
    }

    constructor ()
      ensures Valid() && users == map[]
    {
      users := map[];
    }
  }
}
