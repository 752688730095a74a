/**
 * `requestAccountDeletion`: an unverified account is removed at once; a verified one gets a
 * one-hour deletion token, which is mailed and withdrawn again if the mail cannot be sent.
 */
module DeleteEmailService {
  import opened Wrappers
  import opened JsText
  import opened UserModel

  newtype Byte = b: int | 0 <= b < 256

  /** The digits of `Buffer.prototype.toString("hex")`. */
  const HexDigits: string := "0123456789abcdef"

  lemma HexDigitsAt()
    ensures |HexDigits| == 16
    ensures forall d :: 0 <= d < 16 ==>
      HexDigits[d] == if d < 10 then ('0' as int + d) as char else ('a' as int + d - 10) as char
  {
  }

  /** A lower-case hex digit. */
  predicate IsHexDigit(c: char) {
    '0' <= c <= '9' || 'a' <= c <= 'f'
  }

  /** The value of a hex digit: the inverse of indexing `HexDigits`. */
  function HexValue(c: char): (d: int)
    ensures IsHexDigit(c) ==> 0 <= d < 16 && HexDigits[d] == c
  {
    HexDigitsAt();
    if '0' <= c <= '9' then c as int - '0' as int else c as int - 'a' as int + 10
  }

  lemma HexValueOfDigit(d: int)
    requires 0 <= d < 16
    ensures IsHexDigit(HexDigits[d]) && HexValue(HexDigits[d]) == d
  {
    HexDigitsAt();
  }

  /** `buffer.toString("hex")`: two lower-case digits per byte, high nibble first. */
  function Hex(bytes: seq<Byte>): (s: string)
    ensures |s| == 2 * |bytes|
    ensures forall i :: 0 <= i < |s| ==> IsHexDigit(s[i])
  {
    HexDigitsAt();
    if bytes == [] then ""
    else [HexDigits[bytes[0] / 16], HexDigits[bytes[0] % 16]] + Hex(bytes[1..])
  }

  /** Reads pairs of hex digits back as bytes (a trailing odd digit is ignored). */
  function Unhex(s: string): seq<Byte>
    decreases |s|
  {
    if |s| < 2 then [] else [((HexValue(s[0]) * 16 + HexValue(s[1])) % 256) as Byte] + Unhex(s[2..])
  }

  /** Reading a digit pair followed by more digits gives that byte, then the rest. */
  lemma UnhexPair(b: Byte, rest: string)
    ensures Unhex([HexDigits[b / 16], HexDigits[b % 16]] + rest) == [b] + Unhex(rest)
  {
    HexValueOfDigit(b as int / 16);
    HexValueOfDigit(b as int % 16);
    var s := [HexDigits[b / 16], HexDigits[b % 16]] + rest;
    assert s[2..] == rest;
  }

  /** The hex text loses nothing: the bytes can be read back from it. */
  lemma {:induction false} HexRoundTrip(bytes: seq<Byte>)
    ensures Unhex(Hex(bytes)) == bytes
  {
    if bytes != [] {
      HexRoundTrip(bytes[1..]);
      UnhexPair(bytes[0], Hex(bytes[1..]));
      assert bytes == [bytes[0]] + bytes[1..];
    }
  }

  /** Different random bytes give different tokens. */
  lemma HexInjective(a: seq<Byte>, b: seq<Byte>)
    requires Hex(a) == Hex(b)
    ensures a == b
  {
    HexRoundTrip(a);
    HexRoundTrip(b);
  }

  /** `crypto.randomBytes(20)`: the number of random bytes in a deletion token. */
  const TokenBytes: nat := 20

  /** One hour in milliseconds: how long a deletion token stays valid. */
  const TokenLifetime: int := 3600000

  /** `generateToken()`, given the 20 bytes `randomBytes` returned: 40 lower-case hex digits. */
  function GenerateToken(random: seq<Byte>): (token: string)
    requires |random| == TokenBytes
    ensures |token| == 40 && forall i :: 0 <= i < |token| ==> IsHexDigit(token[i])
  {
    Hex(random)
  }

  /** The record with a pending deletion: the token and its expiry set together. */
  function WithDeletionToken(u: User, token: string, expires: int): User {
    u.(deleteToken := Some(token), deleteTokenExpires := Some(expires))
  }

  /** The record with both deletion fields assigned `undefined`. */
  function WithoutDeletionToken(u: User): User {
    u.(deleteToken := None, deleteTokenExpires := None)
  }

  /** Setting or clearing the deletion fields keeps a record well-formed and touches nothing else. */
  lemma DeletionFieldsKeepWellFormed(u: User, token: string, expires: int)
    requires WellFormed(u)
    ensures WellFormed(WithDeletionToken(u, token, expires)) && WellFormed(WithoutDeletionToken(u))
    ensures WithDeletionToken(u, token, expires).(deleteToken := u.deleteToken, deleteTokenExpires := u.deleteTokenExpires) == u
  {
  }

  /**
   * Withdrawing a token after a failed mail leaves no pending deletion, whatever was pending
   * before; a record that had none is restored exactly.
   */
  lemma WithdrawUndoesPending(u: User, token: string, expires: int)
    ensures WithoutDeletionToken(WithDeletionToken(u, token, expires)) == WithoutDeletionToken(u)
    ensures u.deleteToken == None && u.deleteTokenExpires == None ==>
      WithoutDeletionToken(WithDeletionToken(u, token, expires)) == u
  {
  }

  datatype DeletionMessage = EmailNotFound | UnverifiedDeleted | ConfirmationSent | SendFailed | ServerFailed

  /** The `{ status, message }` object the service returns; `error`/`success` follow from the status. */
  datatype DeletionReply = DeletionReply(status: nat, msg: DeletionMessage)

  /**
   * `requestAccountDeletion(email)`. `random` is what `randomBytes(20)` returns and `now` the
   * clock; `storeFails` says the delete or the first save throws, `mailFails` that the
   * confirmation mail throws, `revertFails` that the save withdrawing the token throws.
   */
  method RequestAccountDeletion(db: UserCollection, email: string, random: seq<Byte>, now: int,
                                storeFails: bool, mailFails: bool, revertFails: bool) returns (reply: DeletionReply)
    requires db.Valid() && |random| == TokenBytes
    modifies db
    ensures db.Valid()
    ensures Trim(email) !in old(db.users) ==>
      reply == DeletionReply(404, EmailNotFound) && db.users == old(db.users)
    ensures Trim(email) in old(db.users) && !old(db.users)[Trim(email)].verified ==>
      if storeFails then reply == DeletionReply(500, ServerFailed) && db.users == old(db.users)
      else reply == DeletionReply(200, UnverifiedDeleted) && db.users == old(db.users) - {Trim(email)}
    ensures Trim(email) in old(db.users) && old(db.users)[Trim(email)].verified ==>
      VerifiedOutcome(old(db.users), Trim(email), GenerateToken(random), now + TokenLifetime,
                      storeFails, mailFails, revertFails, reply, db.users)
  {
    var key := Trim(email);
    if key !in db.users {
      return DeletionReply(404, EmailNotFound);
    }
    if !db.users[key].verified {
      if storeFails {
        return DeletionReply(500, ServerFailed);
      }
      RemoveKeepsValid(db.users, key);
      db.users := db.users - {key};
      return DeletionReply(200, UnverifiedDeleted);
    }
    reply := RequestForVerified(db, key, GenerateToken(random), now + TokenLifetime, storeFails, mailFails, revertFails);
  }

  /**
   * The outcomes for a verified account: the first save fails and nothing changes; the mail is
   * sent and the token is kept; the mail fails and the token is withdrawn again; or that second
   * save fails too and the token stays stored.
   */
  ghost predicate VerifiedOutcome(before: map<string, User>, key: string, token: string, expires: int,
                                  storeFails: bool, mailFails: bool, revertFails: bool,
                                  reply: DeletionReply, after: map<string, User>)
    requires key in before
  {
    var pending := WithDeletionToken(before[key], token, expires);
    if storeFails then
      reply == DeletionReply(500, ServerFailed) && after == before
    else if !mailFails then
      reply == DeletionReply(200, ConfirmationSent) && after == before[key := pending]
    else if !revertFails then
      reply == DeletionReply(500, SendFailed) && after == before[key := WithoutDeletionToken(pending)]
    else
      reply == DeletionReply(500, ServerFailed) && after == before[key := pending]
  }

  /** Lines 41-76 of `requestAccountDeletion`, once the account is known to be verified. */
  method RequestForVerified(db: UserCollection, key: string, token: string, expires: int,
                            storeFails: bool, mailFails: bool, revertFails: bool) returns (reply: DeletionReply)
    requires db.Valid() && key in db.users
    modifies db
    ensures db.Valid()
    ensures VerifiedOutcome(old(db.users), key, token, expires, storeFails, mailFails, revertFails, reply, db.users)
  {
    var user := db.users[key];
    var pending := WithDeletionToken(user, token, expires);
    if storeFails {
      return DeletionReply(500, ServerFailed);
    }
    DeletionFieldsKeepWellFormed(user, token, expires);
    StoreKeepsValid(db.users, pending);
    db.users := db.users[key := pending];
    if !mailFails {
      return DeletionReply(200, ConfirmationSent);
    }
    if revertFails {
      return DeletionReply(500, ServerFailed);
    }
    DeletionFieldsKeepWellFormed(pending, token, expires);
    StoreKeepsValid(db.users, WithoutDeletionToken(pending));
    db.users := db.users[key := WithoutDeletionToken(pending)];
    reply := DeletionReply(500, SendFailed);
  }

  /**
   * Whenever the service answers 200 for a verified account, the stored record holds the token
   * that was mailed, valid until one hour from `now`, and every other record is as it was.
   */
  lemma SentTokenIsStored(before: map<string, User>, key: string, random: seq<Byte>, now: int,
                          storeFails: bool, mailFails: bool, revertFails: bool,
                          reply: DeletionReply, after: map<string, User>)
    requires key in before && |random| == TokenBytes
    requires VerifiedOutcome(before, key, GenerateToken(random), now + TokenLifetime,
                             storeFails, mailFails, revertFails, reply, after)
    requires reply.status == 200
    ensures key in after
    ensures after[key].deleteToken == Some(GenerateToken(random))
    ensures after[key].deleteTokenExpires == Some(now + TokenLifetime)
    ensures now < after[key].deleteTokenExpires.value
    ensures forall e :: e != key ==> (e in after <==> e in before) && (e in after ==> after[e] == before[e])
  {
  }

  /**
   * What `user.save()` writes under the schema as written, which declares neither deletion
   * field: in Mongoose's default strict mode the assignments to undeclared paths are not
   * saved, so the stored record keeps its previous deletion fields.
   */
  function SavedUnderDeclaredSchema(stored: User, edited: User): User {
    edited.(deleteToken := stored.deleteToken, deleteTokenExpires := stored.deleteTokenExpires)
  }

  /**
   * With the schema as written, the service can answer "confirmation sent" for a verified
   * account with no pending deletion while the store holds no token for the mailed one to match.
   */
  lemma MailedTokenNotStoredAsWritten(u: User, random: seq<Byte>, now: int)
    requires u.verified && u.deleteToken == None && |random| == TokenBytes
    ensures WithDeletionToken(u, GenerateToken(random), now + TokenLifetime).deleteToken == Some(GenerateToken(random))
    ensures SavedUnderDeclaredSchema(u, WithDeletionToken(u, GenerateToken(random), now + TokenLifetime)).deleteToken == None
  {
  }
}
