/**
 * The helpers of functions/encodedDecoded.js: password hashing and checking (bcrypt), token
 * issuance and verification (jsonwebtoken), and the base64 payload a token carries.
 *
 * bcrypt and jsonwebtoken are libraries outside the model. Each is a value of a datatype whose
 * fields are the library's functions, with the process-wide signing secret folded into the
 * token functions; what the libraries promise is stated as a predicate that the properties
 * below take as a hypothesis.
 */
module Tokens {
  import opened Basics
  import Text
  import Utf8
  import Base64

  /** bcrypt: `hash(password, rounds, salt)` and `compare(password, hash)`; the salt is bcrypt's random choice. */
  datatype Hasher = Hasher(hash: (string, nat, nat) -> string, compare: (string, string) -> bool)

  /** The cost factor passed to `bcrypt.hash`. */
  const SaltRounds: nat := 10

  /** bcrypt's promise: a password matches every hash made from it. */
  ghost predicate HasherSound(h: Hasher) {
    forall p, rounds, salt :: h.compare(p, h.hash(p, rounds, salt))
  }

  /** `hashPassword(password)`. */
  function HashPassword(h: Hasher, password: string, salt: nat): string {
    h.hash(password, SaltRounds, salt)
  }

  /** `comparePassword(password, hashedPassword)`. */
  function ComparePassword(h: Hasher, password: string, hashed: string): bool {
    h.compare(password, hashed)
  }

  /** The claims of a token: the `data` field, and the issue and expiry times in epoch seconds. */
  datatype Claims = Claims(data: string, iat: int, exp: int)

  /** What `jwt.verify` does: return the claims, or throw an error with the given `name`. */
  datatype Verification = Verified(claims: Claims) | Failed(errorName: string)

  /** The name jsonwebtoken gives the error for a token past its expiry. */
  const ExpiredErrorName: string := "TokenExpiredError"

  /** jsonwebtoken with the secret of `process.env.JWT_SECRET`: `sign(claims)` and `verify(token, now in seconds)`. */
  datatype Jwt = Jwt(sign: Claims -> string, verify: (string, int) -> Verification)

  /**
   * jsonwebtoken's promise for tokens it signed: verification gives back the claims before the
   * expiry time, and fails with TokenExpiredError from the expiry time on.
   */
  ghost predicate JwtSound(j: Jwt) {
    forall c, now :: j.verify(j.sign(c), now) == if now < c.exp then Verified(c) else Failed(ExpiredErrorName)
  }

  /** `expiresIn: '1d'`, in seconds. */
  const OneDay: int := 86400

  /** The token payload: the base64 form of the UTF-8 bytes of `${email}:${username}`. */
  function Payload(email: string, username: string): string {
    Base64.Encode(Utf8.Encode(email + ":" + username))
  }

  /** The claims `jwt.sign` builds at time `nowMs` (milliseconds since the epoch). */
  function TokenClaims(email: string, username: string, nowMs: nat): Claims {
    var iat := nowMs / 1000;
    Claims(Payload(email, username), iat, iat + OneDay)
  }

  /** `createToken(email, username)`. */
  function CreateToken(j: Jwt, email: string, username: string, nowMs: nat): string {
    j.sign(TokenClaims(email, username, nowMs))
  }

  /** `verifyToken(token)` at time `nowMs`. */
  function VerifyToken(j: Jwt, token: string, nowMs: nat): Verification {
    j.verify(token, nowMs / 1000)
  }

  /** The `{ email, username }` object of `decodedBase64`; a missing username is `undefined`. */
  datatype Decoded = Decoded(email: string, username: Option<string>)

  /** The text a base64 payload stands for. */
  function PayloadText(data: string): string {
    Utf8.Decode(Base64.Decode(data))
  }

  /**
   * `decodedBase64(data)`: decode, split on every ':', and keep the first two pieces. The
   * email is the text before the first ':' (all of it when there is none), and there is a
   * username exactly when the text has a ':'.
   */
  function DecodedBase64(data: string): (r: Decoded)
    ensures ':' !in r.email
    ensures r.email == PayloadText(data) || Text.StartsWith(PayloadText(data), r.email + ":")
    ensures r.username.None? <==> ':' !in PayloadText(data)
    ensures r.username.Some? ==> ':' !in r.username.value
  {
    var text := PayloadText(data);
    var parts := Text.Split(text, ':');
    Text.SplitFirstPiece(text, ':');
    Text.SplitOnePiece(text, ':');
    Text.SplitPiecesFree(text, ':');
    Decoded(parts[0], if |parts| > 1 then Some(parts[1]) else None)
  }

  /** The payload of `createToken` decodes to the text it was built from. */
  lemma PayloadTextRoundTrip(email: string, username: string)
    ensures PayloadText(Payload(email, username)) == email + ":" + username
  {
    var text := email + ":" + username;
    Base64.DecodeEncode(Utf8.Encode(text));
    Utf8.DecodeEncode(text);
  }

  /** Decoding the payload of `createToken` gives back the email and the username when neither holds a ':'. */
  lemma DecodePayload(email: string, username: string)
    requires ':' !in email && ':' !in username
    ensures DecodedBase64(Payload(email, username)) == Decoded(email, Some(username))
  {
    PayloadTextRoundTrip(email, username);
    Text.SplitAtFirst(email, username, ':');
    Text.SplitWithoutSeparator(username, ':');
  }

  /**
   * A ':' inside the email shifts the fields: the decoded email is the text before that ':',
   * and the decoded username is the rest of the email.
   */
  lemma {:induction false} DecodePayloadShifted(e1: string, e2: string, username: string)
    requires ':' !in e1 && ':' !in e2
    ensures DecodedBase64(Payload(e1 + ":" + e2, username)) == Decoded(e1, Some(e2))
  {
    var text := e1 + ":" + e2 + ":" + username;
    PayloadTextRoundTrip(e1 + ":" + e2, username);
    assert text == e1 + [':'] + (e2 + [':'] + username);
    Text.SplitAtFirst(e1, e2 + [':'] + username, ':');
    Text.SplitAtFirst(e2, username, ':');
  }

  /**
   * A token from `createToken` at time `nowMs` verifies, with the claims it was signed with,
   * for exactly one day (86400 seconds counted from the issue second); from then on it fails
   * with TokenExpiredError.
   */
  lemma TokenLifetime(j: Jwt, email: string, username: string, nowMs: nat, laterMs: nat)
    requires JwtSound(j)
    ensures var v := VerifyToken(j, CreateToken(j, email, username, nowMs), laterMs);
      v == if laterMs / 1000 < nowMs / 1000 + OneDay
           then Verified(TokenClaims(email, username, nowMs))
           else Failed(ExpiredErrorName)
  {
  }
}
