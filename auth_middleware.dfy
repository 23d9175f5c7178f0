/**
 * middlewares/authMiddleware.js: the bearer-token gate in front of the product mutations.
 * A request passes (Express's `next()`) only with an `Authorization: Bearer <token>` header
 * whose token jsonwebtoken accepts; every rejection answers 401.
 */
module AuthMiddleware {
  import opened Basics
  import opened Text
  import opened Tokens

  /** The gate's decision: call the next handler with the request as it is, or answer with a status and a message. */
  datatype GateResult = Next | Reject(status: int, message: string)

  const BearerPrefix: string := "Bearer "
  const CredentialsRequired: string := "Credentials is required"
  const TokenExpired: string := "Token expired"
  const InvalidToken: string := "Invalid token"

  /** `authHeader.split(' ')[1]` for a header that starts with "Bearer ". */
  function BearerToken(header: string): (t: Option<string>)
    ensures t.Some? <==> StartsWith(header, BearerPrefix)
  {
    if StartsWith(header, BearerPrefix) then
      var rest := header[|BearerPrefix|..];
      assert header == "Bearer" + [' '] + rest;
      SplitAtFirst("Bearer", rest, ' ');
      Some(Split(header, ' ')[1])
    else None
  }

  /** `authMiddleware(req, res, next)` with the Authorization header, the verifier, and the clock in milliseconds. */
  function Gate(header: Option<string>, j: Jwt, nowMs: nat): (r: GateResult)
    ensures r.Reject? ==> r.status == 401
    ensures r == Reject(401, CredentialsRequired) <==>
      header.None? || BearerToken(header.value).None? || BearerToken(header.value) == Some("")
    ensures r == Next <==>
      header.Some? && BearerToken(header.value).Some? && BearerToken(header.value).value != "" &&
      j.verify(BearerToken(header.value).value, nowMs / 1000).Verified?
    ensures r == Reject(401, TokenExpired) <==>
      header.Some? && BearerToken(header.value).Some? && BearerToken(header.value).value != "" &&
      j.verify(BearerToken(header.value).value, nowMs / 1000) == Failed(ExpiredErrorName)
    ensures r == Reject(401, InvalidToken) <==>
      header.Some? && BearerToken(header.value).Some? && BearerToken(header.value).value != "" &&
      j.verify(BearerToken(header.value).value, nowMs / 1000).Failed? &&
      j.verify(BearerToken(header.value).value, nowMs / 1000).errorName != ExpiredErrorName
  {
    if header.None? || header.value == "" || !StartsWith(header.value, BearerPrefix) then
      Reject(401, CredentialsRequired)
    else
      var token := BearerToken(header.value).value;
      if token == "" then Reject(401, CredentialsRequired)
      else
        match j.verify(token, nowMs / 1000)
        case Verified(_) => Next
        case Failed(name) => if name == ExpiredErrorName then Reject(401, TokenExpired) else Reject(401, InvalidToken)
  }

  /**
   * The token is the text after "Bearer " up to the next space: it holds no space, and it is
   * either the whole rest of the header or followed by a space (any further fields are ignored).
   */
  lemma BearerTokenIsSecondField(header: string)
    requires StartsWith(header, BearerPrefix)
    ensures var t := BearerToken(header).value; var rest := header[|BearerPrefix|..];
      ' ' !in t && (t == rest || StartsWith(rest, t + " "))
  {
    var rest := header[|BearerPrefix|..];
    assert header == "Bearer" + [' '] + rest;
    SplitAtFirst("Bearer", rest, ' ');
    SplitFirstPiece(rest, ' ');
  }

  /** A header "Bearer <token>" whose token has no space carries exactly that token. */
  lemma BearerTokenOfHeader(token: string)
    requires ' ' !in token
    ensures BearerToken(BearerPrefix + token) == Some(token)
  {
    var header := BearerPrefix + token;
    assert header[..|BearerPrefix|] == BearerPrefix;
    assert header == "Bearer" + [' '] + token;
    SplitAtFirst("Bearer", token, ' ');
    SplitWithoutSeparator(token, ' ');
  }

  /**
   * A token presented one day or more after it was issued is turned away with 'Token expired';
   * before that it lets the request through.
   */
  lemma GateAndTokenAge(j: Jwt, email: string, username: string, issuedMs: nat, nowMs: nat)
    requires JwtSound(j)
    requires var t := CreateToken(j, email, username, issuedMs); t != "" && ' ' !in t
    ensures var t := CreateToken(j, email, username, issuedMs);
      Gate(Some(BearerPrefix + t), j, nowMs) ==
        if nowMs / 1000 < issuedMs / 1000 + OneDay then Next else Reject(401, TokenExpired)
  {
    BearerTokenOfHeader(CreateToken(j, email, username, issuedMs));
  }
}
