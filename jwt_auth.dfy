/**
 * The bearer-token gate in front of the task routes: it takes the credential
 * from an `Authorization: Bearer <token>` header (section 2.1 of RFC 6750),
 * has it parsed and its HS256 signature checked (section 3.2 of RFC 7518),
 * and either rejects the request with a fixed message or lets it through
 * with the token's user id bound.
 *
 * Decoding a JWT and checking its signature and expiry are library calls; they
 * are the caller-supplied `parse` (header and claims of a token, if it decodes)
 * and `verify(token, key, alg)` (signature, expiry and validity).
 */
module JwtAuth {
  import opened Wrappers
  import opened GoStrings

  const BearerPrefix := "Bearer "
  const HS256 := "HS256"

  const MissingBearerToken := "missing bearer token"
  const EmptyToken := "empty token"
  const InvalidToken := "invalid token"

  /** What decoding a token yields: its signing algorithm and its `user_id` claim. */
  datatype Claims = Claims(alg: string, userId: int)

  /**
   * The gate's decision: abort with 401 and a message (nothing is bound), or
   * bind `user_id` and run the next handler.
   */
  datatype Outcome = Reject(message: string) | Accept(userId: int)

  /** The key function: the secret for HS256, and an error (None) for every other algorithm. */
  function KeyFor(alg: string, secret: string): (key: Option<string>)
    ensures key.Some? <==> alg == HS256
    ensures key.Some? ==> key.value == secret
  {
    if alg == HS256 then Some(secret) else None
  }

  /** The token a header carries: the header with one leading "Bearer " removed. */
  function BearerToken(header: string): string {
    TrimPrefix(header, BearerPrefix)
  }

  /** The token decodes, is signed with HS256, and verifies under the secret. */
  predicate Authentic(token: string, secret: string, parse: string -> Option<Claims>,
                      verify: (string, string, string) -> bool)
  {
    parse(token).Some? && parse(token).value.alg == HS256 && verify(token, secret, HS256)
  }

  /** `JWTAuth`: the chain of early-return checks from the header to the outcome. */
  function JWTAuth(header: string, secret: string, parse: string -> Option<Claims>,
                   verify: (string, string, string) -> bool): (o: Outcome)
    ensures !HasPrefix(header, BearerPrefix) <==> o == Reject(MissingBearerToken)
    ensures header == BearerPrefix <==> o == Reject(EmptyToken)
    ensures o.Accept? <==>
      HasPrefix(header, BearerPrefix) && |header| > |BearerPrefix| && Authentic(BearerToken(header), secret, parse, verify)
    ensures o.Accept? ==> header == BearerPrefix + BearerToken(header) && o.userId == parse(BearerToken(header)).value.userId
    ensures o.Reject? && HasPrefix(header, BearerPrefix) && header != BearerPrefix ==> o == Reject(InvalidToken)
  {
    if !HasPrefix(header, BearerPrefix) then Reject(MissingBearerToken)
    else
      var token := TrimPrefix(header, BearerPrefix);
      if token == "" then Reject(EmptyToken)
      else
        match parse(token)
        case None => Reject(InvalidToken)
        case Some(claims) =>
          match KeyFor(claims.alg, secret)
          case None => Reject(InvalidToken)
          case Some(key) => if verify(token, key, claims.alg) then Accept(claims.userId) else Reject(InvalidToken)
  }

  /**
   * "Bearer " followed by a non-empty token is decided on exactly that token,
   * even when the token itself starts with "Bearer ": only one prefix is removed.
   */
  lemma BearerHeaderCarriesToken(token: string, secret: string, parse: string -> Option<Claims>,
                                 verify: (string, string, string) -> bool)
    requires token != ""
    ensures BearerToken(BearerPrefix + token) == token
    ensures var o := JWTAuth(BearerPrefix + token, secret, parse, verify);
      && (o.Accept? <==> Authentic(token, secret, parse, verify))
      && (o.Accept? ==> o.userId == parse(token).value.userId)
      && (o.Reject? ==> o == Reject(InvalidToken))
  {
    assert (BearerPrefix + token)[..|BearerPrefix|] == BearerPrefix;
    assert (BearerPrefix + token)[|BearerPrefix|..] == token;
  }

  /** A token signed with any algorithm but HS256 is rejected whatever the secret and the verifier. */
  lemma OtherAlgorithmsRejected(header: string, secret1: string, secret2: string,
                                parse: string -> Option<Claims>,
                                verify1: (string, string, string) -> bool,
                                verify2: (string, string, string) -> bool)
    requires HasPrefix(header, BearerPrefix) && header != BearerPrefix
    requires parse(BearerToken(header)).Some? && parse(BearerToken(header)).value.alg != HS256
    ensures JWTAuth(header, secret1, parse, verify1) == Reject(InvalidToken)
    ensures JWTAuth(header, secret1, parse, verify1) == JWTAuth(header, secret2, parse, verify2)
  {
  }

  /** The scheme name is matched case-sensitively, with its single space. */
  lemma SchemeIsCaseSensitive(lower: string, noSpace: string, secret: string,
                              parse: string -> Option<Claims>, verify: (string, string, string) -> bool)
    requires lower == "bearer abc" && noSpace == "Bearerabc"
    ensures JWTAuth(lower, secret, parse, verify) == Reject(MissingBearerToken)
    ensures JWTAuth(noSpace, secret, parse, verify) == Reject(MissingBearerToken)
    ensures JWTAuth("", secret, parse, verify) == Reject(MissingBearerToken)
  {
    assert lower[0] != BearerPrefix[0];
    assert noSpace[6] != BearerPrefix[6];
  }

  /** A token that verifies under its claims yields exactly its `user_id`, for every header that carries it. */
  lemma AcceptedIdIsClaimedId(token: string, uid: int, secret: string,
                              parse: string -> Option<Claims>, verify: (string, string, string) -> bool)
    requires token != ""
    requires parse(token) == Some(Claims(HS256, uid)) && verify(token, secret, HS256)
    ensures JWTAuth(BearerPrefix + token, secret, parse, verify) == Accept(uid)
  {
    BearerHeaderCarriesToken(token, secret, parse, verify);
  }
}
