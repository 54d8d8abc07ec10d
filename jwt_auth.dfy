/**
 * The AuthRequired middleware as a function from the Authorization header
 * and the token validator (ValidateToken at the moment of the request) to
 * what the handler does: reject with 401 and a message, or run the rest of
 * the chain with `user_id` set.
 */
module Middleware {
  import opened Errors

  const BearerPrefix := "Bearer "
  const MissingHeader := "Authorization header is missing"
  const InvalidToken := "Invalid or expired token"
  const StatusUnauthorized := 401

  /** Abort after writing `{"error": error}` with `status`, or call Next with `user_id` = `userId`. */
  datatype Outcome = Reject(status: int, error: string) | Proceed(userId: nat)

  /** strings.TrimPrefix: drop one leading `prefix` if there is one. */
  function TrimPrefix(s: string, prefix: string): (r: string)
    ensures prefix <= s ==> prefix + r == s
    ensures !(prefix <= s) ==> r == s
    ensures |r| <= |s|
  {
    if prefix <= s then s[|prefix|..] else s
  }

  /** The string AuthRequired hands to the validator. */
  function TokenOf(header: string): string
  {
    TrimPrefix(header, BearerPrefix)
  }

  function AuthRequired(header: string, validate: string -> Result<nat>): (o: Outcome)
    ensures o.Reject? ==> o.status == StatusUnauthorized
    ensures o.Reject? ==> o.error == MissingHeader || o.error == InvalidToken
  {
    if header == "" then Reject(StatusUnauthorized, MissingHeader)
    else match validate(TokenOf(header))
      case Err(_) => Reject(StatusUnauthorized, InvalidToken)
      case Ok(userId) => Proceed(userId)
  }

  /** An empty header is refused as missing, whatever the validator would say. */
  lemma EmptyHeaderRejected(validate: string -> Result<nat>, other: string -> Result<nat>)
    ensures AuthRequired("", validate) == Reject(StatusUnauthorized, MissingHeader)
    ensures AuthRequired("", validate) == AuthRequired("", other)
  {
  }

  /** A header `Bearer <t>` hands exactly `t` to the validator. */
  lemma {:induction false} BearerTokenExtracted(t: string)
    ensures TokenOf(BearerPrefix + t) == t
  {
    assert BearerPrefix <= BearerPrefix + t;
    assert (BearerPrefix + t)[|BearerPrefix|..] == t;
  }

  /** A header that does not start with `Bearer ` is handed over unchanged. */
  lemma UnprefixedHeaderPassedWhole(header: string)
    requires !(BearerPrefix <= header)
    ensures TokenOf(header) == header
  {
  }

  /** Only one prefix is removed. */
  lemma OnePrefixRemoved()
    ensures TokenOf("Bearer Bearer x") == "Bearer x"
  {
    BearerTokenExtracted("Bearer x");
    assert BearerPrefix + "Bearer x" == "Bearer Bearer x";
  }

  /** `Bearer ` alone is not missing: the empty token goes to the validator. */
  lemma BareBearerValidated(validate: string -> Result<nat>)
    ensures TokenOf(BearerPrefix) == ""
    ensures AuthRequired(BearerPrefix, validate) ==
      if validate("").Ok? then Proceed(validate("").value) else Reject(StatusUnauthorized, InvalidToken)
  {
    BearerTokenExtracted("");
    assert BearerPrefix + "" == BearerPrefix;
  }

  /**
   * The request goes on with `user_id` = `id` exactly when the header is
   * present and the validator accepts its token as `id`; every validator
   * error gives the same rejection.
   */
  lemma GateDecision(header: string, validate: string -> Result<nat>, id: nat)
    ensures AuthRequired(header, validate) == Proceed(id) <==>
      header != "" && validate(TokenOf(header)) == Ok(id)
    ensures header != "" && validate(TokenOf(header)).Err? ==>
      AuthRequired(header, validate) == Reject(StatusUnauthorized, InvalidToken)
  {
  }

  /** Every non-empty header is `Bearer ` followed by its token, or is its token. */
  lemma {:induction false} HeaderIsPrefixedToken(header: string)
    ensures header == BearerPrefix + TokenOf(header) || header == TokenOf(header)
  {
    if BearerPrefix <= header {
      assert BearerPrefix + header[|BearerPrefix|..] == header;
    }
  }
}
