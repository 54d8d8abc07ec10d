/**
 * The password hasher and the token codec, kept abstract. Each is a pair of
 * function values; what the services rely on is stated as a ghost predicate
 * and required only where it is used.
 */
module Utils {
  import opened Errors

  /** Every token is issued for `time.Hour * 24`, counted here in seconds. */
  const TokenTtl: nat := 24 * 60 * 60

  /**
   * `hash` is HashPassword (bcrypt, which may fail); `compare(hashed, plain)` is
   * ComparePasswords succeeding.
   */
  datatype Hasher = Hasher(hash: string -> Result<string>, compare: (string, string) -> bool)

  /** A hash never equals its input. */
  ghost predicate HidesPlaintext(hash: string -> Result<string>)
  {
    forall p :: hash(p).Ok? ==> hash(p).value != p
  }

  /** A successful hash of `p` is accepted by `compare` for `p`, and never equals `p`. */
  ghost predicate SoundHasher(h: Hasher)
  {
    HidesPlaintext(h.hash) &&
    forall p :: h.hash(p).Ok? ==> h.compare(h.hash(p).value, p)
  }

  /**
   * `generate(userId, ttl, now)` is GenerateJWT called at time `now`;
   * `validate(token, now)` is ValidateToken called at time `now`.
   */
  datatype TokenCodec = TokenCodec(generate: (nat, nat, nat) -> Result<string>,
                                   validate: (string, nat) -> Result<nat>)

  /** A token issued for `id` validates to `id` at any moment before it expires. */
  ghost predicate RoundTrips(c: TokenCodec)
  {
    forall id: nat, ttl: nat, issued: nat, now: nat ::
      c.generate(id, ttl, issued).Ok? && issued <= now < issued + ttl ==>
        c.validate(c.generate(id, ttl, issued).value, now) == Ok(id)
  }
}
