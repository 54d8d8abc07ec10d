/** Properties that span the services, the store and the middleware. */
module Scenarios {
  import opened Errors
  import opened Models
  import opened Store
  import opened Utils
  import opened AuthServices
  import opened Middleware

  /** The validator AuthRequired calls: ValidateToken at time `now`. */
  function ValidatorAt(c: TokenCodec, now: nat): string -> Result<nat>
  {
    token => c.validate(token, now)
  }

  /**
   * A registration's token, sent as `Bearer <token>` before it expires, lets
   * the request through as the new user; without the header it is refused.
   */
  lemma RegisteredTokenOpensGate(t: Table, h: Hasher, c: TokenCodec, username: string, password: string,
                                 email: string, issued: nat, now: nat)
    requires RoundTrips(c)
    requires Register(t, h, c, username, password, email, issued).result.Ok?
    requires issued <= now < issued + TokenTtl
    ensures var session := Register(t, h, c, username, password, email, issued).result.value;
      && AuthRequired(BearerPrefix + session.token, ValidatorAt(c, now)) == Proceed(session.user.id)
      && AuthRequired("", ValidatorAt(c, now)) == Reject(StatusUnauthorized, MissingHeader)
  {
    var session := Register(t, h, c, username, password, email, issued).result.value;
    BearerTokenExtracted(session.token);
    assert c.generate(session.user.id, TokenTtl, issued) == Ok(session.token);
  }

  /** The same for a token from a login. */
  lemma LoginTokenOpensGate(t: Table, h: Hasher, c: TokenCodec, username: string, email: string, password: string,
                            issued: nat, now: nat)
    requires RoundTrips(c)
    requires Login(t, h, c, username, email, password, issued).Ok?
    requires issued <= now < issued + TokenTtl
    ensures var session := Login(t, h, c, username, email, password, issued).value;
      AuthRequired(BearerPrefix + session.token, ValidatorAt(c, now)) == Proceed(session.user.id)
  {
    var session := Login(t, h, c, username, email, password, issued).value;
    BearerTokenExtracted(session.token);
    assert c.generate(session.user.id, TokenTtl, issued) == Ok(session.token);
  }

  /**
   * A deleted user's username passes the registration check, since lookups
   * skip deleted rows, but the unique index still holds the deleted row, so
   * the insert is refused and its error returned as it is.
   */
  lemma DeletedUsernameBlocksRegistration(t: Table, h: Hasher, c: TokenCodec, id: nat, password: string,
                                          email: string, now: nat)
    requires Invariant(t)
    requires Delete(t, id).result.Ok?
    requires h.hash(password).Ok?
    requires OpCreate !in t.faults
    requires email != "" && forall j :: 0 <= j < |t.rows| ==> t.rows[j].user.email != email
    ensures var t' := Delete(t, id).table;
      var username := Lookup(t, ById(id)).value.username;
      && RegistrationConflict(t', username, email).None?
      && Register(t', h, c, username, password, email, now) == Step(t', Err(UniqueViolation(UsernameColumn)))
  {
    var t' := Delete(t, id).table;
    var gone := Lookup(t, ById(id)).value;
    var username := gone.username;
    var i :| 0 <= i < |t.rows| && LiveMatch(t.rows[i], ById(id));
    assert t.rows[i].user == gone;
    assert t'.rows[i] == Row(gone, true);
    forall j | 0 <= j < |t'.rows|
      ensures !LiveMatch(t'.rows[j], ByUsername(username)) && !LiveMatch(t'.rows[j], ByEmail(email))
    {
      if j != i {
        assert t'.rows[j] == t.rows[j];
        assert Compatible(t.rows[i].user, t.rows[j].user) || Compatible(t.rows[j].user, t.rows[i].user);
      }
    }
    var u := User(t'.nextId, email, username, h.hash(password).value);
    assert SameIn(t'.rows[i].user, u, UsernameColumn);
    assert !Taken(t'.rows, -1, u, PrimaryKey);
    assert !Taken(t'.rows, -1, u, EmailColumn);
  }
}
