/**
 * AuthServiceImpl: registration and login over a user store, a password
 * hasher and a token codec. The functions state what each operation does to
 * a table; the class runs the same steps against a UserStore object and is
 * proved to agree with them.
 */
module AuthServices {
  import opened Errors
  import opened Models
  import opened Store
  import opened Utils

  const UsernameTaken := "Username already taken"
  const EmailRegistered := "Email already registered"
  const HashFailed := "Failed to hash password"
  const InvalidCredentials := "Invalid username/email or password"
  const TokenFailed := "Failed to generate token"

  /** The user and the token a successful registration or login hands back. */
  datatype Session = Session(user: User, token: string)

  /** A lookup by `k` would succeed: the key's operation works and a live user has the key. */
  ghost predicate Visible(t: Table, k: Key)
  {
    KeyOp(k) !in t.faults && Has(t, k)
  }

  /**
   * userExists: the conflict, if any, that stops a registration. The username
   * is checked before the email, each only when non-empty, and a failed lookup
   * counts as no conflict.
   */
  function RegistrationConflict(t: Table, username: string, email: string): (r: Option<Error>)
    ensures r == Some(Message(UsernameTaken)) <==> username != "" && Visible(t, ByUsername(username))
    ensures r == Some(Message(EmailRegistered)) <==>
      !(username != "" && Visible(t, ByUsername(username))) && email != "" && Visible(t, ByEmail(email))
    ensures r.Some? ==> r == Some(Message(UsernameTaken)) || r == Some(Message(EmailRegistered))
  {
    if username != "" && Lookup(t, ByUsername(username)).Ok? then Some(Message(UsernameTaken))
    else if email != "" && Lookup(t, ByEmail(email)).Ok? then Some(Message(EmailRegistered))
    else None
  }

  /** RegisterUser: conflict check, hash, insert, token for the new id. */
  function Register(t: Table, h: Hasher, c: TokenCodec, username: string, password: string, email: string, now: nat)
    : (s: Step<Session>)
    // a conflict, a hash failure or a refused insert leaves the table as it was
    ensures RegistrationConflict(t, username, email).Some? ==>
      s == Step(t, Err(RegistrationConflict(t, username, email).value))
    ensures RegistrationConflict(t, username, email).None? && h.hash(password).Err? ==>
      s == Step(t, Err(Message(HashFailed)))
    // the table changes only by the insert: one new live row holding the username, the email and the hash
    ensures s.table != t ==>
      && |s.table.rows| == |t.rows| + 1 && s.table.rows[..|t.rows|] == t.rows
      && h.hash(password).Ok?
      && s.table.rows[|t.rows|] == Row(User(s.table.rows[|t.rows|].user.id, email, username, h.hash(password).value), false)
    // a failure after the insert is the token codec's error, and the new user stays stored
    ensures s.result.Err? && s.table != t ==>
      c.generate(s.table.rows[|t.rows|].user.id, TokenTtl, now) == Err(s.result.error)
    // success stores exactly one new user, with the hashed password, and issues its token
    ensures s.result.Ok? ==>
      && RegistrationConflict(t, username, email).None?
      && s.table.rows == t.rows + [Row(s.result.value.user, false)]
      && s.result.value.user == User(s.result.value.user.id, email, username, h.hash(password).value)
      && h.hash(password).Ok?
      && c.generate(s.result.value.user.id, TokenTtl, now) == Ok(s.result.value.token)
    // past the check and the hash, the table is the insert's: its error comes back unchanged, and once
    // it succeeds the new user stays stored whether or not a token can be issued
    ensures RegistrationConflict(t, username, email).None? && h.hash(password).Ok? ==>
      var ins := Insert(t, User(0, email, username, h.hash(password).value));
      && s.table == ins.table
      && (ins.result.Err? ==> s.result == Err(ins.result.error))
      && (ins.result.Ok? && c.generate(ins.result.value.id, TokenTtl, now).Ok? ==>
            s.result == Ok(Session(ins.result.value, c.generate(ins.result.value.id, TokenTtl, now).value)))
    ensures s.table.faults == t.faults
    ensures Invariant(t) ==> Invariant(s.table)
  {
    match RegistrationConflict(t, username, email)
    case Some(e) => Step(t, Err(e))
    case None =>
      match h.hash(password)
      case Err(_) => Step(t, Err(Message(HashFailed)))
      case Ok(hashed) =>
        var ins := Insert(t, User(0, email, username, hashed));
        match ins.result
        case Err(e) => Step(ins.table, Err(e))
        case Ok(created) =>
          match c.generate(created.id, TokenTtl, now)
          case Err(e) => Step(ins.table, Err(e))
          case Ok(token) => Step(ins.table, Ok(Session(created, token)))
  }

  /** The lookup LoginUser makes: by email when one is given, else by username, else none. */
  function LoginLookup(t: Table, username: string, email: string): Option<Result<User>>
  {
    if email != "" then Some(Lookup(t, ByEmail(email)))
    else if username != "" then Some(Lookup(t, ByUsername(username)))
    else None
  }

  /** LoginUser: find the user, check the password, issue a token. */
  function Login(t: Table, h: Hasher, c: TokenCodec, username: string, email: string, password: string, now: nat)
    : (r: Result<Session>)
    ensures r.Ok? ==>
      && Row(r.value.user, false) in t.rows
      && (if email != "" then r.value.user.email == email else r.value.user.username == username)
      && h.compare(r.value.user.password, password)
      && c.generate(r.value.user.id, TokenTtl, now) == Ok(r.value.token)
    ensures r.Err? ==> r.error == Message(InvalidCredentials) || r.error == Message(TokenFailed)
    ensures username == "" && email == "" ==> r == Err(Message(InvalidCredentials))
    // the token error means the user was found, the password accepted, and only the codec failed
    ensures r == Err(Message(TokenFailed)) ==>
      && LoginLookup(t, username, email).Some? && LoginLookup(t, username, email).value.Ok?
      && h.compare(LoginLookup(t, username, email).value.value.password, password)
      && c.generate(LoginLookup(t, username, email).value.value.id, TokenTtl, now).Err?
  {
    match LoginLookup(t, username, email)
    case None => Err(Message(InvalidCredentials))
    case Some(Err(_)) => Err(Message(InvalidCredentials))
    case Some(Ok(user)) =>
      if !h.compare(user.password, password) then Err(Message(InvalidCredentials))
      else match c.generate(user.id, TokenTtl, now)
        case Err(_) => Err(Message(TokenFailed))
        case Ok(token) => Ok(Session(user, token))
  }

  /**
   * Any user the lookup finds, whose password the hasher accepts and for whom
   * a token can be issued, logs in and gets that token.
   */
  lemma LoginSucceeds(t: Table, h: Hasher, c: TokenCodec, username: string, email: string, password: string,
                      now: nat, u: User)
    requires email != "" || username != ""
    requires (if email != "" then Lookup(t, ByEmail(email)) else Lookup(t, ByUsername(username))) == Ok(u)
    requires h.compare(u.password, password) && c.generate(u.id, TokenTtl, now).Ok?
    ensures Login(t, h, c, username, email, password, now) == Ok(Session(u, c.generate(u.id, TokenTtl, now).value))
  {
  }

  /**
   * A user appended to a valid table is what a lookup by its username or its
   * email finds, as long as that lookup works.
   */
  lemma {:induction false} AppendedUserFound(t: Table, u: User, k: Key)
    requires forall j :: 0 <= j < |t.rows| ==> Compatible(t.rows[j].user, u)
    requires k == ByUsername(u.username) || k == ByEmail(u.email)
    requires KeyOp(k) !in t.faults
    ensures Lookup(t.(rows := t.rows + [Row(u, false)]), k) == Ok(u)
  {
    var rows' := t.rows + [Row(u, false)];
    assert LiveMatch(rows'[|t.rows|], k);
    forall j | 0 <= j < |t.rows|
      ensures !LiveMatch(rows'[j], k)
    {
      assert rows'[j] == t.rows[j];
      assert Compatible(t.rows[j].user, u);
    }
  }

  /**
   * On a valid table where no row, deleted or not, holds the username or the
   * email, with a working hash and store, registration stores the user under
   * the next id. It then returns the user and its token, or, when no token
   * can be issued, the codec's error with the user still stored.
   */
  lemma RegisterFreshUser(t: Table, h: Hasher, c: TokenCodec, username: string, password: string, email: string,
                          now: nat)
    requires Invariant(t)
    requires forall j :: 0 <= j < |t.rows| ==> t.rows[j].user.username != username && t.rows[j].user.email != email
    requires h.hash(password).Ok? && OpCreate !in t.faults
    ensures var s := Register(t, h, c, username, password, email, now);
      var user := User(t.nextId, email, username, h.hash(password).value);
      && s.table.rows == t.rows + [Row(user, false)]
      && (c.generate(t.nextId, TokenTtl, now).Ok? ==> s.result == Ok(Session(user, c.generate(t.nextId, TokenTtl, now).value)))
      && (c.generate(t.nextId, TokenTtl, now).Err? ==> s.result == Err(c.generate(t.nextId, TokenTtl, now).error))
  {
    assert !Has(t, ByUsername(username)) && !Has(t, ByEmail(email));
  }

  /** After a successful registration, logging in with the same username and password returns the same user. */
  lemma RegisterThenLogin(t: Table, h: Hasher, c: TokenCodec, username: string, password: string, email: string,
                          issued: nat, now: nat)
    requires SoundHasher(h)
    requires Register(t, h, c, username, password, email, issued).result.Ok?
    requires username != "" && OpByUsername !in t.faults
    requires c.generate(Register(t, h, c, username, password, email, issued).result.value.user.id, TokenTtl, now).Ok?
    ensures var s := Register(t, h, c, username, password, email, issued);
      && Login(s.table, h, c, username, "", password, now).Ok?
      && Login(s.table, h, c, username, "", password, now).value.user == s.result.value.user
  {
    var s := Register(t, h, c, username, password, email, issued);
    var ins := Insert(t, User(0, email, username, h.hash(password).value));
    assert ins.table == s.table;
    AppendedUserFound(t, s.result.value.user, ByUsername(username));
  }

  /** The same holds when logging in by email. */
  lemma RegisterThenLoginByEmail(t: Table, h: Hasher, c: TokenCodec, username: string, password: string, email: string,
                                 issued: nat, now: nat)
    requires SoundHasher(h)
    requires Register(t, h, c, username, password, email, issued).result.Ok?
    requires email != "" && OpByEmail !in t.faults
    requires c.generate(Register(t, h, c, username, password, email, issued).result.value.user.id, TokenTtl, now).Ok?
    ensures var s := Register(t, h, c, username, password, email, issued);
      && Login(s.table, h, c, "", email, password, now).Ok?
      && Login(s.table, h, c, "", email, password, now).value.user == s.result.value.user
  {
    var s := Register(t, h, c, username, password, email, issued);
    var ins := Insert(t, User(0, email, username, h.hash(password).value));
    assert ins.table == s.table;
    AppendedUserFound(t, s.result.value.user, ByEmail(email));
  }

  /**
   * Once a username is stored, registering it again fails and changes
   * nothing, whatever the second call's email and password and whichever
   * lookups fail: the lookup reports the conflict, or the unique index does.
   */
  lemma RegisterTakenUsernameFails(t: Table, h: Hasher, c: TokenCodec, username: string, password: string,
                                   email: string, now: nat, i: nat)
    requires Invariant(t)
    requires i < |t.rows| && t.rows[i].user.username == username
    ensures Register(t, h, c, username, password, email, now).result.Err?
    ensures Register(t, h, c, username, password, email, now).table == t
  {
    var s := Register(t, h, c, username, password, email, now);
    if RegistrationConflict(t, username, email).None? && h.hash(password).Ok? {
      var u := User(0, email, username, h.hash(password).value);
      var id := t.nextId;
      assert !Compatible(t.rows[i].user, u.(id := id));
    }
  }

  /** Likewise for an email that is already stored. */
  lemma RegisterTakenEmailFails(t: Table, h: Hasher, c: TokenCodec, username: string, password: string,
                                email: string, now: nat, i: nat)
    requires Invariant(t)
    requires i < |t.rows| && t.rows[i].user.email == email
    ensures Register(t, h, c, username, password, email, now).result.Err?
    ensures Register(t, h, c, username, password, email, now).table == t
  {
    var s := Register(t, h, c, username, password, email, now);
    if RegistrationConflict(t, username, email).None? && h.hash(password).Ok? {
      var u := User(0, email, username, h.hash(password).value);
      var id := t.nextId;
      assert !Compatible(t.rows[i].user, u.(id := id));
    }
  }

  /**
   * An unknown username and a known username with a wrong password give the
   * same answer, so a caller cannot tell which identifiers exist.
   */
  lemma LoginHidesUnknownUser(t: Table, h: Hasher, c: TokenCodec, unknown: string, known: string,
                              password: string, guess: string, now: nat)
    requires Invariant(t)
    requires unknown != "" && !Has(t, ByUsername(unknown))
    requires known != "" && Lookup(t, ByUsername(known)).Ok?
    requires !h.compare(Lookup(t, ByUsername(known)).value.password, guess)
    ensures Login(t, h, c, unknown, "", password, now) == Login(t, h, c, known, "", guess, now)
    ensures Login(t, h, c, unknown, "", password, now) == Err(Message(InvalidCredentials))
  {
  }

  /** Login fails with the uniform credentials error exactly when the lookup or the password check fails. */
  lemma LoginFailsUniformly(t: Table, h: Hasher, c: TokenCodec, username: string, email: string,
                            password: string, now: nat)
    ensures Login(t, h, c, username, email, password, now) == Err(Message(InvalidCredentials)) <==>
      (email == "" && username == "") ||
      (email != "" && !Visible(t, ByEmail(email))) ||
      (email == "" && username != "" && !Visible(t, ByUsername(username))) ||
      (LoginLookup(t, username, email).Some? && LoginLookup(t, username, email).value.Ok? &&
       !h.compare(LoginLookup(t, username, email).value.value.password, password))
  {
  }

  /** AuthServiceImpl over a UserStore object. */
  class AuthService {
    const repo: UserStore
    const hasher: Hasher
    const codec: TokenCodec

    constructor (repo: UserStore, hasher: Hasher, codec: TokenCodec)
      ensures this.repo == repo && this.hasher == hasher && this.codec == codec
    {
      this.repo := repo;
      this.hasher := hasher;
      this.codec := codec;
    }

    /** userExists, through the repository's lookups. */
    method UserExists(username: string, email: string) returns (r: Option<Error>)
      ensures r == RegistrationConflict(repo.Snapshot(), username, email)
    {
      if username != "" {
        var user := repo.GetUserByUsername(username);
        if user.Ok? {
          return Some(Message(UsernameTaken));
        }
      }
      if email != "" {
        var user := repo.GetUserByEmail(email);
        if user.Ok? {
          return Some(Message(EmailRegistered));
        }
      }
      return None;
    }

    method RegisterUser(username: string, password: string, email: string, now: nat) returns (r: Result<Session>)
      requires repo.Valid()
      modifies repo
      ensures repo.Valid()
      ensures var s := Register(old(repo.Snapshot()), hasher, codec, username, password, email, now);
        repo.Snapshot() == s.table && r == s.result
    {
      var conflict := UserExists(username, email);
      if conflict.Some? {
        return Err(conflict.value);
      }
      var hashed := hasher.hash(password);
      if hashed.Err? {
        return Err(Message(HashFailed));
      }
      var user := new UserRecord(0, email, username, hashed.value);
      var created := repo.CreateUser(user);
      if created.Err? {
        return Err(created.error);
      }
      var token := codec.generate(created.value.id, TokenTtl, now);
      if token.Err? {
        return Err(token.error);
      }
      return Ok(Session(created.value.Value(), token.value));
    }

    method LoginUser(username: string, email: string, password: string, now: nat) returns (r: Result<Session>)
      ensures r == Login(repo.Snapshot(), hasher, codec, username, email, password, now)
    {
      var found: Result<User>;
      if email != "" {
        found := repo.GetUserByEmail(email);
      } else if username != "" {
        found := repo.GetUserByUsername(username);
      } else {
        return Err(Message(InvalidCredentials));
      }
      if found.Err? {
        return Err(Message(InvalidCredentials));
      }
      var user := found.value;
      if !hasher.compare(user.password, password) {
        return Err(Message(InvalidCredentials));
      }
      var token := codec.generate(user.id, TokenTtl, now);
      if token.Err? {
        return Err(Message(TokenFailed));
      }
      return Ok(Session(user, token.value));
    }
  }
}
