/**
 * UserServiceImpl: CreateUser checks the email, then the username, hashes the
 * caller's password into the caller's struct and inserts it; every other
 * operation hands its arguments to the repository.
 */
module UserServices {
  import opened Errors
  import opened Models
  import opened Store
  import opened Utils
  import AuthServices

  const EmailTaken := "email already taken"
  const UsernameTaken := "username already taken"
  const EmailCheckFailed := "unexpected error checking email: "
  const UsernameCheckFailed := "unexpected error checking username: "

  /**
   * The uniqueness checks of CreateUser, email first. Only record-not-found
   * means the value is free; any other lookup error stops the call.
   */
  function CreateConflict(t: Table, email: string, username: string): (r: Option<Error>)
    ensures Lookup(t, ByEmail(email)).Ok? ==> r == Some(Message(EmailTaken))
    ensures OpByEmail in t.faults ==> r == Some(Message(EmailCheckFailed + t.faults[OpByEmail]))
    ensures Lookup(t, ByEmail(email)) == Err(RecordNotFound) && OpByUsername in t.faults ==>
      r == Some(Message(UsernameCheckFailed + t.faults[OpByUsername]))
    ensures r == Some(Message(UsernameTaken)) <==>
      Lookup(t, ByEmail(email)) == Err(RecordNotFound) && Lookup(t, ByUsername(username)).Ok?
    ensures r.None? <==>
      Lookup(t, ByEmail(email)) == Err(RecordNotFound) && Lookup(t, ByUsername(username)) == Err(RecordNotFound)
    ensures r.None? ==> !Has(t, ByEmail(email)) && !Has(t, ByUsername(username))
  {
    match Lookup(t, ByEmail(email))
    case Ok(_) => Some(Message(EmailTaken))
    case Err(e) =>
      if e != RecordNotFound then Some(Message(EmailCheckFailed + Text(e)))
      else match Lookup(t, ByUsername(username))
        case Ok(_) => Some(Message(UsernameTaken))
        case Err(e') =>
          if e' != RecordNotFound then Some(Message(UsernameCheckFailed + Text(e'))) else None
  }

  /** What CreateUser leaves behind: the table, the caller's struct, and the result. */
  datatype Creation = Creation(table: Table, record: User, result: Result<User>)

  /** CreateUser on the struct's values `u`, hashing with `hashFunc`. */
  function Create(t: Table, hashFunc: string -> Result<string>, u: User): (c: Creation)
    // a failed check or a failed hash touches neither the table nor the struct
    ensures CreateConflict(t, u.email, u.username).Some? ==>
      c == Creation(t, u, Err(CreateConflict(t, u.email, u.username).value))
    ensures CreateConflict(t, u.email, u.username).None? && hashFunc(u.password).Err? ==>
      c == Creation(t, u, Err(hashFunc(u.password).error))
    // once hashed, the struct holds the hash, whatever the insert does
    ensures CreateConflict(t, u.email, u.username).None? && hashFunc(u.password).Ok? ==>
      c.record == u.(password := hashFunc(u.password).value, id := c.record.id)
    // past the checks and the hash, the table and the result are the insert's
    ensures CreateConflict(t, u.email, u.username).None? && hashFunc(u.password).Ok? ==>
      var ins := Insert(t, u.(password := hashFunc(u.password).value));
      c.table == ins.table && c.result == ins.result
    ensures c.result.Err? ==> c.table == t
    ensures c.result.Ok? ==>
      && CreateConflict(t, u.email, u.username).None?
      && hashFunc(u.password).Ok?
      && c.result.value == c.record
      && c.table.rows == t.rows + [Row(c.record, false)]
    ensures Invariant(t) ==> Invariant(c.table)
  {
    match CreateConflict(t, u.email, u.username)
    case Some(e) => Creation(t, u, Err(e))
    case None =>
      match hashFunc(u.password)
      case Err(e) => Creation(t, u, Err(e))
      case Ok(hashed) =>
        var hu := u.(password := hashed);
        var ins := Insert(t, hu);
        Creation(ins.table, if ins.result.Ok? then ins.result.value else hu, ins.result)
  }

  /** With a hash that never returns its input, a created user never has its plaintext stored. */
  lemma CreateStoresHash(t: Table, hashFunc: string -> Result<string>, u: User)
    requires HidesPlaintext(hashFunc)
    requires Create(t, hashFunc, u).result.Ok?
    ensures var c := Create(t, hashFunc, u);
      && c.record.password != u.password
      && c.table.rows[|t.rows|].user.password == hashFunc(u.password).value
      && (forall j :: 0 <= j < |t.rows| ==> c.table.rows[j] == t.rows[j])
  {
  }

  /**
   * When both the username and the email are taken and the lookups work, the
   * two services name different conflicts: registration reports the
   * username, CreateUser the email.
   */
  lemma PrecedenceDiffers(t: Table, username: string, email: string)
    requires username != "" && email != ""
    requires OpByEmail !in t.faults && OpByUsername !in t.faults
    requires Has(t, ByUsername(username)) && Has(t, ByEmail(email))
    ensures AuthServices.RegistrationConflict(t, username, email) == Some(Message(AuthServices.UsernameTaken))
    ensures CreateConflict(t, email, username) == Some(Message(EmailTaken))
  {
  }

  /**
   * A lookup that fails with any error other than record-not-found, such as
   * a plain "not found" error, is fatal: CreateUser reports it and goes no
   * further, whatever the username.
   */
  lemma {:induction false} OtherLookupErrorIsFatal(t: Table, hashFunc: string -> Result<string>, u: User)
    requires OpByEmail in t.faults && t.faults[OpByEmail] == "not found"
    ensures Create(t, hashFunc, u) == Creation(t, u, Err(Message("unexpected error checking email: not found")))
  {
    assert Lookup(t, ByEmail(u.email)) == Err(Backend("not found"));
    assert EmailCheckFailed + "not found" == "unexpected error checking email: not found";
  }

  /** UserServiceImpl over a UserStore object, with its injectable hash function. */
  class UserService {
    const repo: UserStore
    const hashFunc: string -> Result<string>

    constructor (repo: UserStore, hashFunc: string -> Result<string>)
      ensures this.repo == repo && this.hashFunc == hashFunc
    {
      this.repo := repo;
      this.hashFunc := hashFunc;
    }

    method CreateUser(user: UserRecord) returns (r: Result<UserRecord>)
      requires repo.Valid()
      modifies repo, user
      ensures repo.Valid()
      ensures var c := Create(old(repo.Snapshot()), hashFunc, old(user.Value()));
        && repo.Snapshot() == c.table
        && user.Value() == c.record
        && r == (if c.result.Ok? then Ok(user) else Err(c.result.error))
    {
      var byEmail := repo.GetUserByEmail(user.email);
      if byEmail.Ok? {
        return Err(Message(EmailTaken));
      } else if byEmail.error != RecordNotFound {
        return Err(Message(EmailCheckFailed + Text(byEmail.error)));
      }
      var byUsername := repo.GetUserByUsername(user.username);
      if byUsername.Ok? {
        return Err(Message(UsernameTaken));
      } else if byUsername.error != RecordNotFound {
        return Err(Message(UsernameCheckFailed + Text(byUsername.error)));
      }
      var hashed := hashFunc(user.password);
      if hashed.Err? {
        return Err(hashed.error);
      }
      user.password := hashed.value;
      r := repo.CreateUser(user);
    }

    method GetUserByID(id: nat) returns (r: Result<User>)
      ensures r == Lookup(repo.Snapshot(), ById(id))
    {
      r := repo.GetUserByID(id);
    }

    method GetUserByEmail(email: string) returns (r: Result<User>)
      ensures r == Lookup(repo.Snapshot(), ByEmail(email))
    {
      r := repo.GetUserByEmail(email);
    }

    method GetUserByUsername(username: string) returns (r: Result<User>)
      ensures r == Lookup(repo.Snapshot(), ByUsername(username))
    {
      r := repo.GetUserByUsername(username);
    }

    method GetAllUsers() returns (r: Result<seq<User>>)
      ensures r == All(repo.Snapshot())
    {
      r := repo.GetAllUsers();
    }

    method UpdateUser(user: UserRecord) returns (r: Result<UserRecord>)
      requires repo.Valid()
      modifies repo, user
      ensures repo.Valid()
      ensures var s := Save(old(repo.Snapshot()), old(user.Value()));
        && repo.Snapshot() == s.table
        && (s.result.Ok? ==> r == Ok(user) && user.Value() == s.result.value)
        && (s.result.Err? ==> r == Err(s.result.error) && user.Value() == old(user.Value()))
    {
      r := repo.UpdateUser(user);
    }

    method DeleteUser(id: nat) returns (r: Result<()>)
      requires repo.Valid()
      modifies repo
      ensures repo.Valid()
      ensures var s := Delete(old(repo.Snapshot()), id); repo.Snapshot() == s.table && r == s.result
    {
      r := repo.DeleteUser(id);
    }
  }
}
