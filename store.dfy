/**
 * An in-memory users table standing behind the UserRepository contract. The
 * table keeps every row it was given: deleting a user only marks the row
 * (gorm.Model's soft delete), lookups skip marked rows, and the unique indexes
 * on id, email and username cover all rows. Any repository operation can be
 * told to fail, as a test double would, with a backend error of its own.
 */
module Store {
  import opened Errors
  import opened Models

  /** The repository operations, each of which can be made to fail. */
  datatype Op = OpCreate | OpById | OpByEmail | OpByUsername | OpAll | OpSave | OpDelete

  /** A row of the users table; a deleted row stays where it is. */
  datatype Row = Row(user: User, deleted: bool)

  /** The whole state of the store: its rows in insertion order, the next id, and its failing operations. */
  datatype Table = Table(rows: seq<Row>, nextId: nat, faults: map<Op, string>)

  /** Outcome of an operation that may change the table. */
  datatype Step<+T> = Step(table: Table, result: Result<T>)

  /** The three ways to look a user up. */
  datatype Key = ById(id: nat) | ByEmail(email: string) | ByUsername(username: string)

  function KeyOp(k: Key): Op
  {
    match k
    case ById(_) => OpById
    case ByEmail(_) => OpByEmail
    case ByUsername(_) => OpByUsername
  }

  predicate Matches(u: User, k: Key)
  {
    match k
    case ById(id) => u.id == id
    case ByEmail(email) => u.email == email
    case ByUsername(username) => u.username == username
  }

  predicate LiveMatch(r: Row, k: Key)
  {
    !r.deleted && Matches(r.user, k)
  }

  predicate SameIn(a: User, b: User, c: Column)
  {
    match c
    case PrimaryKey => a.id == b.id
    case EmailColumn => a.email == b.email
    case UsernameColumn => a.username == b.username
  }

  /** Two users the unique indexes allow side by side. */
  predicate Compatible(a: User, b: User)
  {
    a.id != b.id && a.email != b.email && a.username != b.username
  }

  /** A live user with this key is stored. */
  ghost predicate Has(t: Table, k: Key)
  {
    exists i :: 0 <= i < |t.rows| && LiveMatch(t.rows[i], k)
  }

  /**
   * The store invariant: ids are positive and below `nextId`, and no two rows,
   * deleted or not, share an id, an email or a username.
   */
  ghost predicate Invariant(t: Table)
  {
    && 1 <= t.nextId
    && (forall i :: 0 <= i < |t.rows| ==> 1 <= t.rows[i].user.id < t.nextId)
    && (forall i, j :: 0 <= i < j < |t.rows| ==> Compatible(t.rows[i].user, t.rows[j].user))
  }

  /** The position of the first live row with key `k`. */
  function FindLive(rows: seq<Row>, k: Key): (r: Option<nat>)
    ensures r.Some? ==> r.value < |rows| && LiveMatch(rows[r.value], k)
    ensures r.Some? ==> forall j :: 0 <= j < r.value ==> !LiveMatch(rows[j], k)
    ensures r.None? ==> forall j :: 0 <= j < |rows| ==> !LiveMatch(rows[j], k)
  {
    if |rows| == 0 then None
    else if LiveMatch(rows[0], k) then Some(0)
    else match FindLive(rows[1..], k)
      case None => None
      case Some(i) => Some(i + 1)
  }

  /** The position of the row, deleted or not, that holds id `id`. */
  function FindId(rows: seq<Row>, id: nat): (r: Option<nat>)
    ensures r.Some? ==> r.value < |rows| && rows[r.value].user.id == id
    ensures r.None? ==> forall j :: 0 <= j < |rows| ==> rows[j].user.id != id
  {
    if |rows| == 0 then None
    else if rows[|rows| - 1].user.id == id then Some(|rows| - 1)
    else FindId(rows[..|rows| - 1], id)
  }

  /** Some row other than the one at `skip` holds `u`'s value in column `c`. */
  function Taken(rows: seq<Row>, skip: int, u: User, c: Column): (b: bool)
    ensures b <==> exists j :: 0 <= j < |rows| && j != skip && SameIn(rows[j].user, u, c)
  {
    if |rows| == 0 then false
    else Taken(rows[..|rows| - 1], skip, u, c) || (|rows| - 1 != skip && SameIn(rows[|rows| - 1].user, u, c))
  }

  /** The unique index, checked in the order id, email, username, that refuses `u` beside the rows other than `skip`. */
  function Clash(rows: seq<Row>, skip: int, u: User): (r: Option<Column>)
    ensures r.None? <==> forall j :: 0 <= j < |rows| && j != skip ==> Compatible(rows[j].user, u)
    ensures r.Some? ==> exists j :: 0 <= j < |rows| && j != skip && SameIn(rows[j].user, u, r.value)
  {
    if Taken(rows, skip, u, PrimaryKey) then Some(PrimaryKey)
    else if Taken(rows, skip, u, EmailColumn) then Some(EmailColumn)
    else if Taken(rows, skip, u, UsernameColumn) then Some(UsernameColumn)
    else None
  }

  /** GetUserByID, GetUserByEmail, GetUserByUsername: the live user with key `k`. */
  function Lookup(t: Table, k: Key): (r: Result<User>)
    ensures KeyOp(k) in t.faults ==> r == Err(Backend(t.faults[KeyOp(k)]))
    ensures r.Ok? <==> KeyOp(k) !in t.faults && Has(t, k)
    ensures r == Err(RecordNotFound) <==> KeyOp(k) !in t.faults && !Has(t, k)
    ensures r.Ok? ==> Matches(r.value, k) && Row(r.value, false) in t.rows
    ensures r.Ok? && Invariant(t) ==>
      forall i :: 0 <= i < |t.rows| && LiveMatch(t.rows[i], k) ==> t.rows[i].user == r.value
  {
    if KeyOp(k) in t.faults then Err(Backend(t.faults[KeyOp(k)]))
    else match FindLive(t.rows, k)
      case Some(i) => Ok(t.rows[i].user)
      case None => Err(RecordNotFound)
  }

  /** Appends `u` unless a unique index refuses it. */
  function Append(t: Table, u: User): (s: Step<User>)
    ensures s.result.Err? ==> s.table == t
    ensures s.result.Ok? <==> forall j :: 0 <= j < |t.rows| ==> Compatible(t.rows[j].user, u)
    ensures s.result.Ok? ==>
      s.result.value == u && s.table.rows == t.rows + [Row(u, false)] && s.table.faults == t.faults
    ensures Invariant(t) && 1 <= u.id ==> Invariant(s.table)
  {
    match Clash(t.rows, -1, u)
    case Some(c) => Step(t, Err(UniqueViolation(c)))
    case None => Step(t.(rows := t.rows + [Row(u, false)], nextId := if t.nextId <= u.id then u.id + 1 else t.nextId), Ok(u))
  }

  /** Overwrites the row at `i`, which holds `u`'s id, with `u` as a live row. */
  function Replace(t: Table, i: nat, u: User): (t': Table)
    requires i < |t.rows| && t.rows[i].user.id == u.id
    requires Clash(t.rows, i, u).None?
    ensures t'.faults == t.faults && |t'.rows| == |t.rows| && t'.rows[i] == Row(u, false)
    ensures forall j :: 0 <= j < |t.rows| && j != i ==> t'.rows[j] == t.rows[j]
    ensures Invariant(t) ==> Invariant(t')
  {
    t.(rows := t.rows[i := Row(u, false)])
  }

  /** CreateUser: insert `u`, giving it the next id when its id is zero. */
  function Insert(t: Table, u: User): (s: Step<User>)
    ensures s.result.Err? ==> s.table == t
    ensures s.result.Ok? <==>
      OpCreate !in t.faults &&
      forall j :: 0 <= j < |t.rows| ==> Compatible(t.rows[j].user, u.(id := if u.id == 0 then t.nextId else u.id))
    ensures s.result.Ok? ==>
      && s.result.value == u.(id := s.result.value.id)
      && (u.id == 0 ==> s.result.value.id == t.nextId)
      && (u.id != 0 ==> s.result.value.id == u.id)
      && s.table.rows == t.rows + [Row(s.result.value, false)]
      && s.table.faults == t.faults
    ensures Invariant(t) ==> Invariant(s.table)
  {
    if OpCreate in t.faults then Step(t, Err(Backend(t.faults[OpCreate])))
    else Append(t, u.(id := if u.id == 0 then t.nextId else u.id))
  }

  /**
   * UpdateUser (gorm Save): a zero id inserts with the next id, the id of a
   * stored row replaces that row (reviving it if it was deleted), and an
   * unknown id inserts with that id.
   */
  function Save(t: Table, u: User): (s: Step<User>)
    ensures s.result.Err? ==> s.table == t
    ensures s.result.Ok? ==>
      && OpSave !in t.faults
      && s.result.value == u.(id := s.result.value.id)
      && (u.id != 0 ==> s.result.value.id == u.id)
      && Row(s.result.value, false) in s.table.rows
      && s.table.faults == t.faults
    ensures s.result.Ok? ==>
      forall j :: 0 <= j < |t.rows| && t.rows[j].user.id != s.result.value.id ==> t.rows[j] in s.table.rows
    // a stored id has its row overwritten in place; otherwise exactly one row is added
    ensures s.result.Ok? ==>
      if u.id != 0 && exists i :: 0 <= i < |t.rows| && t.rows[i].user.id == u.id
      then exists i :: 0 <= i < |t.rows| && t.rows[i].user.id == u.id && s.table.rows == t.rows[i := Row(u, false)]
      else s.table.rows == t.rows + [Row(s.result.value, false)]
    ensures |s.table.rows| <= |t.rows| + 1
    ensures Invariant(t) ==> Invariant(s.table)
  {
    if OpSave in t.faults then Step(t, Err(Backend(t.faults[OpSave])))
    else if u.id == 0 then Append(t, u.(id := t.nextId))
    else match FindId(t.rows, u.id)
      case None => Append(t, u)
      case Some(i) =>
        match Clash(t.rows, i, u)
        case Some(c) => Step(t, Err(UniqueViolation(c)))
        case None => Step(Replace(t, i, u), Ok(u))
  }

  /**
   * On a valid table, Save succeeds exactly when its operation works and no
   * row holding another id has the saved email or username.
   */
  lemma {:induction false} SaveAccepted(t: Table, u: User)
    requires Invariant(t)
    ensures var id := if u.id == 0 then t.nextId else u.id;
      Save(t, u).result.Ok? <==>
        && OpSave !in t.faults
        && forall j :: 0 <= j < |t.rows| && t.rows[j].user.id != id ==>
             t.rows[j].user.email != u.email && t.rows[j].user.username != u.username
  {
    if OpSave !in t.faults && u.id != 0 {
      match FindId(t.rows, u.id)
      case None =>
      case Some(i) =>
        forall j | 0 <= j < |t.rows| && j != i
          ensures t.rows[j].user.id != u.id
        {
          if j < i {
            assert Compatible(t.rows[j].user, t.rows[i].user);
          } else {
            assert Compatible(t.rows[i].user, t.rows[j].user);
          }
        }
    }
  }

  const UserNotFound := "user not found"

  /** DeleteUser: mark the live user with id `id` deleted; any failure to find it reads "user not found". */
  function Delete(t: Table, id: nat): (s: Step<()>)
    ensures s.result.Err? ==> s.table == t
    ensures s.result == Err(Message(UserNotFound)) <==> Lookup(t, ById(id)).Err?
    ensures s.result.Ok? <==> Lookup(t, ById(id)).Ok? && OpDelete !in t.faults
    ensures s.result.Ok? ==>
      && |s.table.rows| == |t.rows| && s.table.faults == t.faults && s.table.nextId == t.nextId
      && (Invariant(t) ==> Lookup(s.table, ById(id)) == Err(RecordNotFound))
      && forall j :: 0 <= j < |t.rows| ==> s.table.rows[j].user == t.rows[j].user
    // exactly one live row with the id is marked deleted, and every other row stays as it was
    ensures s.result.Ok? ==>
      exists i :: 0 <= i < |t.rows| && LiveMatch(t.rows[i], ById(id)) && s.table.rows == t.rows[i := Row(t.rows[i].user, true)]
    ensures s.result.Ok? ==> forall j :: 0 <= j < |t.rows| && t.rows[j].user.id != id ==> s.table.rows[j] == t.rows[j]
    ensures Invariant(t) ==> Invariant(s.table)
  {
    if OpById in t.faults then Step(t, Err(Message(UserNotFound)))
    else match FindLive(t.rows, ById(id))
      case None => Step(t, Err(Message(UserNotFound)))
      case Some(i) =>
        if OpDelete in t.faults then Step(t, Err(Backend(t.faults[OpDelete])))
        else
          var rows' := t.rows[i := t.rows[i].(deleted := true)];
          DeletedIdGone(t, i, rows');
          Step(t.(rows := rows'), Ok(()))
  }

  /** Marking the row at `i` deleted leaves no live row with its id. */
  lemma DeletedIdGone(t: Table, i: nat, rows': seq<Row>)
    requires i < |t.rows| && rows' == t.rows[i := t.rows[i].(deleted := true)]
    ensures Invariant(t) ==> forall j :: 0 <= j < |rows'| ==> !LiveMatch(rows'[j], ById(t.rows[i].user.id))
  {
    if Invariant(t) {
      forall j | 0 <= j < |rows'|
        ensures !LiveMatch(rows'[j], ById(t.rows[i].user.id))
      {
        if j < i {
          assert Compatible(t.rows[j].user, t.rows[i].user);
        } else if i < j {
          assert Compatible(t.rows[i].user, t.rows[j].user);
        }
      }
    }
  }

  /** The live users, in row order. */
  function LiveUsers(rows: seq<Row>): (r: seq<User>)
    ensures forall u :: u in r <==> Row(u, false) in rows
    // each user is listed as many times as a live row holds it
    ensures forall u :: multiset(r)[u] == multiset(rows)[Row(u, false)]
    ensures |r| <= |rows|
  {
    if |rows| == 0 then []
    else
      assert rows == [rows[0]] + rows[1..];
      (if rows[0].deleted then [] else [rows[0].user]) + LiveUsers(rows[1..])
  }

  /** GetAllUsers. */
  function All(t: Table): (r: Result<seq<User>>)
    ensures r.Err? <==> OpAll in t.faults
    ensures r.Ok? ==> forall u :: u in r.value <==> Row(u, false) in t.rows
    ensures r.Ok? ==> forall u :: multiset(r.value)[u] == multiset(t.rows)[Row(u, false)]
  {
    if OpAll in t.faults then Err(Backend(t.faults[OpAll])) else Ok(LiveUsers(t.rows))
  }

  /** The in-memory UserRepository: the table's fields, updated in place. */
  class UserStore {
    var rows: seq<Row>
    var nextId: nat
    const faults: map<Op, string>

    function Snapshot(): Table
      reads this
    {
      Table(rows, nextId, faults)
    }

    ghost predicate Valid()
      reads this
    {
      Invariant(Snapshot())
    }

    /** An empty table whose operations in `faults` fail. */
    constructor (faults: map<Op, string>)
      ensures Valid() && rows == [] && nextId == 1 && this.faults == faults
    {
      rows := [];
      nextId := 1;
      this.faults := faults;
    }

    /** Scans the rows for the first live one with key `k`. */
    method Find(k: Key) returns (r: Option<nat>)
      ensures r == FindLive(rows, k)
    {
      var i := 0;
      while i < |rows|
        invariant 0 <= i <= |rows|
        invariant forall j :: 0 <= j < i ==> !LiveMatch(rows[j], k)
      {
        if LiveMatch(rows[i], k) {
          return Some(i);
        }
        i := i + 1;
      }
      return None;
    }

    method Get(k: Key) returns (r: Result<User>)
      ensures r == Lookup(Snapshot(), k)
    {
      if KeyOp(k) in faults {
        return Err(Backend(faults[KeyOp(k)]));
      }
      var i := Find(k);
      match i
      case Some(i) => r := Ok(rows[i].user);
      case None => r := Err(RecordNotFound);
    }

    method GetUserByID(id: nat) returns (r: Result<User>)
      ensures r == Lookup(Snapshot(), ById(id))
    {
      r := Get(ById(id));
    }

    method GetUserByEmail(email: string) returns (r: Result<User>)
      ensures r == Lookup(Snapshot(), ByEmail(email))
    {
      r := Get(ByEmail(email));
    }

    method GetUserByUsername(username: string) returns (r: Result<User>)
      ensures r == Lookup(Snapshot(), ByUsername(username))
    {
      r := Get(ByUsername(username));
    }

    method GetAllUsers() returns (r: Result<seq<User>>)
      ensures r == All(Snapshot())
    {
      r := All(Snapshot());
    }

    /** Inserts the struct's values; on success writes the assigned id back into it and returns it. */
    method CreateUser(user: UserRecord) returns (r: Result<UserRecord>)
      requires Valid()
      modifies this, user
      ensures Valid()
      ensures var s := Insert(old(Snapshot()), old(user.Value()));
        && Snapshot() == s.table
        && (s.result.Ok? ==> r == Ok(user) && user.Value() == s.result.value)
        && (s.result.Err? ==> r == Err(s.result.error) && user.Value() == old(user.Value()))
    {
      var s := Insert(Snapshot(), user.Value());
      rows, nextId := s.table.rows, s.table.nextId;
      match s.result
      case Ok(created) =>
        user.id := created.id;
        r := Ok(user);
      case Err(e) =>
        r := Err(e);
    }

    /** Saves the struct's values; on success writes the id back into it and returns it. */
    method UpdateUser(user: UserRecord) returns (r: Result<UserRecord>)
      requires Valid()
      modifies this, user
      ensures Valid()
      ensures var s := Save(old(Snapshot()), old(user.Value()));
        && Snapshot() == s.table
        && (s.result.Ok? ==> r == Ok(user) && user.Value() == s.result.value)
        && (s.result.Err? ==> r == Err(s.result.error) && user.Value() == old(user.Value()))
    {
      var s := Save(Snapshot(), user.Value());
      rows, nextId := s.table.rows, s.table.nextId;
      match s.result
      case Ok(saved) =>
        user.id := saved.id;
        r := Ok(user);
      case Err(e) =>
        r := Err(e);
    }

    method DeleteUser(id: nat) returns (r: Result<()>)
      requires Valid()
      modifies this
      ensures Valid()
      ensures var s := Delete(old(Snapshot()), id); Snapshot() == s.table && r == s.result
    {
      var s := Delete(Snapshot(), id);
      rows, nextId := s.table.rows, s.table.nextId;
      r := s.result;
    }
  }
}
