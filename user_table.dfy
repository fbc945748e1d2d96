/** The user table as a value: the ordered list of stored records and the
    counter that supplies the next identifier. Each request handler is given
    here as a function from the table before the request to the table after it
    and the response, following the handler's own scan order and early exits.
    The lemmas state what the handlers promise about those functions: the id
    and email invariants, which fields an update touches, what a failure
    leaves behind, and what a later lookup sees. */
module UserTable {
  import opened Models

  /** A handler's outcome; `Status` gives the HTTP status it is answered with. */
  datatype Response<+T> = Ok(value: T) | NotFound | DuplicateEmail {

    function Status(): (code: int)
      ensures code == 200 <==> Ok?
      ensures code == 404 <==> NotFound?
      ensures code == 400 <==> DuplicateEmail?
    {
      match this
      case Ok(_) => 200
      case NotFound => 404
      case DuplicateEmail => 400
    }

    /** The `detail` text of an error response. */
    function Detail(): (d: string)
      requires !Ok?
      ensures d == "User not found" <==> NotFound?
      ensures d == "Email already registered" <==> DuplicateEmail?
    {
      if NotFound? then "User not found" else "Email already registered"
    }
  }

  /** The message a successful delete answers with. */
  const DeletedMessage: string := "User deleted successfully"

  /** The stored records in insertion order, and the next identifier to assign. */
  datatype Table = Table(users: seq<User>, nextId: nat)

  /** The table after a request, and the response to it. */
  datatype Step<+T> = Step(table: Table, response: Response<T>)

  /** The table the service starts with: no records and the counter at 1. */
  function Empty(): (t: Table)
    ensures Valid(t) && t.users == []
  {
    Table([], 1)
  }

  // ---------------------------------------------------------------- invariants

  /** Identifiers grow strictly along the list (so no two records share one). */
  predicate IdsIncreasing(users: seq<User>) {
    forall j, k :: 0 <= j < k < |users| ==> users[j].id < users[k].id
  }

  /** Every stored identifier has already been handed out by the counter. */
  predicate IdsBelow(users: seq<User>, nextId: nat) {
    forall j :: 0 <= j < |users| ==> users[j].id < nextId
  }

  /** No two stored records share an email. */
  predicate EmailsDistinct(users: seq<User>) {
    forall j, k :: 0 <= j < k < |users| ==> users[j].email != users[k].email
  }

  predicate Valid(t: Table) {
    IdsIncreasing(t.users) && IdsBelow(t.users, t.nextId) && EmailsDistinct(t.users)
  }

  // ------------------------------------------------------------------ scanning

  /** The position of the first record with identifier `id`, scanning from the front. */
  function IndexOf(users: seq<User>, id: int): (r: Option<nat>)
    ensures r.Some? ==> r.value < |users| && users[r.value].id == id
    ensures r.Some? ==> forall j :: 0 <= j < r.value ==> users[j].id != id
    ensures r.None? <==> forall j :: 0 <= j < |users| ==> users[j].id != id
  {
    if |users| == 0 then None
    else if users[0].id == id then Some(0)
    else match IndexOf(users[1..], id)
      case None => None
      case Some(k) => Some(k + 1)
  }

  /** Some stored record already holds `email` (exact, case-sensitive match). */
  predicate EmailRegistered(users: seq<User>, email: string) {
    exists j :: 0 <= j < |users| && users[j].email == email
  }

  /** Some stored record whose identifier is not `id` holds `email`. */
  predicate HeldByOther(users: seq<User>, id: int, email: string) {
    exists j :: 0 <= j < |users| && users[j].id != id && users[j].email == email
  }

  // ------------------------------------------------------------------ handlers

  /** GET /users/{id}: the first record with that identifier. */
  function Get(t: Table, id: int): (r: Response<User>)
    ensures r.Ok? ==> r.value in t.users && r.value.id == id
    ensures r.NotFound? <==> forall j :: 0 <= j < |t.users| ==> t.users[j].id != id
    ensures !r.DuplicateEmail?
  {
    match IndexOf(t.users, id)
    case None => NotFound
    case Some(i) => Ok(t.users[i])
  }

  /** POST /users: refuse an email already held, otherwise append a record
      carrying the current counter value and advance the counter. */
  function Create(t: Table, req: UserCreate, createdAt: Timestamp): (s: Step<User>)
    ensures !s.response.NotFound?
    ensures s.response.DuplicateEmail? ==> s.table == t
    ensures s.response.Ok? ==> s.response.value.id == t.nextId && s.table.nextId == t.nextId + 1
  {
    if EmailRegistered(t.users, req.email) then Step(t, DuplicateEmail)
    else
      var u := User(t.nextId, req.name, req.email, createdAt);
      Step(Table(t.users + [u], t.nextId + 1), Ok(u))
  }

  /** PUT /users/{id}: on the first record with that identifier, write a
      supplied name at once; then, for a supplied email, refuse it if a record
      with another identifier holds it and otherwise write it. The name is
      already stored when the email is refused. */
  function Update(t: Table, id: int, upd: UserUpdate): (s: Step<User>)
    ensures s.response.NotFound? <==> forall j :: 0 <= j < |t.users| ==> t.users[j].id != id
    ensures s.response.DuplicateEmail? ==> upd.email.Some?
    ensures s.response.Ok? ==> s.response.value.id == id
    ensures |s.table.users| == |t.users| && s.table.nextId == t.nextId
  {
    match IndexOf(t.users, id)
    case None => Step(t, NotFound)
    case Some(i) =>
      var renamed := if upd.name.Some? then t.users[i].(name := upd.name.value) else t.users[i];
      var users1 := if upd.name.Some? then t.users[i := renamed] else t.users;
      match upd.email
      case None => Step(Table(users1, t.nextId), Ok(renamed))
      case Some(e) =>
        if HeldByOther(users1, id, e) then Step(Table(users1, t.nextId), DuplicateEmail)
        else
          var u := renamed.(email := e);
          Step(Table(users1[i := u], t.nextId), Ok(u))
  }

  /** DELETE /users/{id}: remove the first record with that identifier. */
  function Delete(t: Table, id: int): (s: Step<string>)
    ensures s.response.NotFound? <==> forall j :: 0 <= j < |t.users| ==> t.users[j].id != id
    ensures !s.response.DuplicateEmail?
    ensures s.response.Ok? ==> s.response.value == DeletedMessage && |s.table.users| == |t.users| - 1
    ensures s.table.nextId == t.nextId
  {
    match IndexOf(t.users, id)
    case None => Step(t, NotFound)
    case Some(i) => Step(Table(t.users[..i] + t.users[i + 1..], t.nextId), Ok(DeletedMessage))
  }

  // -------------------------------------------------------------------- lemmas

  /** In a valid table a record's identifier locates exactly that record. */
  lemma IndexOfStored(t: Table, i: nat)
    requires Valid(t) && i < |t.users|
    ensures IndexOf(t.users, t.users[i].id) == Some(i)
  {
  }

  /** Looking up a stored record's identifier returns that record. */
  lemma GetStored(t: Table, i: nat)
    requires Valid(t) && i < |t.users|
    ensures Get(t, t.users[i].id) == Ok(t.users[i])
  {
  }

  /** Create fails exactly when the email is already held, and then changes
      nothing; otherwise it appends one record with the old counter as its
      identifier and the given name, email and instant, keeps every earlier
      record, and advances the counter by one. */
  lemma CreateOutcome(t: Table, req: UserCreate, createdAt: Timestamp)
    ensures var s := Create(t, req, createdAt);
      (s.response == DuplicateEmail <==> exists j :: 0 <= j < |t.users| && t.users[j].email == req.email)
      && (s.response.DuplicateEmail? ==> s.table == t)
      && (s.response.Ok? ==>
            var u := s.response.value;
            u == User(t.nextId, req.name, req.email, createdAt)
            && |s.table.users| == |t.users| + 1
            && s.table.users[..|t.users|] == t.users
            && s.table.users[|t.users|] == u
            && s.table.nextId == t.nextId + 1)
      && !s.response.NotFound?
  {
  }

  lemma CreatePreservesValid(t: Table, req: UserCreate, createdAt: Timestamp)
    requires Valid(t)
    ensures Valid(Create(t, req, createdAt).table)
  {
  }

  /** Right after a successful create, looking up the new identifier finds the new record. */
  lemma GetAfterCreate(t: Table, req: UserCreate, createdAt: Timestamp)
    requires Valid(t)
    ensures var s := Create(t, req, createdAt);
      s.response.Ok? ==> Get(s.table, s.response.value.id) == Ok(s.response.value)
  {
    var s := Create(t, req, createdAt);
    if s.response.Ok? {
      CreatePreservesValid(t, req, createdAt);
      GetStored(s.table, |t.users|);
    }
  }

  /** An identifier no record carries: update answers NotFound and changes nothing. */
  lemma UpdateUnknownId(t: Table, id: int, upd: UserUpdate)
    requires forall j :: 0 <= j < |t.users| ==> t.users[j].id != id
    ensures Update(t, id, upd) == Step(t, NotFound)
  {
  }

  /** Update of the record at position `i` of a valid table: the counter and
      the list length never change, and the record keeps its position,
      identifier and creation instant. On success it carries the supplied name
      and email (the old ones where none was supplied) and every other record
      is untouched. On DuplicateEmail an email was supplied, the stored email
      is the old one, and the stored name is the supplied one. */
  lemma UpdateStored(t: Table, i: nat, upd: UserUpdate)
    requires Valid(t) && i < |t.users|
    ensures var old_ := t.users[i];
      var s := Update(t, old_.id, upd);
      var named := old_.(name := upd.name.GetOr(old_.name));
      s.table.nextId == t.nextId
      && (s.response.Ok? || s.response.DuplicateEmail?)
      && (s.response.Ok? ==>
            s.response.value == User(old_.id, upd.name.GetOr(old_.name), upd.email.GetOr(old_.email), old_.createdAt)
            && s.table.users == t.users[i := s.response.value])
      && (s.response.DuplicateEmail? ==>
            upd.email.Some? && s.table.users == t.users[i := named])
  {
  }

  /** With an email supplied for the record at position `i` of a valid table,
      update is refused exactly when a record at another position holds that
      email. */
  lemma UpdateConflict(t: Table, i: nat, upd: UserUpdate)
    requires Valid(t) && i < |t.users| && upd.email.Some?
    ensures Update(t, t.users[i].id, upd).response == DuplicateEmail
            <==> exists j :: 0 <= j < |t.users| && j != i && t.users[j].email == upd.email.value
  {
  }

  /** Supplying a record's own current email is not a conflict: the update succeeds. */
  lemma UpdateOwnEmailSucceeds(t: Table, i: nat, name: Option<string>)
    requires Valid(t) && i < |t.users|
    ensures Update(t, t.users[i].id, UserUpdate(name, Some(t.users[i].email))).response.Ok?
  {
    var upd := UserUpdate(name, Some(t.users[i].email));
    UpdateConflict(t, i, upd);
    UpdateStored(t, i, upd);
    forall j | 0 <= j < |t.users| && j != i
      ensures t.users[j].email != t.users[i].email
    {
      if j < i { assert t.users[j].email != t.users[i].email; }
    }
  }

  /** Update keeps both invariants, on success and on either failure. */
  lemma UpdatePreservesValid(t: Table, id: int, upd: UserUpdate)
    requires Valid(t)
    ensures Valid(Update(t, id, upd).table)
  {
    var r := IndexOf(t.users, id);
    if r.Some? {
      var i := r.value;
      IndexOfStored(t, i);
      UpdateStored(t, i, upd);
      var s := Update(t, id, upd);
      var us := s.table.users;
      var u := us[i];
      assert us == t.users[i := u];
      assert u.id == t.users[i].id;
      if s.response.Ok? && upd.email.Some? {
        UpdateConflict(t, i, upd);
        assert u.email == upd.email.value;
      } else {
        assert u.email == t.users[i].email;
      }
      forall j, k | 0 <= j < k < |us|
        ensures us[j].id < us[k].id && us[j].email != us[k].email
      {
        if j == i {
          assert us[k] == t.users[k];
        } else if k == i {
          assert us[j] == t.users[j];
        } else {
          assert us[j] == t.users[j] && us[k] == t.users[k];
        }
      }
      forall j | 0 <= j < |us| ensures us[j].id < s.table.nextId {
        if j != i { assert us[j] == t.users[j]; }
      }
    }
  }

  /** Deleting the record at position `i` of a valid table removes exactly it,
      keeps the others in order and keeps the counter; looking its identifier
      up afterwards answers NotFound. */
  lemma DeleteStored(t: Table, i: nat)
    requires Valid(t) && i < |t.users|
    ensures var s := Delete(t, t.users[i].id);
      s == Step(Table(t.users[..i] + t.users[i + 1..], t.nextId), Ok(DeletedMessage))
      && Get(s.table, t.users[i].id) == NotFound
  {
  }

  /** An identifier no record carries: delete answers NotFound and changes nothing. */
  lemma DeleteUnknownId(t: Table, id: int)
    requires forall j :: 0 <= j < |t.users| ==> t.users[j].id != id
    ensures Delete(t, id) == Step(t, NotFound)
  {
  }

  lemma DeletePreservesValid(t: Table, id: int)
    requires Valid(t)
    ensures Valid(Delete(t, id).table)
  {
    var r := IndexOf(t.users, id);
    if r.Some? {
      var i := r.value;
      var us := t.users[..i] + t.users[i + 1..];
      assert Delete(t, id).table == Table(us, t.nextId);
      assert |us| == |t.users| - 1;
      forall j | 0 <= j < |us|
        ensures us[j] == t.users[if j < i then j else j + 1]
      {
      }
      forall j, k | 0 <= j < k < |us|
        ensures us[j].id < us[k].id && us[j].email != us[k].email
      {
        var j', k' := if j < i then j else j + 1, if k < i then k else k + 1;
        assert j' < k' && us[j] == t.users[j'] && us[k] == t.users[k'];
      }
    }
  }
}
