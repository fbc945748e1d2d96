/** The request handlers over the process-wide user store. The store is one
    object holding the record list and the identifier counter; each handler
    scans the list from the front the way the service does, leaves early on the
    first match or the first conflict, and changes the two fields in place.
    Every handler is proved to do exactly what the matching function of
    `UserTable` describes, so the lemmas there apply to the store. */
module Routes {
  import opened Models
  import opened UserTable

  class UserStore {
    var users: seq<User>
    var nextId: nat

    /** The store's contents as a table value. */
    function Model(): Table
      reads this
    {
      Table(users, nextId)
    }

    /** Distinct, increasing identifiers below the counter, and distinct emails. */
    ghost predicate Valid()
      reads this
    {
      UserTable.Valid(Model())
    }

    /** The store at process start: empty, with the counter at 1. */
    constructor ()
      ensures Valid() && Model() == Empty()
    {
      users := [];
      nextId := 1;
    }

    /** GET /users: every stored record, in insertion order. */
    method ListUsers() returns (r: seq<User>)
      ensures r == users
    {
      r := users;
    }

    /** GET /users/{id}: the first record with that identifier, or NotFound. */
    method GetUser(id: int) returns (r: Response<User>)
      ensures r == Get(Model(), id)
    {
      var i := 0;
      while i < |users|
        invariant 0 <= i <= |users|
        invariant forall j :: 0 <= j < i ==> users[j].id != id
      {
        if users[i].id == id {
          return Ok(users[i]);
        }
        i := i + 1;
      }
      return NotFound;
    }

    /** POST /users. */
    method CreateUser(req: UserCreate, createdAt: Timestamp) returns (r: Response<User>)
      requires Valid()
      modifies this
      ensures Step(Model(), r) == Create(old(Model()), req, createdAt)
      ensures Valid()
    {
      var k := 0;
      while k < |users|
        invariant 0 <= k <= |users|
        invariant forall j :: 0 <= j < k ==> users[j].email != req.email
      {
        if users[k].email == req.email {
          r := DuplicateEmail;
          assert Step(Model(), r) == Create(old(Model()), req, createdAt);
          CreatePreservesValid(old(Model()), req, createdAt);
          return;
        }
        k := k + 1;
      }
      var u := User(nextId, req.name, req.email, createdAt);
      users := users + [u];
      nextId := nextId + 1;
      r := Ok(u);
      assert Step(Model(), r) == Create(old(Model()), req, createdAt);
      CreatePreservesValid(old(Model()), req, createdAt);
    }

    /** The conflict scan of PUT /users/{id}: does a record whose identifier
        is not `id` hold `email`? */
    method EmailHeldByOther(id: int, email: string) returns (held: bool)
      ensures held <==> HeldByOther(users, id, email)
    {
      var k := 0;
      while k < |users|
        invariant 0 <= k <= |users|
        invariant forall j :: 0 <= j < k ==> !(users[j].id != id && users[j].email == email)
      {
        if users[k].id != id && users[k].email == email {
          return true;
        }
        k := k + 1;
      }
      return false;
    }

    /** PUT /users/{id}. The name is written into the stored record before
        the email is checked, so it stays written when the email is refused. */
    method UpdateUser(id: int, upd: UserUpdate) returns (r: Response<User>)
      requires Valid()
      modifies this
      ensures Step(Model(), r) == Update(old(Model()), id, upd)
      ensures Valid()
    {
      var i := 0;
      while i < |users|
        invariant 0 <= i <= |users|
        invariant users == old(users) && nextId == old(nextId)
        invariant forall j :: 0 <= j < i ==> users[j].id != id
      {
        if users[i].id == id {
          assert IndexOf(old(users), id) == Some(i);
          var user := users[i];
          if upd.name.Some? {
            user := user.(name := upd.name.value);
            users := users[i := user];
          }
          if upd.email.Some? {
            var held := EmailHeldByOther(id, upd.email.value);
            if held {
              r := DuplicateEmail;
              assert Step(Model(), r) == Update(old(Model()), id, upd);
              UpdatePreservesValid(old(Model()), id, upd);
              return;
            }
            user := user.(email := upd.email.value);
          }
          users := users[i := user];
          r := Ok(user);
          assert Step(Model(), r) == Update(old(Model()), id, upd);
          UpdatePreservesValid(old(Model()), id, upd);
          return;
        }
        i := i + 1;
      }
      r := NotFound;
      assert Step(Model(), r) == Update(old(Model()), id, upd);
      UpdatePreservesValid(old(Model()), id, upd);
    }

    /** DELETE /users/{id}. */
    method DeleteUser(id: int) returns (r: Response<string>)
      requires Valid()
      modifies this
      ensures Step(Model(), r) == Delete(old(Model()), id)
      ensures Valid()
    {
      var i := 0;
      while i < |users|
        invariant 0 <= i <= |users|
        invariant users == old(users) && nextId == old(nextId)
        invariant forall j :: 0 <= j < i ==> users[j].id != id
      {
        if users[i].id == id {
          users := users[..i] + users[i + 1..];
          r := Ok(DeletedMessage);
          assert Step(Model(), r) == Delete(old(Model()), id);
          DeletePreservesValid(old(Model()), id);
          return;
        }
        i := i + 1;
      }
      r := NotFound;
      assert Step(Model(), r) == Delete(old(Model()), id);
      DeletePreservesValid(old(Model()), id);
    }
  }

  /** The first three requests of the test module against a fresh store
      (backend/test_main.py): the list is empty, "Test User" is created with
      identifier 1, and the same email is then refused with 400. */
  method ClientScenario(c1: Timestamp, c0: Timestamp)
    returns (listed: seq<User>, created: Response<User>, again: Response<User>)
    ensures listed == []
    ensures created == Ok(User(1, "Test User", "test@example.com", c1)) && created.Status() == 200
    ensures again == DuplicateEmail && again.Status() == 400
    ensures again.Detail() == "Email already registered"
  {
    var store := new UserStore();
    listed := store.ListUsers();

    created := store.CreateUser(UserCreate("Test User", "test@example.com"), c1);
    var u := User(1, "Test User", "test@example.com", c1);
    assert created == Ok(u);
    assert store.Model() == Table([u], 2);

    again := store.CreateUser(UserCreate("Test User", "test@example.com"), c0);
    assert EmailRegistered([u], "test@example.com") by { assert [u][0].email == "test@example.com"; }
    assert again == DuplicateEmail;
  }
}
