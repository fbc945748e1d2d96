/** Sequences of requests against the user table, one request at a time as the
    service processes them. What holds across requests: the invariants survive
    any sequence, the counter never goes back, an identifier once handed out is
    never handed out again (even after its record is deleted), and creates with
    distinct emails are listed in creation order with increasing identifiers. */
module Runs {
  import opened Models
  import opened UserTable

  /** One request to the user endpoints. */
  datatype Request =
    | ListRequest
    | GetRequest(id: int)
    | CreateRequest(body: UserCreate, createdAt: Timestamp)
    | UpdateRequest(id: int, update: UserUpdate)
    | DeleteRequest(id: int)

  /** The table after one request. */
  function Apply(t: Table, rq: Request): Table {
    match rq
    case ListRequest => t
    case GetRequest(_) => t
    case CreateRequest(body, createdAt) => Create(t, body, createdAt).table
    case UpdateRequest(id, update) => Update(t, id, update).table
    case DeleteRequest(id) => Delete(t, id).table
  }

  /** The table after the requests in order, the last one applied last. */
  function Run(t: Table, rqs: seq<Request>): Table
    decreases |rqs|
  {
    if |rqs| == 0 then t else Apply(Run(t, rqs[..|rqs| - 1]), rqs[|rqs| - 1])
  }

  /** Every request keeps the invariants and never moves the counter back. */
  lemma ApplyPreservesValid(t: Table, rq: Request)
    requires Valid(t)
    ensures Valid(Apply(t, rq)) && Apply(t, rq).nextId >= t.nextId
  {
    match rq
    case ListRequest =>
    case GetRequest(_) =>
    case CreateRequest(body, createdAt) => CreatePreservesValid(t, body, createdAt);
    case UpdateRequest(id, update) => UpdatePreservesValid(t, id, update);
    case DeleteRequest(id) => DeletePreservesValid(t, id);
  }

  lemma {:induction false} RunPreservesValid(t: Table, rqs: seq<Request>)
    requires Valid(t)
    ensures Valid(Run(t, rqs))
    decreases |rqs|
  {
    if |rqs| > 0 {
      RunPreservesValid(t, rqs[..|rqs| - 1]);
      ApplyPreservesValid(Run(t, rqs[..|rqs| - 1]), rqs[|rqs| - 1]);
    }
  }

  /** The counter after a prefix of the requests is at most the counter after all of them. */
  lemma {:induction false} CounterNeverDecreases(t: Table, rqs: seq<Request>, k: nat)
    requires Valid(t) && k <= |rqs|
    ensures Run(t, rqs[..k]).nextId <= Run(t, rqs).nextId
    decreases |rqs| - k
  {
    if k < |rqs| {
      var front := rqs[..|rqs| - 1];
      assert front[..k] == rqs[..k];
      CounterNeverDecreases(t, front, k);
      RunPreservesValid(t, front);
      ApplyPreservesValid(Run(t, front), rqs[|rqs| - 1]);
    } else {
      assert rqs[..k] == rqs;
    }
  }

  /** Identifiers are never reused: a record created after any sequence of
      requests gets an identifier above that of every record stored at any
      earlier point, including records deleted since. */
  lemma IdsNeverReused(t: Table, rqs: seq<Request>, k: nat, body: UserCreate, createdAt: Timestamp)
    requires Valid(t) && k <= |rqs|
    ensures var s := Create(Run(t, rqs), body, createdAt);
      s.response.Ok? ==>
        forall u :: u in Run(t, rqs[..k]).users ==> u.id < s.response.value.id
  {
    RunPreservesValid(t, rqs[..k]);
    CounterNeverDecreases(t, rqs, k);
  }

  /** Only create requests, with pairwise distinct emails. */
  predicate DistinctCreates(rqs: seq<Request>) {
    (forall k :: 0 <= k < |rqs| ==> rqs[k].CreateRequest?)
    && forall j, k :: 0 <= j < k < |rqs| ==> rqs[j].body.email != rqs[k].body.email
  }

  /** From the empty table, creates with distinct emails all succeed; the list
      then holds them in creation order, numbered 1, 2, 3, ... */
  lemma {:induction false} CreatesListedInOrder(rqs: seq<Request>)
    requires DistinctCreates(rqs)
    ensures var t := Run(Empty(), rqs);
      |t.users| == |rqs| && t.nextId == |rqs| + 1
      && forall k :: 0 <= k < |rqs| ==>
           t.users[k] == User(k + 1, rqs[k].body.name, rqs[k].body.email, rqs[k].createdAt)
    decreases |rqs|
  {
    if |rqs| > 0 {
      var n := |rqs| - 1;
      var front := rqs[..n];
      assert DistinctCreates(front) by {
        assert forall k :: 0 <= k < n ==> front[k] == rqs[k];
      }
      CreatesListedInOrder(front);
      var t0 := Run(Empty(), front);
      var last := rqs[n];
      assert !EmailRegistered(t0.users, last.body.email) by {
        forall j | 0 <= j < |t0.users| ensures t0.users[j].email != last.body.email {
          assert t0.users[j].email == rqs[j].body.email;
        }
      }
    }
  }

  // The test module (backend/test_main.py) sends its requests in file order
  // to one shared table. Each lemma below is one test function, starting
  // from the table the earlier tests leave behind. `c1` to `c4` are the
  // creation instants of the four records that get stored, `c0` that of a
  // refused create.

  /** The list starts empty; "Test User" is created with identifier 1. */
  lemma TestCreateUser(c1: Timestamp)
    ensures Empty().users == []
    ensures var a := User(1, "Test User", "test@example.com", c1);
      Create(Empty(), UserCreate("Test User", "test@example.com"), c1) == Step(Table([a], 2), Ok(a))
  {
  }

  /** Creating the same email again is refused with 400 and leaves the table as it was. */
  lemma TestCreateDuplicateEmail(c1: Timestamp, c0: Timestamp)
    ensures var a := User(1, "Test User", "test@example.com", c1);
      var s := Create(Table([a], 2), UserCreate("Test User", "test@example.com"), c0);
      s == Step(Table([a], 2), DuplicateEmail)
      && s.response.Status() == 400 && s.response.Detail() == "Email already registered"
  {
    var a := User(1, "Test User", "test@example.com", c1);
    assert EmailRegistered([a], a.email) by { assert [a][0] == a; }
  }

  /** A second user gets identifier 2 and is found by it. */
  lemma TestGetUserById(c1: Timestamp, c2: Timestamp)
    ensures var a := User(1, "Test User", "test@example.com", c1);
      var b := User(2, "Test User 2", "test2@example.com", c2);
      Create(Table([a], 2), UserCreate("Test User 2", "test2@example.com"), c2) == Step(Table([a, b], 3), Ok(b))
      && Get(Table([a, b], 3), 2) == Ok(b)
  {
    var a := User(1, "Test User", "test@example.com", c1);
    var b := User(2, "Test User 2", "test2@example.com", c2);
    assert "test@example.com"[4] != "test2@example.com"[4];
    assert !EmailRegistered([a], b.email) by { assert [a][0] == a; }
    assert IndexOf([a, b], 2) == Some(1);
  }

  /** An identifier no record has answers 404 "User not found". */
  lemma TestGetUserNotFound(c1: Timestamp, c2: Timestamp)
    ensures var a := User(1, "Test User", "test@example.com", c1);
      var b := User(2, "Test User 2", "test2@example.com", c2);
      var r := Get(Table([a, b], 3), 9999);
      r == NotFound && r.Status() == 404 && r.Detail() == "User not found"
  {
  }

  /** A third user gets identifier 3; supplying both fields replaces both. */
  lemma TestUpdateUser(c1: Timestamp, c2: Timestamp, c3: Timestamp)
    ensures var a := User(1, "Test User", "test@example.com", c1);
      var b := User(2, "Test User 2", "test2@example.com", c2);
      var c := User(3, "Test User 3", "test3@example.com", c3);
      Create(Table([a, b], 3), UserCreate("Test User 3", "test3@example.com"), c3) == Step(Table([a, b, c], 4), Ok(c))
    ensures var a := User(1, "Test User", "test@example.com", c1);
      var b := User(2, "Test User 2", "test2@example.com", c2);
      var c := User(3, "Test User 3", "test3@example.com", c3);
      var c' := User(3, "Updated User", "updated@example.com", c3);
      Update(Table([a, b, c], 4), 3, UserUpdate(Some("Updated User"), Some("updated@example.com")))
        == Step(Table([a, b, c'], 4), Ok(c'))
  {
    var a := User(1, "Test User", "test@example.com", c1);
    var b := User(2, "Test User 2", "test2@example.com", c2);
    assert "test@example.com"[4] != "test3@example.com"[4];
    assert "test2@example.com"[4] != "test3@example.com"[4];
    assert !EmailRegistered([a, b], "test3@example.com") by { assert [a, b][0] == a && [a, b][1] == b; }
    BothFieldsReplaced(a, b, User(3, "Test User 3", "test3@example.com", c3));
  }

  /** The update step of `TestUpdateUser`. */
  lemma BothFieldsReplaced(a: User, b: User, c: User)
    requires a == User(1, "Test User", "test@example.com", a.createdAt)
    requires b == User(2, "Test User 2", "test2@example.com", b.createdAt)
    requires c == User(3, "Test User 3", "test3@example.com", c.createdAt)
    ensures var c' := User(3, "Updated User", "updated@example.com", c.createdAt);
      Update(Table([a, b, c], 4), 3, UserUpdate(Some("Updated User"), Some("updated@example.com")))
        == Step(Table([a, b, c'], 4), Ok(c'))
  {
    var c' := User(3, "Updated User", "updated@example.com", c.createdAt);
    assert [a, b, c][0] == a && [a, b, c][1] == b && [a, b, c][2] == c;
    assert IndexOf([a, b, c], 3) == Some(2);
    assert !HeldByOther([a, b, c][2 := c.(name := "Updated User")], 3, c'.email) by {
      assert "updated@example.com"[0] != "test@example.com"[0];
      assert "updated@example.com"[0] != "test2@example.com"[0];
    }
    assert [a, b, c][2 := c'] == [a, b, c'];
  }

  /** A fourth user gets identifier 4, is deleted, and is then not found. */
  lemma TestDeleteUser(c1: Timestamp, c2: Timestamp, c3: Timestamp, c4: Timestamp)
    ensures var a := User(1, "Test User", "test@example.com", c1);
      var b := User(2, "Test User 2", "test2@example.com", c2);
      var c' := User(3, "Updated User", "updated@example.com", c3);
      var d := User(4, "Test User 4", "test4@example.com", c4);
      Create(Table([a, b, c'], 4), UserCreate("Test User 4", "test4@example.com"), c4)
        == Step(Table([a, b, c', d], 5), Ok(d))
    ensures var a := User(1, "Test User", "test@example.com", c1);
      var b := User(2, "Test User 2", "test2@example.com", c2);
      var c' := User(3, "Updated User", "updated@example.com", c3);
      var d := User(4, "Test User 4", "test4@example.com", c4);
      var s := Delete(Table([a, b, c', d], 5), 4);
      s == Step(Table([a, b, c'], 5), Ok(DeletedMessage))
      && s.response.Status() == 200 && Get(s.table, 4).Status() == 404
  {
    var a := User(1, "Test User", "test@example.com", c1);
    var b := User(2, "Test User 2", "test2@example.com", c2);
    var c' := User(3, "Updated User", "updated@example.com", c3);
    var d := User(4, "Test User 4", "test4@example.com", c4);
    assert Create(Table([a, b, c'], 4), UserCreate("Test User 4", "test4@example.com"), c4)
        == Step(Table([a, b, c', d], 5), Ok(d)) by {
      assert "test@example.com"[4] != "test4@example.com"[4];
      assert "test2@example.com"[4] != "test4@example.com"[4];
      assert "updated@example.com"[0] != "test4@example.com"[0];
      assert !EmailRegistered([a, b, c'], d.email) by { assert [a, b, c'][0] == a && [a, b, c'][1] == b && [a, b, c'][2] == c'; }
    }
    assert [a, b, c', d][0] == a && [a, b, c', d][1] == b && [a, b, c', d][2] == c' && [a, b, c', d][3] == d;
    assert IndexOf([a, b, c', d], 4) == Some(3);
    assert [a, b, c', d][..3] + [a, b, c', d][4..] == [a, b, c'];
  }

  /** An update whose email another user holds is refused, yet the supplied
      name is already stored; after the first user is deleted, a new create
      gets identifier 3, not the freed 1. */
  lemma RefusedUpdateExchange(t1: Timestamp, t2: Timestamp)
    ensures var a := User(1, "Test User", "test@example.com", t1);
      Create(Empty(), UserCreate("Test User", "test@example.com"), t1) == Step(Table([a], 2), Ok(a))
    ensures var a := User(1, "Test User", "test@example.com", t1);
      var b := User(2, "Other", "other@example.com", t2);
      Create(Table([a], 2), UserCreate("Other", "other@example.com"), t2) == Step(Table([a, b], 3), Ok(b))
    ensures var a := User(1, "Test User", "test@example.com", t1);
      var b := User(2, "Other", "other@example.com", t2);
      Update(Table([a, b], 3), 1, UserUpdate(Some("Renamed"), Some("other@example.com")))
        == Step(Table([a.(name := "Renamed"), b], 3), DuplicateEmail)
    ensures var a := User(1, "Renamed", "test@example.com", t1);
      var b := User(2, "Other", "other@example.com", t2);
      Delete(Table([a, b], 3), 1) == Step(Table([b], 3), Ok(DeletedMessage))
    ensures var b := User(2, "Other", "other@example.com", t2);
      Create(Table([b], 3), UserCreate("Test User", "test@example.com"), t2).response
        == Ok(User(3, "Test User", "test@example.com", t2))
  {
    var a := User(1, "Test User", "test@example.com", t1);
    var b := User(2, "Other", "other@example.com", t2);
    var a' := a.(name := "Renamed");
    assert "test@example.com"[0] != "other@example.com"[0];
    assert !EmailRegistered([a], b.email) by { assert [a][0] == a; }
    assert IndexOf([a, b], 1) == Some(0);
    assert HeldByOther([a', b], 1, b.email) by { assert [a', b][1] == b; }
    assert IndexOf([a', b], 1) == Some(0);
    assert [a', b][1..] == [b];
    assert !EmailRegistered([b], a.email) by { assert [b][0] == b; }
  }
}
