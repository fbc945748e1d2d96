# In-memory user table of a small CRUD web service

The service keeps its users in one process-wide list of records plus an
identifier counter that starts at 1. Five handlers read or change them:
list all users, get one by id, create (refusing an email that is already
stored), update the name and/or email of one record (refusing an email that a
record with another id holds), and delete one record by id. Lookups are linear
scans from the front of the list that stop at the first match. Domain errors
answer 404 "User not found" or 400 "Email already registered".

The project has four modules:

- `Models` (models.dfy): the records `User`, `UserCreate` and `UserUpdate`.
  The two optional update fields are `Option<string>`.
- `UserTable` (user_table.dfy): the table as a value (`Table(users, nextId)`).
  Each handler is a function from the table before a request to the table after
  it and the response (`Get`, `Create`, `Update`, `Delete`). The module also
  holds the invariant `Valid` and the lemmas about these functions. `Valid`
  says that ids strictly increase along the list, that every id is below the
  counter, and that emails are pairwise distinct.
- `Routes` (routes.dfy): the store as a class `UserStore` with fields
  `users: seq<User>` and `nextId: nat`. Each handler is a method with the
  same `for` scans and early exits as the service. Each method is proved to
  produce exactly the table and response of the matching `UserTable` function,
  and to keep `Valid`. The update handler's inner conflict scan is the
  read-only method `EmailHeldByOther`. `ClientScenario` drives a fresh store
  through the first three requests of the repository's tests: an empty list, a
  create, and a refused create with the same email.
- `Runs` (runs.dfy): sequences of requests. It proves that the invariants
  survive any sequence and that an id is never handed out twice. It also proves
  that creates with distinct emails are listed in creation order, numbered
  1, 2, 3, ... The `Test...` lemmas follow the repository's test module
  (backend/test_main.py) request by request, one lemma per test function.
  The tests share one table and run in file order, so each lemma starts from
  the table the earlier tests leave behind. `RefusedUpdateExchange` follows a
  refused update, then a delete, then a new create.

One behaviour is kept as the code has it. The update handler writes a supplied
name into the stored record before it checks the supplied email. So an update
refused with DuplicateEmail still leaves the new name stored (`UpdateStored`).

The code also defines the "other record" of the email check by id
(`other_user.id != user_id`), not by position. When ids are unique, the two
coincide (`UpdateConflict`). The clock is passed in: every create receives
its `created_at` instant as an argument.

## Model

| member | source | states |
|---|---|---|
| `UserTable.Response.Status` | backend/app/routes.py:32-52 | a response is answered with 200 exactly when it succeeded, 404 exactly when the id was not found, 400 exactly when the email was refused |
| `UserTable.Response.Detail` | backend/app/routes.py:34 | an error response carries "User not found" exactly when it is NotFound and "Email already registered" exactly when it is DuplicateEmail (the texts at routes.py:34, 52, 65, 69 and 78) |
| `UserTable.Empty` | backend/app/routes.py:9-10 | the starting table has no records and satisfies the id and email invariants |
| `UserTable.IndexOf` | backend/app/routes.py:49-50 | the scan finds a position holding the id with no earlier position holding it; it finds nothing exactly when no record has the id |
| `UserTable.Get` | backend/app/routes.py:46-52 | a found user is a stored record with the requested id; NotFound exactly when no record has that id; never DuplicateEmail |
| `UserTable.Create` | backend/app/routes.py:26-44 | the create handler as written (email scan, then append and counter increment); its contract: never NotFound, a refusal leaves the table as it was, a success hands out the old counter value as the id and raises the counter by one. `CreateOutcome`, `CreatePreservesValid` and `GetAfterCreate` state the rest |
| `UserTable.Update` | backend/app/routes.py:54-69 | the update handler as written (id scan, early name write, conflict scan over the renamed list, email write); its contract: NotFound exactly when no record has the id, a refusal only when an email was supplied, a success returns a record with the requested id, and the number of records and the counter never change. `UpdateUnknownId`, `UpdateStored`, `UpdateConflict`, `UpdateOwnEmailSucceeds` and `UpdatePreservesValid` state the rest |
| `UserTable.Delete` | backend/app/routes.py:71-78 | the delete handler as written (id scan, removal at the found position, the message "User deleted successfully"); its contract: NotFound exactly when no record has the id, never DuplicateEmail, a success answers that message with one record fewer, and the counter never changes. `DeleteStored`, `DeleteUnknownId` and `DeletePreservesValid` state the rest |
| `UserTable.IndexOfStored` | backend/app/routes.py:49-51 | in a valid table, scanning for a stored record's id stops at that record's own position |
| `UserTable.GetStored` | backend/app/routes.py:46-51 | in a valid table, looking up a stored record's id returns that record |
| `UserTable.CreateOutcome` | backend/app/routes.py:26-44 | create fails with DuplicateEmail exactly when some record holds the email, whatever the name, and then the table is unchanged; on success it appends one record with id = old counter, the given name, email and instant, keeps the earlier records as they were and raises the counter by exactly 1; never NotFound |
| `UserTable.CreatePreservesValid` | backend/app/routes.py:32-43 | create keeps ids increasing and below the counter, and emails distinct |
| `UserTable.GetAfterCreate` | backend/app/routes.py:36-51 | right after a successful create, getting the new id returns the new record |
| `UserTable.UpdateUnknownId` | backend/app/routes.py:57-69 | update of an id that no record has answers NotFound and changes nothing |
| `UserTable.UpdateStored` | backend/app/routes.py:57-68 | update of a stored record never answers NotFound and never moves the counter; on success only that record changes, in place, keeping its id and created_at, with the supplied name/email and the old value of each field left unsupplied; on DuplicateEmail an email was supplied, the stored email is unchanged and the supplied name has already been written |
| `UserTable.UpdateConflict` | backend/app/routes.py:61-65 | with an email supplied, update is refused exactly when a record at another position holds that email |
| `UserTable.UpdateOwnEmailSucceeds` | backend/app/routes.py:64 | setting a record's email to its own current value succeeds |
| `UserTable.UpdatePreservesValid` | backend/app/routes.py:54-69 | update keeps ids and distinct emails, on success and on both failures |
| `UserTable.DeleteStored` | backend/app/routes.py:71-77 | deleting a stored record's id removes exactly that record, keeps the others in their order, keeps the counter and answers "User deleted successfully"; a later get of that id answers NotFound |
| `UserTable.DeleteUnknownId` | backend/app/routes.py:74-78 | delete of an id that no record has answers NotFound and changes nothing |
| `UserTable.DeletePreservesValid` | backend/app/routes.py:74-77 | delete keeps ids increasing and below the counter, and emails distinct |
| `Routes.UserStore.constructor` | backend/app/routes.py:9-10 | the store starts as the empty table with the counter at 1, satisfying the invariants |
| `Routes.UserStore.ListUsers` | backend/app/routes.py:21-24 | the whole stored list is returned, in insertion order |
| `Routes.UserStore.GetUser` | backend/app/routes.py:46-52 | the scan returns exactly what `UserTable.Get` specifies |
| `Routes.UserStore.CreateUser` | backend/app/routes.py:26-44 | the email scan, append and counter increment produce exactly the table and response of `UserTable.Create`, and keep the invariants |
| `Routes.UserStore.EmailHeldByOther` | backend/app/routes.py:63-65 | the scan answers true exactly when a record whose id is not the given one holds the email |
| `Routes.UserStore.UpdateUser` | backend/app/routes.py:54-69 | the id scan, the early name write, the nested email scan and the final write produce exactly the table and response of `UserTable.Update`, and keep the invariants |
| `Routes.UserStore.DeleteUser` | backend/app/routes.py:71-78 | the id scan and the removal at that index produce exactly the table and response of `UserTable.Delete`, and keep the invariants |
| `Runs.ApplyPreservesValid` | backend/app/routes.py:21-78 | every request keeps the invariants and never moves the counter back |
| `Runs.RunPreservesValid` | backend/app/routes.py:21-78 | any sequence of requests from a valid table leaves a valid table |
| `Runs.CounterNeverDecreases` | backend/app/routes.py:10-43 | the counter after a prefix of the requests is at most the counter after all of them |
| `Runs.IdsNeverReused` | backend/app/routes.py:37-43 | a record created after any sequence of requests gets an id above that of every record stored at any earlier point, deleted ones included |
| `Runs.TestCreateUser` | backend/test_main.py:23-41 | the list starts empty, and the first create answers the record with id 1 and the given name and email, stored as the only record with the counter at 2 |
| `Runs.TestCreateDuplicateEmail` | backend/test_main.py:43-55 | creating the stored email again is refused with 400 "Email already registered" and leaves the table as it was |
| `Runs.TestGetUserById` | backend/test_main.py:57-72 | the next create gets id 2 and getting id 2 returns that record |
| `Runs.TestGetUserNotFound` | backend/test_main.py:74-78 | getting id 9999 answers 404 "User not found" |
| `Runs.TestUpdateUser` | backend/test_main.py:80-99 | the next create gets id 3, and updating id 3 with a new name and a new email answers the record with both replaced, stored in place |
| `Runs.BothFieldsReplaced` | backend/test_main.py:91-99 | on the table the earlier tests leave, supplying both fields for id 3 replaces both and keeps its id and created_at |
| `Runs.TestDeleteUser` | backend/test_main.py:101-118 | the next create gets id 4; deleting it answers 200 "User deleted successfully" and leaves the three earlier records; getting id 4 then answers 404 |
| `Routes.ClientScenario` | backend/test_main.py:23-55 | on a fresh store the list is empty, the first create answers 200 with the record of id 1, and the same email again answers 400 "Email already registered" |
| `Runs.RefusedUpdateExchange` | backend/app/routes.py:57-76 | with two users stored, updating user 1 with a new name and user 2's email is refused, yet stores the new name and keeps user 1's email; deleting user 1 keeps user 2; the next create gets id 3, not the freed 1 |
| `Runs.CreatesListedInOrder` | backend/app/routes.py:36-43 | from the empty table, creates with distinct emails all succeed and are listed in creation order with ids 1, 2, 3, ... and the counter one past the last |

## Left out

- The health endpoint (backend/app/routes.py:12-19) answers a constant body stamped with the current time, so it has no logic to model.
- Application wiring is not modelled: the app object, the cross-origin middleware, mounting the router under `/api` and the root welcome endpoint (backend/app/main.py). JSON serialisation of responses is not modelled either.
- Request-body validation by the framework is not modelled. A missing or mistyped field, or a path id that is not an integer, answers 422 before any handler runs.
- `User.id` and `User.created_at` are declared optional in backend/app/models.py. The store always sets both, so the model gives them plain types (`nat`, `Timestamp`).
- The wall clock is not modelled. The instant `datetime.now()` would give is an argument to `CreateUser`.
- Aliasing of record objects is not modelled. The service hands out references to its stored objects and its own list. Responses are serialised at once, so the model returns values instead.
- Concurrency is not modelled. The handlers never await, and the model processes requests one at a time, so the check-then-act race on email uniqueness under a concurrent host is outside it.
- The frontend (frontend/js/app.js) is user-interface and network code and is not part of this model.
