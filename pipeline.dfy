/**
 * A request end to end: the controller action runs against a service that
 * behaves as UserService does on a given table, and the table afterwards is
 * the effect of the service calls the action made. The storage's choices
 * (whether a statement fails, which id an insert gets, in which order rows
 * are read) are parameters.
 */
module Pipeline {
  import opened Wrappers
  import opened Text
  import opened Exceptions
  import opened Models
  import opened Services
  import opened UsersController

  /** The response and the table after one request. */
  datatype Exchange = Exchange(result: ActionResult, table: Table)

  /** The table after the service calls an action made (at most one);
      `newId` is the id an insert would get, and matters only for a create. */
  function Effect(t: Table, calls: seq<ServiceCall>, dbFails: bool, newId: int): (t': Table)
    requires |calls| <= 1
    requires calls != [] && calls[0].CreateUserCall? ==> newId > 0 && newId !in t
  {
    if calls == [] then t
    else match calls[0]
      case CreateUserCall(name, age) => Create(t, name, age, dbFails, newId).table
      case GetAllUsersCall => t
      case UpdateUserCall(id, name, age) => Update(t, id, name, age, dbFails).table
      case DeleteUserCall(id) => Delete(t, id, dbFails).table
  }

  /** POST /api/users with an optional body. */
  function Post(t: Table, body: Option<User>, dbFails: bool, newId: int): (x: Exchange)
    requires newId > 0 && newId !in t
    ensures StatusCode(x.result) == 200 <==>
      body.Some? && !IsNullOrWhiteSpace(body.value.name) && AgeInRange(body.value.age) && !dbFails
    ensures StatusCode(x.result) == 400 <==>
      body.None? || IsNullOrWhiteSpace(body.value.name) || !AgeInRange(body.value.age)
    ensures StatusCode(x.result) == 500 <==>
      body.Some? && !IsNullOrWhiteSpace(body.value.name) && AgeInRange(body.value.age) && dbFails
    ensures StatusCode(x.result) == 200 ==> x.result == Ok(Text(UserCreated))
    ensures StatusCode(x.result) == 500 ==> x.result == Status(500, Text(CreateError))
    ensures body.None? ==> x.result == BadRequest(Null)
    ensures body.Some? && CreateGuard(body.value.name, body.value.age).Some? ==>
      x.result == BadRequest(Text(CreateGuard(body.value.name, body.value.age).value.Message()))
    ensures StatusCode(x.result) == 200 ==> x.table == t[newId := Row(body.value.name.value, body.value.age)]
    ensures StatusCode(x.result) != 200 ==> x.table == t
    ensures RowsValid(t) ==> RowsValid(x.table)
  {
    var h := UsersController.CreateUser(body, (name, age) => Create(t, name, age, dbFails, newId).outcome);
    Exchange(h.result, Effect(t, h.calls, dbFails, newId))
  }

  /** GET /api/users, the storage reading the rows in the order of `listing`. */
  function Get(t: Table, dbFails: bool, listing: seq<User>): (x: Exchange)
    requires ListsTable(listing, t)
    ensures x.table == t
    ensures !dbFails ==> x.result == Ok(UserList(listing)) && |listing| == |t|
    ensures dbFails ==> x.result == Status(500, Text(FetchError))
  {
    ListsCount(listing, t);
    var h := UsersController.GetAllUsers(() => if dbFails then Threw(FetchFailed) else Returned(listing));
    Exchange(h.result, t)
  }

  /** PUT /api/users/{id} with an optional body. */
  function Put(t: Table, id: int, body: Option<User>, dbFails: bool): (x: Exchange)
    ensures StatusCode(x.result) == 200 <==>
      body.Some? && body.value.id == id && UpdateGuard(id, body.value.name, body.value.age).None? && !dbFails && id in t
    ensures StatusCode(x.result) == 400 <==>
      body.None? || body.value.id != id || UpdateGuard(id, body.value.name, body.value.age).Some?
    ensures StatusCode(x.result) == 404 <==>
      body.Some? && body.value.id == id && UpdateGuard(id, body.value.name, body.value.age).None? && !dbFails && id !in t
    ensures StatusCode(x.result) == 500 <==>
      body.Some? && body.value.id == id && UpdateGuard(id, body.value.name, body.value.age).None? && dbFails
    ensures StatusCode(x.result) == 200 ==> x.result == Ok(Text(UserUpdated))
    ensures body.None? ==> x.result == BadRequest(Null)
    ensures body.Some? && body.value.id != id ==> x.result == BadRequest(UserValue(body.value))
    ensures body.Some? && body.value.id == id && UpdateGuard(id, body.value.name, body.value.age).Some? ==>
      x.result == BadRequest(Text(UpdateGuard(id, body.value.name, body.value.age).value.Message()))
    ensures StatusCode(x.result) == 404 ==> x.result == NotFound(Text("User with ID " + IntToString(id) + " not found"))
    ensures StatusCode(x.result) == 500 ==> x.result == Status(500, Text(UpdateError))
    ensures StatusCode(x.result) == 200 ==> x.table == t[id := Row(body.value.name.value, body.value.age)]
    ensures StatusCode(x.result) != 200 ==> x.table == t
    ensures x.table.Keys == t.Keys
  {
    var h := UsersController.UpdateUser(id, body, (i, name, age) => Update(t, i, name, age, dbFails).outcome);
    Exchange(h.result, Effect(t, h.calls, dbFails, 0))
  }

  /** DELETE /api/users/{id}. */
  function Remove(t: Table, id: int, dbFails: bool): (x: Exchange)
    ensures StatusCode(x.result) == 200 <==> id > 0 && !dbFails && id in t
    ensures StatusCode(x.result) == 400 <==> id <= 0
    ensures StatusCode(x.result) == 400 ==> x.result == BadRequest(Text("Invalid user ID (Parameter 'id')"))
    ensures StatusCode(x.result) == 404 <==> id > 0 && !dbFails && id !in t
    ensures StatusCode(x.result) == 500 <==> id > 0 && dbFails
    ensures StatusCode(x.result) == 200 ==> x.result == Ok(Text(UserDeleted))
    ensures StatusCode(x.result) == 404 ==> x.result == NotFound(Text("User with ID " + IntToString(id) + " not found"))
    ensures StatusCode(x.result) == 500 ==> x.result == Status(500, Text(DeleteError))
    ensures StatusCode(x.result) == 200 ==> x.table == t - {id}
    ensures StatusCode(x.result) != 200 ==> x.table == t
  {
    InvalidUserIdMessage();
    var h := UsersController.DeleteUser(id, i => Delete(t, i, dbFails).outcome);
    Exchange(h.result, Effect(t, h.calls, dbFails, 0))
  }

  // The request/response examples the controller's behaviour is pinned to.

  lemma PostValidUser(t: Table, newId: int)
    requires newId > 0 && newId !in t
    ensures Post(t, Some(User(0, Some("John Doe"), 30)), false, newId).result == Ok(Text(UserCreated))
    ensures Post(t, Some(User(0, Some("Old John"), 150)), false, newId).result == Ok(Text(UserCreated))
  {
    assert !IsWhiteSpace("John Doe"[0]) && !IsWhiteSpace("Old John"[0]);
  }

  lemma PostEmptyName(t: Table, newId: int)
    requires newId > 0 && newId !in t
    ensures Post(t, Some(User(0, Some(""), 30)), false, newId).result
      == BadRequest(Text("Name cannot be null or empty (Parameter 'name')"))
  {
    NameRequiredMessage();
  }

  lemma PostAgeOutOfRange(t: Table, newId: int)
    requires newId > 0 && newId !in t
    ensures Post(t, Some(User(0, Some("Too Old John"), 151)), false, newId).result
      == BadRequest(Text("Age must be between 0 and 150 (Parameter 'age')"))
    ensures Post(t, Some(User(0, Some("Negative John"), -1)), false, newId).result
      == BadRequest(Text("Age must be between 0 and 150 (Parameter 'age')"))
  {
    assert !IsWhiteSpace("Too Old John"[0]) && !IsWhiteSpace("Negative John"[0]);
    AgeOutOfRangeMessage();
  }

  lemma PutMissingUser()
    ensures Put(map[], 999, Some(User(999, Some("John Doe"), 31)), false).result
      == NotFound(Text("User with ID 999 not found"))
  {
    assert !IsWhiteSpace("John Doe"[0]);
    assert IntToString(999) == "999";
    var m, expected := "User with ID " + IntToString(999) + " not found", "User with ID 999 not found";
    assert |m| == |expected|;
    forall i | 0 <= i < |m| ensures m[i] == expected[i] {}
    assert m == expected;
  }

  lemma DeleteIdZero(t: Table)
    ensures Remove(t, 0, false).result == BadRequest(Text("Invalid user ID (Parameter 'id')"))
  {
  }
}
