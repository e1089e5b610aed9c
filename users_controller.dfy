/**
 * UsersController: each action is a function of the route's id, the request
 * body and what the service call returns. The service operation is passed
 * in as a function; the action reports the service calls it made (none, or
 * exactly one) together with the result it returns, so that "rejected
 * without calling the service" is stated outright.
 */
module UsersController {
  import opened Wrappers
  import opened Exceptions
  import opened Models

  /** The value an action result carries. */
  datatype Body = Null | UserValue(user: User) | Text(text: string) | UserList(users: seq<User>)

  datatype ActionResult =
    | Ok(value: Body)               // OkObjectResult
    | BadRequest(value: Body)       // BadRequestObjectResult
    | NotFound(value: Body)         // NotFoundObjectResult
    | Status(code: int, value: Body) // ObjectResult built by StatusCode(code, value)

  function StatusCode(r: ActionResult): (code: int) {
    match r
    case Ok(_) => 200
    case BadRequest(_) => 400
    case NotFound(_) => 404
    case Status(code, _) => code
  }

  /** A call into the service, with its arguments. */
  datatype ServiceCall =
    | CreateUserCall(name: Option<string>, age: int)
    | GetAllUsersCall
    | UpdateUserCall(id: int, name: Option<string>, age: int)
    | DeleteUserCall(id: int)

  /** What an action did: the service calls it made, in order, and its result. */
  datatype Handled = Handled(calls: seq<ServiceCall>, result: ActionResult)

  const UserCreated := "User created successfully"
  const UserUpdated := "User updated successfully"
  const UserDeleted := "User deleted successfully"
  const CreateError := "An error occurred while creating the user"
  const FetchError := "An error occurred while fetching users"
  const UpdateError := "An error occurred while updating the user"
  const DeleteError := "An error occurred while deleting the user"

  /** The catch clauses that follow a service call, in order:
      `catch (ArgumentException)`, then `catch (KeyNotFoundException)` where
      the action has one, then `catch (Exception)` with a fixed message. */
  function Catch(e: Exn, catchesNotFound: bool, fallback: string): (r: ActionResult) {
    if IsA(e.kind, ArgumentException) then BadRequest(Text(e.Message()))
    else if catchesNotFound && IsA(e.kind, KeyNotFoundException) then NotFound(Text(e.Message()))
    else Status(500, Text(fallback))
  }

  /** POST: a missing body is a 400 with no service call; otherwise one call
      with the body's name and age, and its outcome decides 200, 400 or 500.
      There is no not-found clause, so a KeyNotFoundException would be a 500. */
  function CreateUser(user: Option<User>, createUser: (Option<string>, int) -> Outcome<()>): (h: Handled)
    ensures user.None? ==> h == Handled([], BadRequest(Null))
    ensures user.Some? ==> h.calls == [CreateUserCall(user.value.name, user.value.age)]
    ensures user.Some? ==>
      var o := createUser(user.value.name, user.value.age);
      && (StatusCode(h.result) == 200 <==> o.Returned?)
      && (o.Returned? ==> h.result == Ok(Text(UserCreated)))
      && (StatusCode(h.result) == 400 <==> o.Threw? && IsA(o.exn.kind, ArgumentException))
      && (StatusCode(h.result) == 400 ==> h.result == BadRequest(Text(o.exn.Message())))
      && (StatusCode(h.result) == 500 <==> o.Threw? && !IsA(o.exn.kind, ArgumentException))
      && (StatusCode(h.result) == 500 ==> h.result.value == Text(CreateError))
    ensures StatusCode(h.result) in {200, 400, 500}
  {
    match user
    case None => Handled([], BadRequest(Null))
    case Some(u) =>
      var calls := [CreateUserCall(u.name, u.age)];
      match createUser(u.name, u.age)
      case Returned(_) => Handled(calls, Ok(Text(UserCreated)))
      case Threw(e) => Handled(calls, Catch(e, false, CreateError))
  }

  /** GET: one call; the list the service returns is passed back unchanged.
      There is no ArgumentException clause: every exception is a 500. */
  function GetAllUsers(getAllUsers: () -> Outcome<seq<User>>): (h: Handled)
    ensures h.calls == [GetAllUsersCall]
    ensures getAllUsers().Returned? ==> h.result == Ok(UserList(getAllUsers().value))
    ensures getAllUsers().Threw? ==> h.result == Status(500, Text(FetchError))
  {
    match getAllUsers()
    case Returned(users) => Handled([GetAllUsersCall], Ok(UserList(users)))
    case Threw(_) => Handled([GetAllUsersCall], Status(500, Text(FetchError)))
  }

  /** PUT {id}: a missing body, or a body whose id differs from the route's,
      is a 400 with no service call; otherwise one call with the route's id
      and the body's name and age, whose outcome decides 200, 400, 404 or 500. */
  function UpdateUser(id: int, user: Option<User>, updateUser: (int, Option<string>, int) -> Outcome<()>): (h: Handled)
    ensures user.None? ==> h == Handled([], BadRequest(Null))
    ensures user.Some? && user.value.id != id ==> h == Handled([], BadRequest(UserValue(user.value)))
    ensures h.calls == [] <==> user.None? || user.value.id != id
    ensures user.Some? && user.value.id == id ==>
      var o := updateUser(id, user.value.name, user.value.age);
      && h.calls == [UpdateUserCall(id, user.value.name, user.value.age)]
      && (StatusCode(h.result) == 200 <==> o.Returned?)
      && (o.Returned? ==> h.result == Ok(Text(UserUpdated)))
      && (StatusCode(h.result) == 400 <==> o.Threw? && IsA(o.exn.kind, ArgumentException))
      && (StatusCode(h.result) == 400 ==> h.result == BadRequest(Text(o.exn.Message())))
      && (StatusCode(h.result) == 404 <==> o.Threw? && o.exn.kind == KeyNotFoundException)
      && (StatusCode(h.result) == 404 ==> h.result == NotFound(Text(o.exn.Message())))
      && (StatusCode(h.result) == 500 <==> o.Threw? && !IsA(o.exn.kind, ArgumentException) && o.exn.kind != KeyNotFoundException)
      && (StatusCode(h.result) == 500 ==> h.result.value == Text(UpdateError))
    ensures StatusCode(h.result) in {200, 400, 404, 500}
  {
    match user
    case None => Handled([], BadRequest(Null))
    case Some(u) =>
      if id != u.id then Handled([], BadRequest(UserValue(u)))
      else
        var calls := [UpdateUserCall(id, u.name, u.age)];
        match updateUser(id, u.name, u.age)
        case Returned(_) => Handled(calls, Ok(Text(UserUpdated)))
        case Threw(e) =>
          CatchClauses(e.kind);
          Handled(calls, Catch(e, true, UpdateError))
  }

  /** DELETE {id}: no checks of its own; always one call with the route's id. */
  function DeleteUser(id: int, deleteUser: int -> Outcome<()>): (h: Handled)
    ensures h.calls == [DeleteUserCall(id)]
    ensures
      var o := deleteUser(id);
      && (StatusCode(h.result) == 200 <==> o.Returned?)
      && (o.Returned? ==> h.result == Ok(Text(UserDeleted)))
      && (StatusCode(h.result) == 400 <==> o.Threw? && IsA(o.exn.kind, ArgumentException))
      && (StatusCode(h.result) == 400 ==> h.result == BadRequest(Text(o.exn.Message())))
      && (StatusCode(h.result) == 404 <==> o.Threw? && o.exn.kind == KeyNotFoundException)
      && (StatusCode(h.result) == 404 ==> h.result == NotFound(Text(o.exn.Message())))
      && (StatusCode(h.result) == 500 <==> o.Threw? && !IsA(o.exn.kind, ArgumentException) && o.exn.kind != KeyNotFoundException)
      && (StatusCode(h.result) == 500 ==> h.result.value == Text(DeleteError))
    ensures StatusCode(h.result) in {200, 400, 404, 500}
  {
    var calls := [DeleteUserCall(id)];
    match deleteUser(id)
    case Returned(_) => Handled(calls, Ok(Text(UserDeleted)))
    case Threw(e) =>
      CatchClauses(e.kind);
      Handled(calls, Catch(e, true, DeleteError))
  }

  /** An ArgumentOutOfRangeException from the service is caught by the
      ArgumentException clause: every action that has that clause answers 400
      with the exception's message. */
  lemma OutOfRangeIsBadRequest(e: Exn, id: int, user: User)
    requires e.kind == ArgumentOutOfRangeException
    ensures CreateUser(Some(user), (n, a) => Threw(e)).result == BadRequest(Text(e.Message()))
    ensures UpdateUser(user.id, Some(user), (i, n, a) => Threw(e)).result == BadRequest(Text(e.Message()))
    ensures DeleteUser(id, i => Threw(e)).result == BadRequest(Text(e.Message()))
  {
    CatchClauses(e.kind);
  }
}
