# CrudApp users API — a Dafny model

CrudApp is a small ASP.NET Core API over one `Users` table (`Id`, `Name`, `Age`).
`UserService` checks its arguments with guard clauses in a fixed order. It then runs one SQL
statement and, for update and delete, decides "not found" from a zero rows-affected count.
`UsersController` rejects malformed requests without calling the service. It maps each
exception the service throws to 200, 400, 404 or 500.

This project models both layers and proves what they promise:

- `wrappers.dfy` (`Wrappers`): `Option`, where `None` is C#'s `null`.
- `text.dfy` (`Text`): `char.IsWhiteSpace` and `string.IsNullOrWhiteSpace`. It also has the
  decimal text of an `int` that the not-found message interpolates, with a parser that
  proves the text reads back as the same number.
- `exceptions.dfy` (`Exceptions`): the .NET exception classes involved and their subclass
  relation (`IsA`). `ArgumentOutOfRangeException` derives from `ArgumentException`, so
  `catch (ArgumentException)` takes it. `Exn.Message()` adds .NET's ` (Parameter 'x')`
  suffix to argument exceptions.
- `models.dfy` (`Models`): the `User` record; its name may be null.
- `user_service.dfy` (`Services`):
  - The table is a `map<int, Row>` held in the `users` field of class `UserService`.
  - The class has one method per service operation and one per SQL statement. The
    statement methods report rows affected.
  - Each operation method is proved equal to a specification function over the table
    (`Create`, `Update`, `Delete`, and the `ListsTable` relation for `GetAllUsers`).
  - The lemmas about the operations are proved on those functions.
  - Whether the storage call throws a `SqlException` is a parameter, `dbFails`. A failed
    statement changes nothing. It surfaces as a plain `System.Exception` with a fixed
    message.
- `users_controller.dfy` (`UsersController`):
  - Each action is a pure function of the route id, the body and the service operation,
    which is passed in as a function.
  - Each action returns the service calls it made (none or exactly one) and its
    `ActionResult`.
- `pipeline.dfy` (`Pipeline`):
  - Composes each controller action with the service specification over a table.
  - Gives, for every request, the status code and the table afterwards.
  - Includes the request/response examples that the controller tests pin down.

## Model

| member | source | states |
|---|---|---|
| `Services.CreateGuard` | CrudApp/Services/UserService.cs:19-23 | Accepts exactly a non-null, non-blank name with an age in [0,150], both ends included. A null/blank name fails with the name ArgumentException whatever the age. Only a good name lets a bad age fail, with ArgumentOutOfRangeException. Every failure is an ArgumentException. |
| `Services.UpdateGuard` | CrudApp/Services/UserService.cs:80-85 | The id is checked first: id <= 0 gives "Invalid user ID" whatever the name and age. With id > 0 it delegates to CreateGuard, so the name is checked before the age. Passes iff id > 0 and the row would be valid. |
| `Services.Create` | CrudApp/Services/UserService.cs:17-43 | Succeeds iff the guards pass and storage does not fail. A guard failure throws that guard's exception; a storage failure throws the fixed database error. Any failure leaves the table unchanged. Success adds exactly one row with the given name and age under the storage-assigned fresh id, so the row count grows by one. Keeps every row valid. |
| `Services.Update` | CrudApp/Services/UserService.cs:78-108 | The set of ids never changes and rows with other ids are untouched. Succeeds iff guards pass, storage does not fail and the id has a row. Success sets that row's name and age. KeyNotFoundException with "User with ID {id} not found" happens exactly when guards pass, storage works and no row has the id. Any failure leaves the table unchanged. Keeps every row valid. |
| `Services.Delete` | CrudApp/Services/UserService.cs:110-134 | id <= 0 throws "Invalid user ID" before storage is touched. Succeeds iff id > 0, storage works and the row exists; it then removes exactly that row (count drops by one). Not-found exactly when id > 0, storage works and no row has the id. Afterwards the id is gone unless the call failed. Any failure changes nothing. |
| `Services.DeleteTwiceNotFound` | CrudApp/Services/UserService.cs:120-126 | After a successful delete, deleting the same id again throws KeyNotFoundException with that id's message; it is not a silent success. |
| `Services.NameRequiredMessage` | CrudApp/Services/UserService.cs:19-20 | The name guard's Message is "Name cannot be null or empty (Parameter 'name')". |
| `Services.AgeOutOfRangeMessage` | CrudApp/Services/UserService.cs:22-23 | The age guard's Message is "Age must be between 0 and 150 (Parameter 'age')". The parameter name is the constructor's first argument. |
| `Services.InvalidUserIdMessage` | CrudApp/Services/UserService.cs:112-113 | The id guard's Message is "Invalid user ID (Parameter 'id')". |
| `Services.ListsCount` | CrudApp/Services/UserService.cs:58-66 | A listing that holds every row once, with matching Id/Name/Age, has exactly as many users as the table has rows. |
| `Services.ListsEmptyTable` | CrudApp/Services/UserService.cs:47-75 | An empty table is listed as the empty list, not an error. |
| `Services.CreateAllCount` | CrudApp/Services/UserService.cs:30-35 | N successive creates of valid rows, with fresh storage ids, add exactly N rows. |
| `Services.ListAfterCreates` | CrudApp/Services/UserService.cs:17-76 | Starting from an empty table, listing after N successful creates yields exactly N users. |
| `Services.FreshIdExists` | CrudApp/Services/UserService.cs:30-35 | However many rows the table has, an unused positive id exists for the insert to take. |
| `Services.MatchingCount` | CrudApp/Services/UserService.cs:98-99 | A statement keyed on the primary key affects one row if the id exists and none otherwise. So "rows affected == 0" decides not-found exactly. |
| `Services.UserService.constructor` | CrudApp/Services/UserService.cs:10-15 | The service attaches to the table as it is. |
| `Services.UserService.ExecuteInsert` | CrudApp/Services/UserService.cs:30-35 | The INSERT adds one row under some positive id that was unused, and changes nothing else. |
| `Services.UserService.ExecuteUpdate` | CrudApp/Services/UserService.cs:92-98 | The UPDATE rewrites the row whose Id matches, leaves the other rows alone, and reports how many rows matched. |
| `Services.UserService.ExecuteDelete` | CrudApp/Services/UserService.cs:120-124 | The DELETE removes the rows whose Id matches, keeps the others, and reports how many rows matched. |
| `Services.UserService.CreateUser` | CrudApp/Services/UserService.cs:17-43 | The method's outcome and the new table are those of `Create` for some fresh positive id. Guards run before any storage access. |
| `Services.UserService.GetAllUsers` | CrudApp/Services/UserService.cs:45-76 | Does not change the table. On a storage failure it throws the fixed "fetching users" database error. Otherwise it returns a list with one User per row, each with that row's Id, Name and Age, in storage order. |
| `Services.UserService.UpdateUser` | CrudApp/Services/UserService.cs:78-108 | Outcome and new table are exactly `Update`'s. The not-found decision is taken from the UPDATE's rows-affected count. |
| `Services.UserService.DeleteUser` | CrudApp/Services/UserService.cs:110-134 | Outcome and new table are exactly `Delete`'s. The not-found decision is taken from the DELETE's rows-affected count. |
| `Text.NotBlankHasVisibleChar` | CrudApp/Services/UserService.cs:19-20 | A name that passes the guard is non-empty and contains a character that is not white space. |
| `Text.IntToStringRoundTrip` | CrudApp/Services/UserService.cs:99-100 | The id's text in the not-found message reads back as the same id. |
| `Text.IntToStringInjective` | CrudApp/Services/UserService.cs:125-126 | Distinct ids give distinct decimal texts. |
| `Services.UserNotFoundInjective` | CrudApp/Services/UserService.cs:99-100 | Distinct ids give distinct not-found messages: the id's text is recovered from between the fixed prefix and suffix. |
| `Exceptions.CatchClauses` | CrudApp/Controllers/UsersController.cs:64-75 | `catch (ArgumentException)` takes exactly ArgumentException and ArgumentOutOfRangeException. `catch (KeyNotFoundException)` takes exactly KeyNotFoundException. No exception matches both, so their order cannot change a response. |
| `Exceptions.EveryTypeIsException` | CrudApp/Controllers/UsersController.cs:31-34 | Every exception type derives from System.Exception, so the last clause catches whatever the earlier ones did not. |
| `UsersController.CreateUser` | CrudApp/Controllers/UsersController.cs:17-35 | A null body gives BadRequest(null) with no service call. Otherwise exactly one call with the body's name and age. 200 "User created successfully" iff it returns. 400 with the exception's Message iff it throws an ArgumentException, including the out-of-range subclass. 500 with the fixed message iff it throws anything else, KeyNotFoundException included. |
| `UsersController.GetAllUsers` | CrudApp/Controllers/UsersController.cs:38-48 | Exactly one call. Ok carrying exactly the service's list; any exception gives 500 "An error occurred while fetching users". |
| `UsersController.UpdateUser` | CrudApp/Controllers/UsersController.cs:51-76 | A null body, or a body id different from the route id, gives 400 with no service call. Otherwise exactly one call with the route id and the body's name and age. The outcome decides 200 / 400 (argument exceptions, with Message) / 404 (KeyNotFoundException, with Message) / 500 (fixed text, cause not echoed). |
| `UsersController.DeleteUser` | CrudApp/Controllers/UsersController.cs:79-98 | No checks of its own: always exactly one call with the route id. The outcome decides 200 / 400 / 404 / 500 as for update. |
| `UsersController.OutOfRangeIsBadRequest` | CrudApp/Controllers/UsersController.cs:27-29 | An ArgumentOutOfRangeException from the service becomes BadRequest with its message in create, update and delete. |
| `Pipeline.Post` | CrudApp/Controllers/UsersController.cs:17-35 | Against a table: 200 iff the body is present, the name is non-blank, the age is in [0,150] and storage works. 400 iff the body is missing or a guard fails, carrying the guard's Message. 500 "An error occurred while creating the user" iff the input is valid and storage fails. 200 carries "User created successfully". Only a 200 changes the table, by adding the one row. Rows stay valid. |
| `Pipeline.Get` | CrudApp/Controllers/UsersController.cs:38-48 | Against a table: Ok with the listing, which has as many users as the table has rows, or 500 on a storage failure. The table is unchanged. |
| `Pipeline.Put` | CrudApp/Controllers/UsersController.cs:51-76 | Against a table: 200 iff shapes match, guards pass, storage works and the row exists. 400 iff the body is missing, the ids differ or a guard fails. 404 "User with ID {id} not found" iff the input is valid, storage works and the row is missing. 500 "An error occurred while updating the user" iff the input is valid and storage fails. The 400 body is `null` for a missing body, the body itself for an id mismatch, and the guard's message for a guard failure. 200 carries "User updated successfully". Only a 200 changes the table (that one row). The ids never change. |
| `Pipeline.Remove` | CrudApp/Controllers/UsersController.cs:79-98 | Against a table: 200 iff id > 0, storage works and the row exists; 400 "Invalid user ID (Parameter 'id')" iff id <= 0; 404 "User with ID {id} not found" iff the row is missing; 500 "An error occurred while deleting the user" iff storage fails; 200 carries "User deleted successfully". Only a 200 changes the table (that row removed). |
| `Pipeline.PostValidUser` | CrudTest/UsersServiceTest.cs:258-269 | POST {John Doe, 30} and {Old John, 150} give 200 "User created successfully" when storage works. |
| `Pipeline.PostEmptyName` | CrudTest/UsersServiceTest.cs:34-46 | POST with an empty name gives 400 "Name cannot be null or empty (Parameter 'name')". |
| `Pipeline.PostAgeOutOfRange` | CrudTest/UsersServiceTest.cs:271-299 | POST {Too Old John, 151} and {Negative John, -1} give 400 "Age must be between 0 and 150 (Parameter 'age')". |
| `Pipeline.PutMissingUser` | CrudTest/UsersServiceTest.cs:128-140 | PUT /users/999 with body {999, John Doe, 31} on a table without row 999 gives 404 "User with ID 999 not found". |
| `Pipeline.DeleteIdZero` | CrudTest/UsersServiceTest.cs:156-167 | DELETE /users/0 gives 400 "Invalid user ID (Parameter 'id')". |

## Behaviour of the code worth noting

- `CreateUser` in the controller has no `KeyNotFoundException` clause, so a not-found there
  would be a 500, not a 404 (CrudApp/Controllers/UsersController.cs:27-34).
- `GetAllUsers` in the controller has no `ArgumentException` clause, so every failure there is
  a 500 (CrudApp/Controllers/UsersController.cs:44-47).
- A blank name is one made only of white space, as `string.IsNullOrWhiteSpace` tests. Being
  merely non-empty is not enough (CrudApp/Services/UserService.cs:19).
- Update and delete detect a missing row from the statement's rows-affected count. There is
  no separate existence check (CrudApp/Services/UserService.cs:98-100, 124-126).
- A missing body gives `BadRequest` carrying `null`, not a message
  (CrudApp/Controllers/UsersController.cs:21-22).

## Left out

- SqlClient plumbing: connections, commands, query text, parameter binding and the data
  reader. Each statement is modelled as its effect on the map and its rows-affected count.
- `SqlException` causes, and the inner exception that the service's `System.Exception` wraps.
  A storage failure is only a `dbFails` flag per call. The flag acts before the statement,
  and a failing statement has no effect. A failure halfway through reading rows is modelled
  as a failure of the whole call.
- Loading the connection string from `IConfiguration` in the service constructor, and its
  `ArgumentNullException`. This is configuration I/O.
- ASP.NET attributes, routing, model binding and JSON serialisation. The route id and the
  optional body are parameters.
- The id-assignment policy of the storage engine: an insert takes some unused positive id.
- The order in which the storage returns rows: any order is allowed.
- Concurrent requests on the same row. No in-process coordination exists.
- 32-bit `int` ranges of ids and ages. The code only compares them and never does arithmetic
  on them, so no wrap-around arises.
- `IUserService` is not modelled as a type. The controller receives each service operation
  as a function parameter.
- The Moq test harness. The tests' assertions appear only as the scenario lemmas.
- `char.IsWhiteSpace` is the documented fixed character list. Changes between Unicode versions
  are not tracked.
- `Services.Row` and `Services.UserService.GetAllUsers`: a NULL `Name` or `Age` column cannot
  be represented, because `Row.name` is a plain string and `Row.age` a plain int. In the code,
  `reader.GetString(1)` and `reader.GetInt32(2)` throw `SqlNullValueException` on a NULL column
  (CrudApp/Services/UserService.cs:63-64). That exception is not a `SqlException`, so it leaves
  the service unwrapped instead of as the fixed "Database error ..." exception. The same holds
  for a failure of `connection.Open()` that is not a `SqlException` (lines 29, 52, 91 and 119).
  The model gives every storage failure as the wrapped exception, and `Exceptions.ExceptionType`
  has no kind for these other exceptions. The HTTP response is the same either way, because the
  controller's `catch (Exception)` answers 500 with its fixed text.
- Culture-specific integer formatting: the invariant culture's digits and minus sign are used.
