/**
 * UserService: argument guards in a fixed order, then one statement against
 * the Users table. The table is a map from Id to the row's (Name, Age); the
 * SQL plumbing around each statement is abstracted to the statement's effect
 * on that map and the row count it reports. Whether the storage call fails
 * (a SqlException) is a parameter, `dbFails`: a failed statement changes
 * nothing and surfaces as a plain System.Exception with a fixed message.
 */
module Services {
  import opened Wrappers
  import opened Text
  import opened Exceptions
  import opened Models

  datatype Row = Row(name: string, age: int)

  /** The Users table: Id (primary key) to the rest of the row. */
  type Table = map<int, Row>

  /** The result of one service call and the table it leaves behind. */
  datatype Step<+T> = Step(outcome: Outcome<T>, table: Table)

  const MinAge := 0
  const MaxAge := 150

  // The exceptions the guards and the statements throw.
  const NameRequired := Exn(ArgumentException, "Name cannot be null or empty", Some("name"))
  // ArgumentOutOfRangeException(paramName, message): the parameter name comes first.
  const AgeOutOfRange := Exn(ArgumentOutOfRangeException, "Age must be between 0 and 150", Some("age"))
  const InvalidUserId := Exn(ArgumentException, "Invalid user ID", Some("id"))
  const CreateFailed := Exn(Exception, "Database error occurred while creating user", None)
  const FetchFailed := Exn(Exception, "Database error occurred while fetching users", None)
  const UpdateFailed := Exn(Exception, "Database error occurred while updating user", None)
  const DeleteFailed := Exn(Exception, "Database error occurred while deleting user", None)

  function UserNotFound(id: int): (e: Exn) {
    Exn(KeyNotFoundException, "User with ID " + IntToString(id) + " not found", None)
  }

  /** Distinct ids give distinct not-found messages: the id's text is what
      lies between the fixed prefix and suffix. */
  lemma UserNotFoundInjective(m: int, n: int)
    ensures m != n ==> UserNotFound(m).Message() != UserNotFound(n).Message()
  {
    IntToStringInjective(m, n);
    var p, q := "User with ID ", " not found";
    var a, b := IntToString(m), IntToString(n);
    if p + a + q == p + b + q {
      var s := p + a + q;
      assert |a| == |b|;
      assert a == s[|p|..|p| + |a|];
      assert b == s[|p|..|p| + |b|];
    }
  }

  /** The messages of the guard exceptions, as a 400 response carries them. */
  lemma NameRequiredMessage()
    ensures NameRequired.Message() == "Name cannot be null or empty (Parameter 'name')"
  {
    var m, expected := NameRequired.Message(), "Name cannot be null or empty (Parameter 'name')";
    assert m == "Name cannot be null or empty" + " (Parameter '" + "name" + "')";
    assert |m| == |expected|;
    forall i | 0 <= i < |m| ensures m[i] == expected[i] {}
  }

  lemma AgeOutOfRangeMessage()
    ensures AgeOutOfRange.Message() == "Age must be between 0 and 150 (Parameter 'age')"
  {
    assert IsA(ArgumentOutOfRangeException, ArgumentException);
    var m, expected := AgeOutOfRange.Message(), "Age must be between 0 and 150 (Parameter 'age')";
    assert m == "Age must be between 0 and 150" + " (Parameter '" + "age" + "')";
    assert |m| == |expected|;
    forall i | 0 <= i < |m| ensures m[i] == expected[i] {}
  }

  lemma InvalidUserIdMessage()
    ensures InvalidUserId.Message() == "Invalid user ID (Parameter 'id')"
  {
    var m, expected := InvalidUserId.Message(), "Invalid user ID (Parameter 'id')";
    assert m == "Invalid user ID" + " (Parameter '" + "id" + "')";
    assert |m| == |expected|;
    forall i | 0 <= i < |m| ensures m[i] == expected[i] {}
  }

  predicate AgeInRange(age: int) {
    MinAge <= age <= MaxAge
  }

  /** What every row written through the service satisfies. */
  predicate ValidRow(r: Row) {
    !IsNullOrWhiteSpace(Some(r.name)) && AgeInRange(r.age)
  }

  predicate RowsValid(t: Table) {
    forall id :: id in t ==> ValidRow(t[id])
  }

  /** The guards of CreateUser: the name is checked before the age. */
  function CreateGuard(name: Option<string>, age: int): (e: Option<Exn>)
    ensures e.None? <==> name.Some? && ValidRow(Row(name.value, age))
    ensures e.Some? ==> IsA(e.value.kind, ArgumentException)
    ensures IsNullOrWhiteSpace(name) ==> e == Some(NameRequired)
    ensures !IsNullOrWhiteSpace(name) && !AgeInRange(age) ==> e == Some(AgeOutOfRange)
  {
    if IsNullOrWhiteSpace(name) then Some(NameRequired)
    else if age < MinAge || age > MaxAge then Some(AgeOutOfRange)
    else None
  }

  /** The guards of UpdateUser: the id first, then CreateUser's guards in their order. */
  function UpdateGuard(id: int, name: Option<string>, age: int): (e: Option<Exn>)
    ensures id <= 0 ==> e == Some(InvalidUserId)
    ensures id > 0 ==> e == CreateGuard(name, age)
    ensures id > 0 && IsNullOrWhiteSpace(name) ==> e == Some(NameRequired)
    ensures id > 0 && !IsNullOrWhiteSpace(name) && !AgeInRange(age) ==> e == Some(AgeOutOfRange)
    ensures e.None? <==> id > 0 && name.Some? && ValidRow(Row(name.value, age))
    ensures e.Some? ==> IsA(e.value.kind, ArgumentException)
  {
    if id <= 0 then Some(InvalidUserId) else CreateGuard(name, age)
  }

  /** CreateUser, given the unused id the storage engine assigns to the new row. */
  function Create(t: Table, name: Option<string>, age: int, dbFails: bool, newId: int): (s: Step<()>)
    requires newId > 0 && newId !in t
    ensures s.outcome.Returned? <==> CreateGuard(name, age).None? && !dbFails
    ensures s.outcome.Threw? ==> s.table == t
    ensures CreateGuard(name, age).Some? ==> s.outcome == Threw(CreateGuard(name, age).value)
    ensures CreateGuard(name, age).None? && dbFails ==> s.outcome == Threw(CreateFailed)
    ensures s.outcome.Returned? ==> name.Some? && s.table == t[newId := Row(name.value, age)]
    ensures |s.table| == if s.outcome.Returned? then |t| + 1 else |t|
    ensures RowsValid(t) ==> RowsValid(s.table)
  {
    match CreateGuard(name, age)
    case Some(e) => Step(Threw(e), t)
    case None =>
      if dbFails then Step(Threw(CreateFailed), t)
      else Step(Returned(()), t[newId := Row(name.value, age)])
  }

  /** UpdateUser: overwrite Name and Age of the row with that id, if there is one. */
  function Update(t: Table, id: int, name: Option<string>, age: int, dbFails: bool): (s: Step<()>)
    ensures s.table.Keys == t.Keys
    ensures forall k :: k in t && k != id ==> s.table[k] == t[k]
    ensures s.outcome.Returned? <==> UpdateGuard(id, name, age).None? && !dbFails && id in t
    ensures s.outcome == Threw(UserNotFound(id)) <==> UpdateGuard(id, name, age).None? && !dbFails && id !in t
    ensures UpdateGuard(id, name, age).Some? ==> s.outcome == Threw(UpdateGuard(id, name, age).value)
    ensures UpdateGuard(id, name, age).None? && dbFails ==> s.outcome == Threw(UpdateFailed)
    ensures s.outcome.Returned? ==> name.Some? && s.table == t[id := Row(name.value, age)]
    ensures s.outcome.Threw? ==> s.table == t
    ensures RowsValid(t) ==> RowsValid(s.table)
  {
    match UpdateGuard(id, name, age)
    case Some(e) => Step(Threw(e), t)
    case None =>
      if dbFails then Step(Threw(UpdateFailed), t)
      else if id in t then Step(Returned(()), t[id := Row(name.value, age)])
      else Step(Threw(UserNotFound(id)), t)
  }

  /** DeleteUser: remove the row with that id, if there is one. */
  function Delete(t: Table, id: int, dbFails: bool): (s: Step<()>)
    ensures s.outcome.Returned? <==> id > 0 && !dbFails && id in t
    ensures s.outcome == Threw(UserNotFound(id)) <==> id > 0 && !dbFails && id !in t
    ensures id <= 0 ==> s.outcome == Threw(InvalidUserId)
    ensures id > 0 && dbFails ==> s.outcome == Threw(DeleteFailed)
    ensures s.outcome.Returned? ==> s.table == t - {id} && |s.table| == |t| - 1
    ensures s.outcome.Threw? ==> s.table == t
    ensures id !in s.table || s.outcome.Threw?
    ensures RowsValid(t) ==> RowsValid(s.table)
  {
    if id <= 0 then Step(Threw(InvalidUserId), t)
    else if dbFails then Step(Threw(DeleteFailed), t)
    else if id in t then Step(Returned(()), t - {id})
    else Step(Threw(UserNotFound(id)), t)
  }

  /** A second DeleteUser of an id the first one removed is a not-found,
      not a silent success. */
  lemma DeleteTwiceNotFound(t: Table, id: int, dbFails: bool)
    requires Delete(t, id, dbFails).outcome.Returned?
    ensures Delete(Delete(t, id, dbFails).table, id, false).outcome == Threw(UserNotFound(id))
  {
  }

  /** The User that GetAllUsers builds from one row. */
  function UserOf(id: int, r: Row): (u: User) {
    User(id, Some(r.name), r.age)
  }

  /** `us` lists the table: one User per row, with that row's Id, Name and Age,
      in whatever order the storage returns the rows. */
  ghost predicate ListsTable(us: seq<User>, t: Table) {
    && (forall i :: 0 <= i < |us| ==> us[i].id in t && us[i] == UserOf(us[i].id, t[us[i].id]))
    && (forall i, j :: 0 <= i < j < |us| ==> us[i].id != us[j].id)
    && (forall id :: id in t ==> exists i :: 0 <= i < |us| && us[i].id == id)
  }

  function Ids(us: seq<User>): (ids: set<int>) {
    set i | 0 <= i < |us| :: us[i].id
  }

  lemma {:induction false} DistinctIdsCount(us: seq<User>)
    requires forall i, j :: 0 <= i < j < |us| ==> us[i].id != us[j].id
    ensures |Ids(us)| == |us|
    decreases |us|
  {
    if us != [] {
      var init := us[..|us| - 1];
      DistinctIdsCount(init);
      assert Ids(us) == Ids(init) + {us[|us| - 1].id};
      assert us[|us| - 1].id !in Ids(init);
    }
  }

  /** A listing has exactly as many users as the table has rows. */
  lemma ListsCount(us: seq<User>, t: Table)
    requires ListsTable(us, t)
    ensures |us| == |t|
  {
    DistinctIdsCount(us);
    forall id | id in t ensures id in Ids(us) {
      var i :| 0 <= i < |us| && us[i].id == id;
    }
    assert Ids(us) == t.Keys;
  }

  /** An empty table is listed as an empty list. */
  lemma ListsEmptyTable(us: seq<User>)
    requires ListsTable(us, map[])
    ensures us == []
  {
    ListsCount(us, map[]);
  }

  /** Ids that the storage engine can hand out one after another: positive,
      unused in `t`, and pairwise distinct. */
  ghost predicate FreshIds(t: Table, ids: seq<int>) {
    && (forall i :: 0 <= i < |ids| ==> ids[i] > 0 && ids[i] !in t)
    && (forall i, j :: 0 <= i < j < |ids| ==> ids[i] != ids[j])
  }

  /** The table after one CreateUser per row, in order, with storage ids `ids`. */
  ghost function CreateAll(t: Table, rows: seq<Row>, ids: seq<int>): (result: Table)
    requires |ids| == |rows| && FreshIds(t, ids)
    decreases |rows|
  {
    if rows == [] then t
    else
      var t' := Create(t, Some(rows[0].name), rows[0].age, false, ids[0]).table;
      assert FreshIds(t', ids[1..]) by {
        forall i | 0 <= i < |ids[1..]| ensures ids[1..][i] !in t' {
          assert ids[1..][i] == ids[i + 1];
        }
      }
      CreateAll(t', rows[1..], ids[1..])
  }

  /** N successful creates add exactly N rows. */
  lemma {:induction false} CreateAllCount(t: Table, rows: seq<Row>, ids: seq<int>)
    requires |ids| == |rows| && FreshIds(t, ids)
    requires forall i :: 0 <= i < |rows| ==> ValidRow(rows[i])
    ensures |CreateAll(t, rows, ids)| == |t| + |rows|
    decreases |rows|
  {
    if rows != [] {
      var t' := Create(t, Some(rows[0].name), rows[0].age, false, ids[0]).table;
      assert FreshIds(t', ids[1..]) by {
        forall i | 0 <= i < |ids[1..]| ensures ids[1..][i] !in t' {
          assert ids[1..][i] == ids[i + 1];
        }
      }
      CreateAllCount(t', rows[1..], ids[1..]);
    }
  }

  /** Listing after N successful creates on an empty table gives N users. */
  lemma ListAfterCreates(rows: seq<Row>, ids: seq<int>, us: seq<User>)
    requires |ids| == |rows| && FreshIds(map[], ids)
    requires forall i :: 0 <= i < |rows| ==> ValidRow(rows[i])
    requires ListsTable(us, CreateAll(map[], rows, ids))
    ensures |us| == |rows|
  {
    CreateAllCount(map[], rows, ids);
    ListsCount(us, CreateAll(map[], rows, ids));
  }

  lemma NonEmptyHasMember(s: set<int>)
    requires s != {}
    ensures exists x :: x in s
  {
    if forall x :: x !in s {
      assert false;
    }
  }

  /** A strict upper bound of a finite set of ids. */
  ghost function UpperBound(ids: set<int>): (b: int)
    ensures b > 0 && forall k :: k in ids ==> k < b
    decreases ids
  {
    if ids == {} then 1
    else
      NonEmptyHasMember(ids);
      var k :| k in ids;
      var b := UpperBound(ids - {k});
      assert forall x :: x in ids ==> x == k || x in ids - {k};
      if k < b then b else k + 1
  }

  /** However many rows there are, an unused positive id exists. */
  lemma FreshIdExists(t: Table)
    ensures exists id :: id > 0 && id !in t
  {
    var b := UpperBound(t.Keys);
    assert b !in t;
  }

  /** The rows an `... WHERE Id = @Id` statement matches. */
  function Matching(t: Table, id: int): (ks: set<int>) {
    set k | k in t && k == id
  }

  /** The id is the primary key: a statement keyed on it matches one row or none. */
  lemma MatchingCount(t: Table, id: int)
    ensures |Matching(t, id)| == if id in t then 1 else 0
  {
    if id in t {
      assert Matching(t, id) == {id};
    } else {
      assert Matching(t, id) == {};
    }
  }

  class UserService {
    /** The Users table as the storage holds it. */
    var users: Table

    /** Attaches to the table as it is; the connection string is configuration. */
    constructor (rows: Table)
      ensures users == rows
    {
      users := rows;
    }

    /** `INSERT INTO Users (Name, Age) VALUES (@Name, @Age)`: the storage
        engine picks the new row's id. */
    method ExecuteInsert(row: Row)
      modifies this
      ensures exists id :: id > 0 && id !in old(users) && users == old(users)[id := row]
    {
      FreshIdExists(users);
      var id :| id > 0 && id !in users;
      users := users[id := row];
    }

    /** `UPDATE Users SET Name = @Name, Age = @Age WHERE Id = @Id`. */
    method ExecuteUpdate(id: int, row: Row) returns (rowsAffected: nat)
      modifies this
      ensures rowsAffected == |Matching(old(users), id)|
      ensures users == map k | k in old(users) :: if k == id then row else old(users)[k]
    {
      rowsAffected := |Matching(users, id)|;
      users := map k | k in users :: if k == id then row else users[k];
    }

    /** `DELETE FROM Users WHERE Id = @Id`. */
    method ExecuteDelete(id: int) returns (rowsAffected: nat)
      modifies this
      ensures rowsAffected == |Matching(old(users), id)|
      ensures users == map k | k in old(users) && k != id :: old(users)[k]
    {
      rowsAffected := |Matching(users, id)|;
      users := map k | k in users && k != id :: users[k];
    }

    method CreateUser(name: Option<string>, age: int, dbFails: bool) returns (r: Outcome<()>)
      modifies this
      ensures exists id :: id > 0 && id !in old(users) && Step(r, users) == Create(old(users), name, age, dbFails, id)
    {
      FreshIdExists(users);
      ghost var unused :| unused > 0 && unused !in users;
      if IsNullOrWhiteSpace(name) {
        r := Threw(NameRequired);
        assert Step(r, users) == Create(old(users), name, age, dbFails, unused);
        return;
      }
      if age < MinAge || age > MaxAge {
        r := Threw(AgeOutOfRange);
        assert Step(r, users) == Create(old(users), name, age, dbFails, unused);
        return;
      }
      if dbFails {
        r := Threw(CreateFailed);
        assert Step(r, users) == Create(old(users), name, age, dbFails, unused);
        return;
      }
      ExecuteInsert(Row(name.value, age));
      r := Returned(());
      ghost var id :| id > 0 && id !in old(users) && users == old(users)[id := Row(name.value, age)];
      assert Step(r, users) == Create(old(users), name, age, dbFails, id);
    }

    /** `SELECT * FROM Users`, read row by row into a list. */
    method GetAllUsers(dbFails: bool) returns (r: Outcome<seq<User>>)
      ensures dbFails ==> r == Threw(FetchFailed)
      ensures !dbFails ==> r.Returned? && ListsTable(r.value, users)
    {
      if dbFails {
        return Threw(FetchFailed);
      }
      var list: seq<User> := [];
      var unread := users.Keys;
      while unread != {}
        invariant unread <= users.Keys
        invariant forall i :: 0 <= i < |list| ==> list[i].id in users && list[i].id !in unread
        invariant forall i :: 0 <= i < |list| ==> list[i] == UserOf(list[i].id, users[list[i].id])
        invariant forall i, j :: 0 <= i < j < |list| ==> list[i].id != list[j].id
        invariant forall id :: id in users && id !in unread ==> exists i :: 0 <= i < |list| && list[i].id == id
        decreases unread
      {
        NonEmptyHasMember(unread);
        var id :| id in unread;
        ghost var before := list;
        list := list + [UserOf(id, users[id])];
        unread := unread - {id};
        forall x | x in users && x !in unread
          ensures exists i :: 0 <= i < |list| && list[i].id == x
        {
          if x == id {
            assert list[|list| - 1].id == x;
          } else {
            var i :| 0 <= i < |before| && before[i].id == x;
            assert list[i].id == x;
          }
        }
      }
      r := Returned(list);
    }

    method UpdateUser(id: int, name: Option<string>, age: int, dbFails: bool) returns (r: Outcome<()>)
      modifies this
      ensures Step(r, users) == Update(old(users), id, name, age, dbFails)
    {
      if id <= 0 {
        return Threw(InvalidUserId);
      }
      if IsNullOrWhiteSpace(name) {
        return Threw(NameRequired);
      }
      if age < MinAge || age > MaxAge {
        return Threw(AgeOutOfRange);
      }
      if dbFails {
        return Threw(UpdateFailed);
      }
      MatchingCount(users, id);
      var rowsAffected := ExecuteUpdate(id, Row(name.value, age));
      if rowsAffected == 0 {
        assert users == old(users);
        return Threw(UserNotFound(id));
      }
      assert users == old(users)[id := Row(name.value, age)];
      r := Returned(());
    }

    method DeleteUser(id: int, dbFails: bool) returns (r: Outcome<()>)
      modifies this
      ensures Step(r, users) == Delete(old(users), id, dbFails)
    {
      if id <= 0 {
        return Threw(InvalidUserId);
      }
      if dbFails {
        return Threw(DeleteFailed);
      }
      MatchingCount(users, id);
      var rowsAffected := ExecuteDelete(id);
      if rowsAffected == 0 {
        assert users == old(users);
        return Threw(UserNotFound(id));
      }
      assert users == old(users) - {id};
      r := Returned(());
    }
  }
}
