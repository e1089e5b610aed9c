/** The User record exchanged between the controller, the service and the table. */
module Models {
  import opened Wrappers

  /** `Name` is a reference in C#: a request body may carry a null name. */
  datatype User = User(id: int, name: Option<string>, age: int)
}
