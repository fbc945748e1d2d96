/** The record shapes of the user API: the stored `User`, the body of a create
    request (`UserCreate`) and the body of an update request (`UserUpdate`),
    whose two fields are each optional. */
module Models {

  datatype Option<+T> = None | Some(value: T) {
    /** The carried value, or `default` when there is none. */
    function GetOr(default: T): T {
      match this
      case Some(v) => v
      case None => default
    }
  }

  /** A creation timestamp. The clock that produces it is outside the model:
      every operation that stamps a record receives the instant as an argument. */
  type Timestamp = int

  /** A stored user. The identifier is assigned by the store; it and the
      creation instant never change after creation. */
  datatype User = User(id: nat, name: string, email: string, createdAt: Timestamp)

  /** The body of a create request: both fields are required. */
  datatype UserCreate = UserCreate(name: string, email: string)

  /** The body of an update request: a field that is `None` is left alone. */
  datatype UserUpdate = UserUpdate(name: Option<string>, email: Option<string>)
}
