/** The User entity, the exceptions the core throws and the store calls it makes. */
module Users {
  import opened Wrappers

  /** One row of the users table. An id of 0 means "not yet persisted";
      the store assigns a non-zero id when it persists the row. */
  datatype User = User(id: int, name: string, email: string, age: int)

  /** The Java exceptions the core throws. `message` is the text the core
      gives the exception, or None when it gives none (or the text comes
      from the persistence library and is not modelled). */
  datatype Exception =
    | NullPointer(message: Option<string>)
    | IllegalArgument(message: Option<string>)
    | NoSuchElement(message: Option<string>)
    | EntityExists

  /** One invocation of a store operation with its argument (None is Java's null).
      A store records each call it receives, so that a contract can say which
      store operations a service call made, and how often. */
  datatype Call =
    | SaveCall(user: Option<User>)
    | ReadByIdCall(id: int)
    | ReadByEmailCall(email: Option<string>)
    | ReadAllCall
    | UpdateCall(user: Option<User>)
    | DeleteCall(id: int)
}
