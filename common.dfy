/** Result wrappers, the exception classes the handlers raise, and JavaScript truthiness. */
module Common {

  datatype Option<+T> = None | Some(value: T)

  /** A value or the exception that a service call throws. */
  datatype Result<+R, +E> = Success(value: R) | Failure(error: E)

  /** Completion of a call that returns nothing, or the exception it throws. */
  datatype Outcome<+E> = Pass | Fail(error: E)

  /** The exceptions raised by the services and routers, by their class and message key
      (`None` when the class's default message is used). `NullDereference` is the
      TypeError of assigning a property on `null`; `NoSuchFile` is the rejection of
      `fs.promises.unlink` on a path that does not exist. */
  datatype Exception =
    | AuthenticationException(message: Option<string>)
    | ForbiddenException(message: Option<string>)
    | NotFoundException(key: string)
    | ValidationException
    | NullDereference
    | NoSuchFile(filename: string)

  /** The `{ id }` object that token verification attaches to a request. */
  datatype Identity = Identity(id: nat)

  /** JavaScript truthiness of a nullable numeric id: `null` and `0` are falsy. */
  predicate TruthyId(o: Option<nat>) {
    o.Some? && o.value != 0
  }

  /** JavaScript truthiness of a nullable string: `null` and `""` are falsy. */
  predicate TruthyString(o: Option<string>) {
    o.Some? && o.value != ""
  }
}
