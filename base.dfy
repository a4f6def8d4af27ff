/** Values shared by every part of the scheduler model. */
module Base {

  /** An object reference the model does not look inside: a handler, a
      runnable, a token or a user object. `Null` stands for JavaScript's
      `null` and `undefined`, the two falsy references the source tests with
      `!x`; `Obj(id)` is a live object, and two references are `===` exactly
      when they are equal. */
  datatype Ref = Null | Obj(id: nat)

  /** The exceptions the core throws. */
  datatype Error =
    | AlreadyInUse           // enqueue of a message whose `when` is not 0
    | QueueNotAllowedToQuit  // a barrier enqueued on a queue built with quitAllowed = false
    | QuitNotAllowed         // quit() on such a queue
    | NullIdleHandler        // addIdleHandler(null)
    | NullRunnable           // runWithScissors(null, ...)
    | NegativeTimeout        // runWithScissors(..., a negative timeout)
    | TypeError              // a property of null or undefined was read or called

  datatype Option<T> = None | Some(value: T)

  /** The result of an operation that may throw. */
  datatype Result<T> = Ok(value: T) | Err(error: Error)
}
