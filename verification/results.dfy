/** Option/Result wrappers and the errors the stream engine raises. */
module Results {

  /** A PHP value that may be `null`. */
  datatype Option<+T> = None | Some(value: T)

  /** The outcome of an operation that either returns or throws. A thrown
      error carries no new state: every throw in the modelled code happens
      before any field is written. */
  datatype Result<+T, +E> = Ok(value: T) | Err(error: E)

  /** The errors the engine throws, one per distinct message in the code. */
  datatype Fault =
    | EmptyQueue             // `peek`/`shift` on an empty queue
    | NotReady               // `getCurrent` before `advance` settled
    | IteratorCompleted      // `getCurrent` after the stream ended
    | EmitAfterComplete      // `emit` once the latch is set
    | AlreadyCompleted       // a second `complete`
    | CompletedBeforeResult  // a promise settled after the latch was set
    | NotAnArray             // the producer factory did not return an array
    | NotIteratorOrGenerator // an element of that array has the wrong type
    | NotAGenerator          // `new Coroutine` given something other than a `Generator`
    | NullWaiter             // a woken `advance` re-waits on a cleared waiter cell
}
