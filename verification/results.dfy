/** Failure-carrying datatypes shared by the model: a synchronous result
    (a value or a thrown configuration error) and the three states of a
    promise. */
module Results {

  /** The outcome of a synchronous call that may throw. */
  datatype Result<+T, +E> = Ok(value: T) | Err(error: E)

  /** An optional value: the JavaScript `undefined` versus a present value. */
  datatype Option<+T> = None | Some(value: T)

  /** A promise as seen after a finite sequence of engine events: still
      waiting, fulfilled with a value, or rejected with an error. A promise
      settles at most once, so later events never change a settled one. */
  datatype Promise<+T, +E> = Pending | Fulfilled(value: T) | Rejected(error: E)
}
