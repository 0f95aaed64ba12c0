/** Failure-carrying values shared by every module of the model. */
module Results {

  /** A value that may be absent: a row that `findOne` did not find, a date that did not parse. */
  datatype Option<T> = None | Some(value: T)

  /** The outcome of an endpoint: a value, or the rejection string the promise is rejected with. */
  datatype Result<T> = Ok(value: T) | Err(msg: string)

  /** The outcome of a repository 'before save' trigger: the save proceeds, or it throws `msg`. */
  datatype Check = Pass | Reject(msg: string)
}
