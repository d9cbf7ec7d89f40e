/** Values shared by every part of the journal model. */
module Common {

  /** A value that may be absent: `null` or `undefined` in the source. */
  datatype Option<T> = None | Some(value: T)

  /** The result of an operation that may throw; the source throws plain strings. */
  datatype Result<T> = Ok(value: T) | Err(message: string)

  /** The result of an operation that may throw and returns nothing otherwise. */
  datatype Outcome = Pass | Fail(message: string)

  /** One journal record: the date string it was written on and its text. */
  datatype Entry = Entry(date: string, body: string)
}
