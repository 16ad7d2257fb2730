/** Values shared by every service: nullable values, thrown errors and what the
    database answers to a statement. */
module Common {

  /** A nullable value (`null` / `undefined` in the services). */
  datatype Option<+T> = None | Some(value: T)

  /** The outcome of a service call: a value, or an `Error` thrown with `message`. */
  datatype Result<+T> = Ok(value: T) | Err(message: string)

  /** How the database answers an `insert(...).returning()`: the row is stored and
      returned, the statement returns no row, or the driver throws with a message. */
  datatype InsertReply = Stored | NoRow | Fails(message: string)
}
