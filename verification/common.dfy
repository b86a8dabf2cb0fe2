/** Shared shapes of the resolvers' return values: the nullable value, the
    thrown-or-returned outcome of a middleware, and the `{field, message}`
    pair every response carries its errors and success notes in. */
module Common {

  /** A value the source may leave `undefined` or `null`. */
  datatype Option<+T> = None | Some(value: T)

  /** Either the value a call produced or the message of the error it threw. */
  datatype Result<+T> = Ok(value: T) | Thrown(message: string)

  /** The `MessageField` object type: which field a note is about and the note. */
  datatype MessageField = MessageField(field: string, message: string)
}
