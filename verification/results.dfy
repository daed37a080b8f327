/** Outcomes of the library's calls. Every exported routine either returns a
    value or throws an invalid-argument error; only the fact that a call throws
    is modelled, never the message text. */
module Results {

  /** A returned value, or the exception the call throws. */
  datatype Result<+T> = Ok(value: T) | Throws

  /** A JavaScript value that may be `undefined`. */
  datatype Option<+T> = None | Some(value: T)
}
