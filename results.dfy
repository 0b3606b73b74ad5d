/** Outcomes shared by every stage of the parser. */
module Results {

  datatype Option<+T> = None | Some(value: T)

  /** One constructor per error the parser raises, in the order they appear. */
  datatype Error =
    | NotIcsFormat       // fetched content without the calendar signature
    | NoFile             // raw parsing without a loaded file
    | NoRawEvents        // parsing finds no raw event
    | ClassNotInferable  // the first description does not start with a class code
    | InvalidPeriod      // both period bounds set and `from` after `to`
    | NoParsedEvents     // reconciliation finds no parsed event

  /** A call either returns its value or stops with one error and no partial result. */
  datatype Result<+T> = Ok(value: T) | Err(error: Error)
}
