/** Option, Result and the (error, result) reply pair every repository call returns. */
module Outcomes {

  datatype Option<+T> = None | Some(value: T)

  /** The exceptions a repository call can end in, one per cause the model distinguishes. */
  datatype Fault =
    | WrongType        // the store's WRONGTYPE reply: the key holds another kind of value
    | Overflow         // the store's "increment or decrement would overflow"
    | WrongArity       // the store's "wrong number of arguments" (a command sent with no values)
    | OutOfRange       // the store's "value is out of range, must be positive", or the client's ArgumentOutOfRangeException
    | CastOverflow     // OverflowException from Convert.ToInt32 / Convert.ToInt64
    | NullArgument     // ArgumentNullException (deserialising a null string)
    | JsonFormat       // the JSON reader rejected the text
    | DuplicateKey     // ArgumentException from Dictionary.Add with a repeated key
    | NotUtc           // ArgumentException from the UTC-kind guard of the time helpers
    | TicksOutOfRange  // ArgumentOutOfRangeException from DateTime arithmetic
    | InvalidExpire    // the store's "invalid expire time" (SETEX / PSETEX with a timeout below 1)

  datatype Result<+T> = Ok(value: T) | Err(fault: Fault)

  /** Tuple<Exception, T>: the error slot is empty on success; on failure it holds the fault
      and the result is the operation's fixed sentinel. */
  datatype Reply<+T> = Reply(error: Option<Fault>, result: T)
}
