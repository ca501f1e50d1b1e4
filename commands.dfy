/**
 * What the SET, GET and DEL handlers share: the key-value store they work on
 * (`Data`, a map from bulk strings to bulk strings), the reply they return
 * and the `bulk_string_or_error!` guard they put each argument through.
 *
 * These handlers come from a later revision than src/commands/mod.rs: their
 * reply carries a whole bulk-string value (Null included) and an integer,
 * and takes the store as an argument.
 */
module Commands {
  import opened Wrappers
  import BulkStrings
  import Arrays

  /** A reply of the SET, GET and DEL handlers. */
  datatype Response =
    | SimpleString(text: string)
    | Error(text: string)
    | BulkString(value: BulkStrings.BulkString)
    | Integer(number: int)

  const WRONG_NUMBER_OF_ARGUMENTS: string := "wrong number of arguments"

  /** The in-memory store every handler reads and changes in place. */
  class Data {
    var entries: map<BulkStrings.BulkString, BulkStrings.BulkString>

    constructor (entries: map<BulkStrings.BulkString, BulkStrings.BulkString>)
      ensures this.entries == entries
    {
      this.entries := entries;
    }
  }

  /**
   * `bulk_string_or_error!(argument)` and `bulk_string_or_error!(argument, message)`:
   * either the argument's bulk string goes on (`accepts`), or the handler
   * returns at once with `rejection(message)`. Which arguments it refuses and
   * what it replies are not known, so both stay parameters.
   */
  datatype ArgumentGuard = ArgumentGuard(accepts: Arrays.Value -> bool, rejection: Option<string> -> Response)
}
