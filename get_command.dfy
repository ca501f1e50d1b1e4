/**
 * src/commands/get.rs: `GET key`, a single lookup. The handler is given the
 * store mutably but never changes it, so it is a function of the entries.
 */
module GetCommand {
  import opened Wrappers
  import BulkStrings
  import Arrays
  import opened Commands
  import SetCommand

  /** `Get::execute`. */
  function Execute(entries: map<BulkStrings.BulkString, BulkStrings.BulkString>, arguments: seq<Arrays.Value>, guard: ArgumentGuard)
    : (r: Response)
    ensures |arguments| != 1 ==> r == Error(WRONG_NUMBER_OF_ARGUMENTS)
    ensures |arguments| == 1 && !guard.accepts(arguments[0]) ==> r == guard.rejection(None)
    ensures |arguments| == 1 && guard.accepts(arguments[0]) ==>
      r == BulkString(if arguments[0].bulk in entries then entries[arguments[0].bulk] else BulkStrings.Null)
  {
    if |arguments| != 1 then Error(WRONG_NUMBER_OF_ARGUMENTS)
    else if !guard.accepts(arguments[0]) then guard.rejection(None)
    else
      var key := arguments[0].bulk;
      match key in entries
      case true => BulkString(entries[key])
      case false => BulkString(BulkStrings.Null)
  }

  /**
   * GET reads back what SET wrote: after a SET of `key` to `value` that
   * stores, GET of `key` replies `value`; after a SET that does not store,
   * GET replies what it would have before.
   */
  lemma ReadsBackSet(entries: map<BulkStrings.BulkString, BulkStrings.BulkString>, arguments: seq<Arrays.Value>, guard: ArgumentGuard)
    requires 2 <= |arguments| && guard.accepts(arguments[0])
    ensures var after := SetCommand.Outcome(entries, arguments, guard).1;
      Execute(after, arguments[..1], guard) ==
        if after == entries then Execute(entries, arguments[..1], guard) else BulkString(arguments[1].bulk)
  {
    SetCommand.WritesOnlyKey(entries, arguments, guard);
    assert arguments[..1][0] == arguments[0];
  }
}
