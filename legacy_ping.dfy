/**
 * src/ping.rs: the older `PING`, whose argument list still starts with the
 * command name. It branches like src/commands/ping.rs, one index further on,
 * and never looks at the name itself.
 */
module LegacyPing {
  import opened Bytes
  import Arrays
  import Responses
  import PingCommand

  /** The older `Ping::execute`: `values[0]` is the command name. */
  function Execute(values: seq<Arrays.Value>): (out: seq<byte>)
    ensures values == [] ==> out == Responses.Encode(Responses.Error(Ascii("ERR wrong number of arguments")))
  {
    if |values| == 1 then Ascii("+" + "PONG" + "\r\n")
    else if |values| == 2 then
      match values[1].bulk
      case Null => Ascii("-" + "ERR unexpected null bulk string" + "\r\n")
      case Empty => Ascii("-" + "ERR unexpected empty bulk string" + "\r\n")
      case Filled(argument) => [DOLLAR] + DecimalText(|argument|) + Ascii("\r\n") + argument + Ascii("\r\n")
    else
      PingCommand.ErrorLine("ERR wrong number of arguments");
      Ascii("-" + "ERR wrong number of arguments" + "\r\n")
  }

  /**
   * The two snapshots agree: the older PING on a command name followed by
   * `args` replies exactly what the newer one replies on `args`, whatever
   * the name is.
   */
  lemma AgreesWithCommandsPing(name: Arrays.Value, args: seq<Arrays.Value>)
    ensures Execute([name] + args) == PingCommand.Execute(args)
  {
    if |args| == 1 {
      assert ([name] + args)[1] == args[0];
    }
  }
}
