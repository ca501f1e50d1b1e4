/**
 * src/commands/ping.rs: `PING [message]`, where the arguments no longer
 * include the command name. The reply bytes are written out directly; the
 * contract ties each of them to the encoding of a `Response`.
 */
module PingCommand {
  import opened Wrappers
  import opened Bytes
  import BulkStrings
  import Arrays
  import Responses

  /** `Ping::execute` on the arguments after the command name. */
  function Execute(values: seq<Arrays.Value>): (out: seq<byte>)
    ensures values == [] ==> out == Responses.Encode(Responses.SimpleString(Ascii("PONG")))
    ensures |values| == 1 && values[0].bulk.Null? ==>
      out == Responses.Encode(Responses.Error(Ascii("ERR unexpected null bulk string")))
    ensures |values| == 1 && values[0].bulk.Empty? ==>
      out == Responses.Encode(Responses.Error(Ascii("ERR unexpected empty bulk string")))
    ensures |values| == 1 && values[0].bulk.Filled? ==>
      out == Responses.Encode(Responses.BulkString(values[0].bulk.bytes))
    ensures |values| >= 2 ==> out == Responses.Encode(Responses.Error(Ascii("ERR wrong number of arguments")))
  {
    if values == [] then
      SimpleLine("PONG");
      Ascii("+" + "PONG" + "\r\n")
    else if |values| == 1 then
      match values[0].bulk
      case Null =>
        ErrorLine("ERR unexpected null bulk string");
        Ascii("-" + "ERR unexpected null bulk string" + "\r\n")
      case Empty =>
        ErrorLine("ERR unexpected empty bulk string");
        Ascii("-" + "ERR unexpected empty bulk string" + "\r\n")
      case Filled(argument) =>
        CrlfText();
        [DOLLAR] + DecimalText(|argument|) + Ascii("\r\n") + argument + Ascii("\r\n")
    else
      ErrorLine("ERR wrong number of arguments");
      Ascii("-" + "ERR wrong number of arguments" + "\r\n")
  }

  /** A `b"+...\r\n"` literal is the encoding of a simple-string reply. */
  lemma SimpleLine(text: string)
    ensures Ascii("+" + text + "\r\n") == Responses.Encode(Responses.SimpleString(Ascii(text)))
  {
    CrlfText();
    assert Ascii("+") == [PLUS];
    AsciiConcat("+", text);
    AsciiConcat("+" + text, "\r\n");
  }

  /** A `b"-...\r\n"` literal is the encoding of an error reply. */
  lemma ErrorLine(text: string)
    ensures Ascii("-" + text + "\r\n") == Responses.Encode(Responses.Error(Ascii(text)))
  {
    CrlfText();
    assert Ascii("-") == [MINUS];
    AsciiConcat("-", text);
    AsciiConcat("-" + text, "\r\n");
  }

  /**
   * An echoed message reads back: the reply to `PING message` decodes as a
   * bulk string to the message (`Empty` for no bytes), consuming the whole
   * reply.
   */
  lemma EchoReadsBack(values: seq<Arrays.Value>)
    requires |values| == 1 && values[0].bulk.Filled?
    requires |values[0].bulk.bytes| <= BulkStrings.MAX_BULK_STRING_LENGTH
    ensures BulkStrings.Decode(Execute(values), 0) == (Ok(Responses.AsBulkString(values[0].bulk.bytes)), |Execute(values)|)
  {
    Responses.BulkReplyDecodes(values[0].bulk.bytes);
  }
}
