/**
 * src/commands/mod.rs: the reply a command hands back and its encoding on the
 * wire (`From<Response> for Vec<u8>`). A simple string is `+text\r\n`, an
 * error `-text\r\n` and a bulk string `$<length>\r\n<bytes>\r\n`. The text of
 * a simple string or error is a `&'static str`; it is modelled by its bytes
 * (`str::as_bytes`).
 */
module Responses {
  import opened Wrappers
  import opened Bytes
  import opened Utils
  import BulkStrings

  datatype Response =
    | SimpleString(text: seq<byte>)
    | Error(text: seq<byte>)
    | BulkString(bytes: seq<byte>)

  /** The first byte of an encoding, which names the kind of reply. */
  function Marker(r: Response): byte {
    match r
    case SimpleString(_) => PLUS
    case Error(_) => MINUS
    case BulkString(_) => DOLLAR
  }

  /** The bytes written to the client for `r`. */
  function Encode(r: Response): (out: seq<byte>)
    ensures |out| >= 3 && out[0] == Marker(r)
    ensures out[|out| - 2..] == CRLF
    ensures !r.BulkString? ==> |out| == |r.text| + 3
    ensures r.BulkString? ==> |out| == |DecimalText(|r.bytes|)| + |r.bytes| + 5
  {
    match r
    case SimpleString(s) => [PLUS] + s + CRLF
    case Error(e) => [MINUS] + e + CRLF
    case BulkString(b) => [DOLLAR] + DecimalText(|b|) + CRLF + b + CRLF
  }

  /** Different replies never share an encoding. */
  lemma EncodeInjective(x: Response, y: Response)
    requires Encode(x) == Encode(y)
    ensures x == y
  {
    var out := Encode(x);
    assert Marker(x) == out[0] == Marker(y);
    match x
    case SimpleString(s) =>
      assert s == out[1..|out| - 2] == y.text;
    case Error(e) =>
      assert e == out[1..|out| - 2] == y.text;
    case BulkString(b) =>
      BulkEncodingDeterminesBytes(b, y.bytes);
  }

  /** A bulk-string encoding fixes its payload: the length text gives the length, the length the bytes. */
  lemma BulkEncodingDeterminesBytes(b: seq<byte>, c: seq<byte>)
    requires Encode(BulkString(b)) == Encode(BulkString(c))
    ensures b == c
  {
    var out := Encode(BulkString(b));
    var d := DecimalText(|b|);
    assert out == [DOLLAR] + d + (CRLF + b + CRLF);
    assert out == [DOLLAR] + DecimalText(|c|) + (CRLF + c + CRLF);
    CountEnd(out, d, CRLF + b + CRLF);
    CountEnd(out, DecimalText(|c|), CRLF + c + CRLF);
    assert d == out[1..1 + |d|] == DecimalText(|c|);
    assert |b| == DigitsValue(d) == |c|;
    assert b == out[3 + |d|..3 + |d| + |b|] == c;
  }

  /** In `$<digits>` followed by text that starts with `\r`, the length text ends right after the digits. */
  lemma CountEnd(out: seq<byte>, digits: seq<byte>, rest: seq<byte>)
    requires AllDigits(digits) && |rest| >= 1 && rest[0] == CR
    requires out == [DOLLAR] + digits + rest
    ensures LengthEnd(out, 1) == 1 + |digits|
  {
    assert out[1..1 + |digits|] == digits;
    TextBeforeCr(out, 1, digits);
  }

  /** The bulk-string value a decoder gives for reply bytes `b`. */
  function AsBulkString(b: seq<byte>): (v: BulkStrings.BulkString)
    ensures v.Filled? <==> b != []
  {
    if b == [] then BulkStrings.Empty else BulkStrings.Filled(b)
  }

  /** A bulk-string reply is the canonical frame of its value. */
  lemma BulkReplyIsFrame(b: seq<byte>)
    ensures Encode(BulkString(b)) == BulkStrings.Frame(AsBulkString(b))
  {
    var v := AsBulkString(b);
    if b == [] {
      assert BulkStrings.FrameTail(v) == CRLF + CRLF;
    }
  }

  /**
   * Round trip with the decoder: a bulk-string reply of at most
   * MAX_BULK_STRING_LENGTH bytes decodes to those bytes (Empty for none) and
   * is consumed exactly.
   */
  lemma BulkReplyDecodes(b: seq<byte>)
    requires |b| <= BulkStrings.MAX_BULK_STRING_LENGTH
    ensures BulkStrings.Decode(Encode(BulkString(b)), 0) == (Ok(AsBulkString(b)), |Encode(BulkString(b))|)
  {
    var out := Encode(BulkString(b));
    BulkReplyIsFrame(b);
    assert out[0..|out|] == out;
    BulkStrings.FrameDecodes(out, 0, AsBulkString(b));
  }

  /**
   * The encoder writes bulk strings of any length, but the decoder refuses a
   * declared length above MAX_BULK_STRING_LENGTH: such a reply does not read
   * back.
   */
  lemma OversizedBulkReplyRejected(b: seq<byte>)
    requires |b| > BulkStrings.MAX_BULK_STRING_LENGTH
    ensures BulkStrings.Decode(Encode(BulkString(b)), 0).0 == Err(BulkStrings.Length)
  {
    hide BulkStrings.DecodeAfterLength, ParseIsize, LengthEnd;
    var out := Encode(BulkString(b));
    var d := DecimalText(|b|);
    assert out == [DOLLAR] + d + (CRLF + b + CRLF);
    CountEnd(out, d, CRLF + b + CRLF);
    assert out[1..1 + |d|] == d;
    if |b| <= ISIZE_MAX {
      DecimalTextParses(|b|);
    } else {
      DecimalTextOverflows(|b|);
    }
  }
}
