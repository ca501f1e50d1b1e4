/**
 * src/bulk_string.rs: decoding one RESP2 bulk string, `$<length>\r\n<payload>\r\n`,
 * from a ByteReader. Decode is the specification (the outcome and the offset
 * the reader is left at); Parse is the reader-driven implementation proved
 * equal to it.
 */
module BulkStrings {
  import opened Wrappers
  import opened Bytes
  import opened Reader
  import opened Utils

  const MAX_BULK_STRING_LENGTH: int := 512 * 1024 * 1024

  datatype BulkString = Null | Empty | Filled(bytes: seq<byte>)

  datatype BulkStringFormatError = Prefix | Length | LengthTrailer | Data

  /** What the decoder can produce: a Filled payload is never empty and never longer than the maximum. */
  predicate WellFormed(v: BulkString) {
    v.Filled? ==> 1 <= |v.bytes| <= MAX_BULK_STRING_LENGTH
  }

  /** The length a frame for `v` declares in its header. */
  function DeclaredLength(v: BulkString): int {
    match v
    case Null => -1
    case Empty => 0
    case Filled(b) => |b|
  }

  /** What follows the length digits in a frame for `v`. */
  function FrameTail(v: BulkString): seq<byte> {
    match v
    case Null => CRLF
    case Empty => CRLF + CRLF
    case Filled(b) => CRLF + b + CRLF
  }

  /** The length digits of a frame whose `$` is at `off`. */
  function LengthText(data: seq<byte>, off: nat): seq<byte>
    requires off < |data|
  {
    data[off + 1..LengthEnd(data, off + 1)]
  }

  /**
   * `read_crlf` (and the same two reads written out in `parse`): read one byte,
   * stop unless it is `\r`, read another, succeed iff it is `\n`. The second
   * component is where the reader is left.
   */
  function CrlfAt(data: seq<byte>, p: nat): (r: (bool, nat))
    requires p <= |data|
    ensures p <= r.1 <= p + 2 && r.1 <= |data|
    ensures r.0 <==> p + 2 <= |data| && data[p..p + 2] == CRLF
    ensures r.0 ==> r.1 == p + 2
  {
    if p == |data| then (false, p)
    else if data[p] != CR then (false, p + 1)
    else if p + 1 == |data| then (false, p + 1)
    else (data[p + 1] == LF, p + 2)
  }

  method ReadCrlf(reader: ByteReader) returns (ok: bool)
    requires reader.Valid()
    modifies reader
    ensures reader.Valid()
    ensures (ok, reader.offset) == CrlfAt(reader.data, old(reader.offset))
  {
    var b := reader.ReadByte();
    if b != Some(CR) {
      return false;
    }
    b := reader.ReadByte();
    ok := b == Some(LF);
  }

  /**
   * The decoder's outcome for a frame starting at `off`, and the offset the
   * reader is left at (on an error too).
   */
  function Decode(data: seq<byte>, off: nat): (out: (Result<BulkString, BulkStringFormatError>, nat))
    requires off <= |data|
    ensures off <= out.1 <= |data|
    ensures out.0.Ok? ==> WellFormed(out.0.value)
  {
    if off == |data| then (Err(Prefix), off)
    else if data[off] != DOLLAR then (Err(Prefix), off + 1)
    else
      var p := LengthEnd(data, off + 1);
      var length := ParseIsize(data[off + 1..p]);
      if length.None? || !(-1 <= length.value <= MAX_BULK_STRING_LENGTH) then (Err(Length), p)
      else DecodeAfterLength(data, p, length.value)
  }

  /** The rest of Decode, once a length in range has been read and the reader stands at `p`. */
  function DecodeAfterLength(data: seq<byte>, p: nat, length: int): (out: (Result<BulkString, BulkStringFormatError>, nat))
    requires p <= |data| && -1 <= length <= MAX_BULK_STRING_LENGTH
    ensures p <= out.1 <= |data|
    ensures out.0.Err? ==> out.0.error == LengthTrailer || out.0.error == Data
    ensures out.0.Ok? ==> WellFormed(out.0.value) && DeclaredLength(out.0.value) == length
  {
    if length == -1 then
      var (ok, q) := CrlfAt(data, p);
      if !ok then (Err(LengthTrailer), q) else (Ok(Null), q)
    else if length == 0 then
      var (ok1, q1) := CrlfAt(data, p);
      if !ok1 then (Err(LengthTrailer), q1)
      else
        var (ok2, q2) := CrlfAt(data, q1);
        if !ok2 then (Err(LengthTrailer), q2) else (Ok(Empty), q2)
    else
      var (ok, q) := CrlfAt(data, p);
      if !ok then (Err(LengthTrailer), q)
      // Corrected: the source slices without this check (see ReachesSliceOverrun).
      else if length > |data| - q then (Err(Data), q)
      else
        var r := q + length;
        var (ok2, e) := CrlfAt(data, r);
        if !ok2 then (Err(Data), e) else (Ok(Filled(data[q..r])), e)
  }

  /** `parse`: decodes one bulk string from the reader. */
  method Parse(reader: ByteReader) returns (r: Result<BulkString, BulkStringFormatError>)
    requires reader.Valid()
    modifies reader
    ensures reader.Valid()
    ensures (r, reader.offset) == Decode(reader.data, old(reader.offset))
  {
    ghost var start := reader.offset;
    var prefix := reader.ReadByte();
    if prefix != Some(DOLLAR) {
      return Err(Prefix);
    }
    var length := ReadLength(reader);
    if length.None? {
      return Err(Length);
    }
    var n := length.value;
    if !(-1 <= n <= MAX_BULK_STRING_LENGTH) {
      return Err(Length);
    }
    assert Decode(reader.data, start) == DecodeAfterLength(reader.data, reader.offset, n);
    r := ParsePayload(reader, n);
  }

  /** The part of `parse` after the length line: the trailer, the payload and its `\r\n`. */
  method ParsePayload(reader: ByteReader, n: int) returns (r: Result<BulkString, BulkStringFormatError>)
    requires reader.Valid() && -1 <= n <= MAX_BULK_STRING_LENGTH
    modifies reader
    ensures reader.Valid()
    ensures (r, reader.offset) == DecodeAfterLength(reader.data, old(reader.offset), n)
  {
    if n == -1 {
      var ok := ReadCrlf(reader);
      if !ok {
        return Err(LengthTrailer);
      }
      return Ok(Null);
    } else if n == 0 {
      ghost var p := reader.offset;
      for i := 0 to 2
        invariant reader.Valid()
        invariant reader.offset == p + 2 * i
        invariant i >= 1 ==> CrlfAt(reader.data, p).0
        invariant i >= 2 ==> CrlfAt(reader.data, p + 2).0
      {
        var ok := ReadCrlf(reader);
        if !ok {
          return Err(LengthTrailer);
        }
      }
      return Ok(Empty);
    } else {
      var ok := ReadCrlf(reader);
      if !ok {
        return Err(LengthTrailer);
      }
      if n > reader.BytesRemaining() {
        return Err(Data);
      }
      var bytes := reader.Slice(n);
      ok := ReadCrlf(reader);
      if !ok {
        return Err(Data);
      }
      return Ok(Filled(bytes));
    }
  }

  /**
   * Every frame of the accepted shape decodes: `$`, length text without `\r`
   * that parses to the declared length, then the tail; nothing after the tail
   * is read.
   */
  lemma DecodesFrame(data: seq<byte>, off: nat, text: seq<byte>, v: BulkString)
    requires WellFormed(v)
    requires forall i :: 0 <= i < |text| ==> text[i] != CR
    requires ParseIsize(text) == Some(DeclaredLength(v))
    requires off + 1 + |text| + |FrameTail(v)| <= |data|
    requires data[off..off + 1 + |text| + |FrameTail(v)|] == [DOLLAR] + text + FrameTail(v)
    ensures Decode(data, off) == (Ok(v), off + 1 + |text| + |FrameTail(v)|)
  {
    hide DecodeAfterLength, LengthEnd, ParseIsize, FrameTail;
    var e := off + 1 + |text|;
    TailStartsWithCrlf(v);
    FrameParts(data, off, text, FrameTail(v));
    assert Decode(data, off) == DecodeAfterLength(data, e, DeclaredLength(v));
    TailDecodes(data, e, v);
  }

  /** Every frame tail starts with the `\r\n` that ends the length line. */
  lemma TailStartsWithCrlf(v: BulkString)
    ensures |FrameTail(v)| >= 2 && FrameTail(v)[..2] == CRLF
  {
    match v
    case Null =>
    case Empty =>
    case Filled(b) =>
      assert FrameTail(v) == CRLF + (b + CRLF);
  }

  /** After the length line, the tail of a frame for `v` decodes to `v` and is consumed exactly. */
  lemma TailDecodes(data: seq<byte>, p: nat, v: BulkString)
    requires WellFormed(v)
    requires p + |FrameTail(v)| <= |data| && data[p..p + |FrameTail(v)|] == FrameTail(v)
    ensures DecodeAfterLength(data, p, DeclaredLength(v)) == (Ok(v), p + |FrameTail(v)|)
  {
    hide CrlfAt;
    var tail := FrameTail(v);
    SubSlice(data, p, tail, 0, 2);
    assert tail[..2] == CRLF;
    match v
    case Null =>
    case Empty =>
      SubSlice(data, p, tail, 2, 2);
      assert tail[2..4] == CRLF;
    case Filled(b) =>
      SubSlice(data, p, tail, 2, |b|);
      assert tail[2..2 + |b|] == b;
      SubSlice(data, p, tail, 2 + |b|, 2);
      assert tail[2 + |b|..4 + |b|] == CRLF;
  }

  /** The pieces of a frame `$` + text + tail laid down at `off`, when the text has no `\r` and the tail starts with one. */
  lemma FrameParts(data: seq<byte>, off: nat, text: seq<byte>, tail: seq<byte>)
    requires forall i :: 0 <= i < |text| ==> text[i] != CR
    requires |tail| >= 2 && tail[..2] == CRLF
    requires off + 1 + |text| + |tail| <= |data|
    requires data[off..off + 1 + |text| + |tail|] == [DOLLAR] + text + tail
    ensures data[off] == DOLLAR
    ensures LengthEnd(data, off + 1) == off + 1 + |text|
    ensures LengthText(data, off) == text
    ensures data[off + 1 + |text|..off + 1 + |text| + |tail|] == tail
  {
    hide LengthEnd;
    var e := off + 1 + |text|;
    assert [DOLLAR] + text + tail == ([DOLLAR] + text) + tail;
    Split(data, off, [DOLLAR] + text, tail);
    Split(data, off, [DOLLAR], text);
    assert data[off] == data[off..off + 1][0];
    assert data[e] == data[e..e + |tail|][0] == tail[0];
    TextBeforeCr(data, off + 1, text);
  }

  /** The length text a canonical frame for `v` carries: `-1` for Null, the decimal length otherwise. */
  function LengthDigits(v: BulkString): seq<byte> {
    if v.Null? then [MINUS, ZERO + 1] else DecimalText(DeclaredLength(v))
  }

  /** The canonical frame for `v`: `$`, the length text, then the tail. */
  function Frame(v: BulkString): seq<byte> {
    [DOLLAR] + LengthDigits(v) + FrameTail(v)
  }

  /** The canonical length text has no `\r` and parses to the declared length. */
  lemma LengthDigitsParse(v: BulkString)
    requires WellFormed(v)
    ensures forall i :: 0 <= i < |LengthDigits(v)| ==> LengthDigits(v)[i] != CR
    ensures ParseIsize(LengthDigits(v)) == Some(DeclaredLength(v))
  {
    if v.Null? {
      var text := LengthDigits(v);
      assert text[1..] == [ZERO + 1];
      assert DigitsValue([ZERO + 1]) == 1;
    } else {
      DecimalTextParses(DeclaredLength(v));
    }
  }

  /** Round trip: the canonical frame of every well-formed value decodes to it, wherever it is laid down. */
  lemma FrameDecodes(data: seq<byte>, off: nat, v: BulkString)
    requires WellFormed(v)
    requires off + |Frame(v)| <= |data| && data[off..off + |Frame(v)|] == Frame(v)
    ensures Decode(data, off) == (Ok(v), off + |Frame(v)|)
  {
    var text := LengthDigits(v);
    var tail := FrameTail(v);
    assert Frame(v) == [DOLLAR] + text + tail;
    var end := off + 1 + |text| + |tail|;
    assert end == off + |Frame(v)|;
    LengthDigitsParse(v);
    DecodesFrame(data, off, text, v);
    assert Decode(data, off) == (Ok(v), end);
  }

  /**
   * Which error the decoder reports: Prefix exactly when the first byte is
   * missing or is not `$`; Length exactly when the length text does not parse
   * as an isize in -1..MAX_BULK_STRING_LENGTH, and then the reader stands at
   * the `\r` after the length text (or at the end).
   */
  lemma DecodeErrors(data: seq<byte>, off: nat)
    requires off <= |data|
    ensures Decode(data, off).0 == Err(Prefix) <==> off == |data| || data[off] != DOLLAR
    ensures Decode(data, off).0 == Err(Length) <==>
      && off < |data| && data[off] == DOLLAR
      && var length := ParseIsize(LengthText(data, off));
         length.None? || !(-1 <= length.value <= MAX_BULK_STRING_LENGTH)
    ensures Decode(data, off).0 == Err(Length) ==> Decode(data, off).1 == LengthEnd(data, off + 1)
  {
  }

  /** The frame at `off` starts with `$` and a length text that parses within -1..MAX_BULK_STRING_LENGTH. */
  predicate LengthAccepted(data: seq<byte>, off: nat)
    requires off <= |data|
  {
    && off < |data| && data[off] == DOLLAR
    && var length := ParseIsize(LengthText(data, off));
       length.Some? && -1 <= length.value <= MAX_BULK_STRING_LENGTH
  }

  /**
   * The other two errors, in both directions. LengthTrailer: the length was
   * accepted but `\r\n` does not follow it, or, for length 0, does not follow
   * that `\r\n` again. Data: a positive length was accepted and followed by
   * `\r\n`, but fewer bytes than declared remain or the payload is not
   * followed by `\r\n`.
   */
  lemma TrailerAndDataErrors(data: seq<byte>, off: nat)
    requires off <= |data|
    ensures Decode(data, off).0 == Err(LengthTrailer) <==> TrailerRejected(data, off)
    ensures Decode(data, off).0 == Err(Data) <==> PayloadRejected(data, off)
  {
    TrailerError(data, off);
    DataError(data, off);
  }

  /** An accepted length not followed by `\r\n` (for length 0, twice). */
  predicate TrailerRejected(data: seq<byte>, off: nat)
    requires off <= |data|
  {
    && LengthAccepted(data, off)
    && var p := LengthEnd(data, off + 1);
       var n := ParseIsize(LengthText(data, off)).value;
       !CrlfAt(data, p).0 || (n == 0 && !CrlfAt(data, p + 2).0)
  }

  /** A positive accepted length followed by `\r\n`, with too few bytes or no `\r\n` after the payload. */
  predicate PayloadRejected(data: seq<byte>, off: nat)
    requires off <= |data|
  {
    && LengthAccepted(data, off)
    && var p := LengthEnd(data, off + 1);
       var n := ParseIsize(LengthText(data, off)).value;
       && n > 0 && CrlfAt(data, p).0
       && (n > |data| - (p + 2) || !CrlfAt(data, p + 2 + n).0)
  }

  /** The LengthTrailer half of TrailerAndDataErrors. */
  lemma TrailerError(data: seq<byte>, off: nat)
    requires off <= |data|
    ensures Decode(data, off).0 == Err(LengthTrailer) <==> TrailerRejected(data, off)
  {
  }

  /** The Data half of TrailerAndDataErrors. */
  lemma DataError(data: seq<byte>, off: nat)
    requires off <= |data|
    ensures Decode(data, off).0 == Err(Data) <==> PayloadRejected(data, off)
  {
  }

  /**
   * The converse of DecodesFrame: whatever decodes was a frame of the accepted
   * shape, `$`, length text parsing to the declared length, then the tail.
   */
  lemma DecodeShape(data: seq<byte>, off: nat)
    requires off <= |data|
    requires Decode(data, off).0.Ok?
    ensures off < |data| && data[off] == DOLLAR
    ensures WellFormed(Decode(data, off).0.value)
    ensures ParseIsize(LengthText(data, off)) == Some(DeclaredLength(Decode(data, off).0.value))
    ensures Decode(data, off).1 == LengthEnd(data, off + 1) + |FrameTail(Decode(data, off).0.value)|
    ensures data[off..Decode(data, off).1] == [DOLLAR] + LengthText(data, off) + FrameTail(Decode(data, off).0.value)
  {
    var p := LengthEnd(data, off + 1);
    var text := data[off + 1..p];
    var length := ParseIsize(text);
    assert length.Some? && -1 <= length.value <= MAX_BULK_STRING_LENGTH;
    var out := DecodeAfterLength(data, p, length.value);
    assert Decode(data, off) == out;
    TailShape(data, p, length.value);
    var end := out.1;
    Adjacent(data, off, off + 1, p);
    Adjacent(data, off, p, end);
    assert data[off..off + 1] == [DOLLAR];
    assert data[off..end] == [DOLLAR] + text + FrameTail(out.0.value);
  }

  /** A successful DecodeAfterLength consumed exactly the tail of the frame it returns. */
  lemma TailShape(data: seq<byte>, p: nat, length: int)
    requires p <= |data| && -1 <= length <= MAX_BULK_STRING_LENGTH
    requires DecodeAfterLength(data, p, length).0.Ok?
    ensures var (r, end) := DecodeAfterLength(data, p, length);
      end == p + |FrameTail(r.value)| && data[p..end] == FrameTail(r.value)
  {
    if length == 0 {
      EmptyTail(data, p);
    } else if length > 0 {
      FilledTail(data, p, length);
    }
  }

  /** TailShape for length 0: two `\r\n` in a row. */
  lemma EmptyTail(data: seq<byte>, p: nat)
    requires p <= |data|
    requires DecodeAfterLength(data, p, 0).0.Ok?
    ensures DecodeAfterLength(data, p, 0) == (Ok(Empty), p + 4)
    ensures p + 4 <= |data| && data[p..p + 4] == CRLF + CRLF
  {
    hide CrlfAt;
    var (ok1, q1) := CrlfAt(data, p);
    var (ok2, q2) := CrlfAt(data, q1);
    assert ok1 && ok2;
    Adjacent(data, p, p + 2, p + 4);
  }

  /** TailShape for a positive length: `\r\n`, the payload, `\r\n`. */
  lemma FilledTail(data: seq<byte>, p: nat, length: int)
    requires p <= |data| && 0 < length <= MAX_BULK_STRING_LENGTH
    requires DecodeAfterLength(data, p, length).0.Ok?
    ensures p + 4 + length <= |data|
    ensures DecodeAfterLength(data, p, length) == (Ok(Filled(data[p + 2..p + 2 + length])), p + 4 + length)
    ensures data[p..p + 4 + length] == CRLF + data[p + 2..p + 2 + length] + CRLF
  {
    hide CrlfAt;
    var (ok, q) := CrlfAt(data, p);
    assert ok && q == p + 2;
    var r := q + length;
    var (ok2, e) := CrlfAt(data, r);
    assert ok2 && e == r + 2;
    Adjacent(data, p, p + 2, r);
    Adjacent(data, p, r, e);
  }

  /** A successful decode reads only its own frame: appending bytes does not change it. */
  lemma DecodeIgnoresWhatFollows(data: seq<byte>, off: nat, extra: seq<byte>)
    requires off <= |data|
    requires Decode(data, off).0.Ok?
    ensures Decode(data + extra, off) == Decode(data, off)
  {
    hide Decode, DecodeAfterLength, ParseIsize, LengthEnd;
    var (r, end) := Decode(data, off);
    DecodeShape(data, off);
    var text := LengthText(data, off);
    var frame := [DOLLAR] + text + FrameTail(r.value);
    SubSlice(data + extra, 0, data, off, |frame|);
    assert (data + extra)[..|data|] == data;
    forall i | 0 <= i < |text|
      ensures text[i] != CR
    {
      assert text[i] == data[off + 1 + i];
    }
    DecodesFrame(data + extra, off, text, r.value);
  }

  /**
   * As written, `parse` reaches `reader.slice(length)` (src/bulk_string.rs:70)
   * with fewer than `length` bytes left, which panics: the header and its
   * `\r\n` are fine but the payload is cut short.
   */
  predicate ReachesSliceOverrun(data: seq<byte>, off: nat)
    requires off <= |data|
  {
    && off < |data| && data[off] == DOLLAR
    && var p := LengthEnd(data, off + 1);
       var length := ParseIsize(data[off + 1..p]);
       && length.Some? && 0 < length.value <= MAX_BULK_STRING_LENGTH
       && CrlfAt(data, p).0
       && length.value > |data| - (p + 2)
  }

  /** `$5\r\nhi` passes every check before the slice and then has two bytes for a five-byte payload. */
  lemma TruncatedPayloadOverrunsSlice()
    ensures ReachesSliceOverrun(Ascii("$5\r\nhi"), 0)
  {
    var data := Ascii("$5\r\nhi");
    LengthEndAt(data, 1, 2);
    assert data[1..2] == [ZERO + 5];
    assert DigitsValue([ZERO + 5]) == 5;
    assert data[2..4] == CRLF;
  }

  /** With the check, a payload shorter than declared is a Data error and no payload byte is consumed. */
  lemma TruncatedPayloadRejected(data: seq<byte>, off: nat)
    requires off <= |data|
    requires ReachesSliceOverrun(data, off)
    ensures Decode(data, off) == (Err(Data), LengthEnd(data, off + 1) + 2)
  {
  }

  /** The null frame of the source's unit tests. */
  lemma NullFrameDecodes()
    ensures Decode(Ascii("$-1\r\n"), 0) == (Ok(Null), 5)
  {
    hide Decode;
    var minusOne := Ascii("-1");
    assert minusOne[1..] == [ZERO + 1];
    assert DigitsValue([ZERO + 1]) == 1;
    DecodesFrame(Ascii("$-1\r\n"), 0, minusOne, Null);
  }

  /** The empty frame of the source's unit tests. */
  lemma EmptyFrameDecodes()
    ensures Decode(Ascii("$0\r\n\r\n"), 0) == (Ok(Empty), 6)
  {
    hide Decode;
    assert DigitsValue([ZERO]) == 0;
    DecodesFrame(Ascii("$0\r\n\r\n"), 0, Ascii("0"), Empty);
  }

  /** The `hello` frame of the source's unit tests. */
  /** The bytes of `$` and `5`. */
  lemma FiveAndDollar()
    ensures Ascii("$") == [DOLLAR] && Ascii("5") == [ZERO + 5] && |Ascii("hello")| == 5
  {
  }

  lemma HelloFrameDecodes()
    ensures Decode(Ascii("$5\r\nhello\r\n"), 0) == (Ok(Filled(Ascii("hello"))), 11)
  {
    hide Decode, Ascii;
    var hello := Ascii("hello");
    AsciiConcat("$5", "\r\nhello\r\n");
    AsciiConcat("$", "5");
    AsciiConcat("\r\n", "hello\r\n");
    AsciiConcat("hello", "\r\n");
    assert "$5" + "\r\nhello\r\n" == "$5\r\nhello\r\n";
    assert "$" + "5" == "$5";
    assert "\r\n" + "hello\r\n" == "\r\nhello\r\n";
    assert "hello" + "\r\n" == "hello\r\n";
    CrlfText();
    FiveAndDollar();
    assert DigitsValue([ZERO + 5]) == 5;
    DecodesFrame(Ascii("$5\r\nhello\r\n"), 0, Ascii("5"), Filled(hello));
  }
}
