/**
 * src/array.rs: decoding one whole RESP2 message that is an array of bulk
 * strings, `*<count>\r\n` followed by `count` bulk-string frames. DecodeArray
 * is the specification, Parse the reader-driven implementation proved equal
 * to it.
 */
module Arrays {
  import opened Wrappers
  import opened Bytes
  import opened Reader
  import opened Utils
  import BulkStrings

  datatype Array = Null | Empty | Filled(values: seq<Value>)

  /** The only element type the decoder knows so far. */
  datatype Value = BulkString(bulk: BulkStrings.BulkString)

  datatype ArrayFormatError = Prefix | Length | Data | LengthTrailer

  /** `parse_value`, on the data: a `$` must come next, and any bulk-string error becomes Data. */
  function DecodeValue(data: seq<byte>, p: nat): (out: (Result<Value, ArrayFormatError>, nat))
    requires p <= |data|
    ensures p <= out.1 <= |data|
    ensures out.0.Err? ==> out.0.error == Data
    ensures out.0.Ok? ==> BulkStrings.WellFormed(out.0.value.bulk)
  {
    if p < |data| && data[p] == DOLLAR then
      var (r, q) := BulkStrings.Decode(data, p);
      if r.Ok? then (Ok(BulkString(r.value)), q) else (Err(Data), q)
    else (Err(Data), p)
  }

  /** `values` put in front of the values of an outcome; an error stays as it is. */
  function Prepend(values: seq<Value>, out: (Result<seq<Value>, ArrayFormatError>, nat)): (Result<seq<Value>, ArrayFormatError>, nat) {
    if out.0.Err? then out else (Ok(values + out.0.value), out.1)
  }

  /** `n` values read one after another from `p`, stopping at the first error. */
  function DecodeValues(data: seq<byte>, p: nat, n: nat): (out: (Result<seq<Value>, ArrayFormatError>, nat))
    requires p <= |data|
    ensures p <= out.1 <= |data|
    ensures out.0.Err? ==> out.0.error == Data
    ensures out.0.Ok? ==> |out.0.value| == n
    ensures out.0.Ok? ==> forall i :: 0 <= i < n ==> BulkStrings.WellFormed(out.0.value[i].bulk)
    decreases n
  {
    if n == 0 then (Ok([]), p)
    else
      var (v, q) := DecodeValue(data, p);
      if v.Err? then (Err(v.error), q)
      else Prepend([v.value], DecodeValues(data, q, n - 1))
  }

  /** What the decoder can produce: a Filled array holds at least one value, each well-formed. */
  predicate WellFormedArray(a: Array) {
    a.Filled? ==>
      && 1 <= |a.values| <= ISIZE_MAX
      && forall i :: 0 <= i < |a.values| ==> BulkStrings.WellFormed(a.values[i].bulk)
  }

  /** The count text of a message that starts with `*`. */
  function CountText(data: seq<byte>): seq<byte>
    requires 0 < |data|
  {
    data[1..LengthEnd(data, 1)]
  }

  /** The decoder's verdict on a whole message. */
  function DecodeArray(data: seq<byte>): (r: Result<Array, ArrayFormatError>)
    ensures r.Ok? ==> WellFormedArray(r.value)
    ensures r.Ok? ==> 0 < |data| && data[0] == STAR && BulkStrings.CrlfAt(data, LengthEnd(data, 1)).0
    ensures r == Ok(Null) ==> ParseIsize(CountText(data)) == Some(-1) && |data| == LengthEnd(data, 1) + 2
    ensures r == Ok(Empty) ==> ParseIsize(CountText(data)) == Some(0) && |data| == LengthEnd(data, 1) + 2
    ensures r.Ok? && r.value.Filled? ==>
      && ParseIsize(CountText(data)) == Some(|r.value.values|)
      && DecodeValues(data, LengthEnd(data, 1) + 2, |r.value.values|) == (Ok(r.value.values), |data|)
  {
    if |data| == 0 || data[0] != STAR then Err(Prefix)
    else
      var p := LengthEnd(data, 1);
      var length := ParseIsize(data[1..p]);
      if length.None? then Err(Length)
      else if length.value == -1 || length.value == 0 then
        if |data| - p != 2 then Err(Data)
        else if !BulkStrings.CrlfAt(data, p).0 then Err(LengthTrailer)
        else if length.value == -1 then Ok(Null)
        else Ok(Empty)
      else if !BulkStrings.CrlfAt(data, p).0 then Err(LengthTrailer)
      // Corrected: the source passes a negative count to `Vec::with_capacity` (see ReachesNegativeCapacity).
      else if length.value < -1 then Err(Length)
      else
        // The source first allocates room for the count, which panics above MAX_CAPACITY
        // (see ReachesOversizedCapacity); the model reads the values as they come.
        var (values, q) := DecodeValues(data, p + 2, length.value);
        if values.Err? then Err(values.error)
        else if q != |data| then Err(Data)
        else Ok(Filled(values.value))
  }

  /** `parse_value`: peeks for `$` and decodes one bulk string. */
  method ParseValue(reader: ByteReader) returns (r: Result<Value, ArrayFormatError>)
    requires reader.Valid()
    modifies reader
    ensures reader.Valid()
    ensures (r, reader.offset) == DecodeValue(reader.data, old(reader.offset))
  {
    if reader.PeekByte() == Some(DOLLAR) {
      var bulk := BulkStrings.Parse(reader);
      if bulk.Ok? {
        return Ok(BulkString(bulk.value));
      }
      return Err(Data);
    }
    return Err(Data);
  }

  /** `parse`: decodes a whole message with a reader of its own. */
  method Parse(data: seq<byte>) returns (r: Result<Array, ArrayFormatError>)
    ensures r == DecodeArray(data)
  {
    var reader := new ByteReader(data);
    var prefix := reader.ReadByte();
    if prefix != Some(STAR) {
      return Err(Prefix);
    }
    var length := ReadLength(reader);
    if length.None? {
      return Err(Length);
    }
    var n := length.value;
    if n == -1 {
      if reader.BytesRemaining() != 2 {
        return Err(Data);
      }
      var ok := BulkStrings.ReadCrlf(reader);
      if !ok {
        return Err(LengthTrailer);
      }
      return Ok(Null);
    } else if n == 0 {
      if reader.BytesRemaining() != 2 {
        return Err(Data);
      }
      var ok := BulkStrings.ReadCrlf(reader);
      if !ok {
        return Err(LengthTrailer);
      }
      return Ok(Empty);
    } else {
      var ok := BulkStrings.ReadCrlf(reader);
      if !ok {
        return Err(LengthTrailer);
      }
      if n < -1 {
        return Err(Length);
      }
      var values := ReadValues(reader, n);
      if values.Err? {
        return Err(values.error);
      }
      if reader.BytesRemaining() != 0 {
        return Err(Data);
      }
      return Ok(Filled(values.value));
    }
  }

  /** The loop of `parse` that reads the `count` values, stopping at the first error. */
  method ReadValues(reader: ByteReader, n: nat) returns (r: Result<seq<Value>, ArrayFormatError>)
    requires reader.Valid()
    modifies reader
    ensures reader.Valid()
    ensures (r, reader.offset) == DecodeValues(reader.data, old(reader.offset), n)
  {
    ghost var start := reader.offset;
    var values: seq<Value> := [];
    PrependNothing(DecodeValues(reader.data, start, n));
    for i := 0 to n
      invariant reader.Valid()
      invariant start <= reader.offset
      invariant DecodeValues(reader.data, start, n) == Prepend(values, DecodeValues(reader.data, reader.offset, n - i))
    {
      ghost var before := reader.offset;
      var value := ParseValue(reader);
      ghost var rest := DecodeValues(reader.data, reader.offset, n - i - 1);
      if value.Err? {
        assert DecodeValues(reader.data, before, n - i) == (Err(value.error), reader.offset);
        return Err(value.error);
      }
      assert DecodeValues(reader.data, before, n - i) == Prepend([value.value], rest);
      PrependTwice(values, [value.value], rest);
      values := values + [value.value];
    }
    assert DecodeValues(reader.data, reader.offset, 0) == (Ok([]), reader.offset);
    assert values + [] == values;
    return Ok(values);
  }

  /** Helper of ReadValues: putting no values in front changes nothing. */
  lemma PrependNothing(out: (Result<seq<Value>, ArrayFormatError>, nat))
    ensures Prepend([], out) == out
  {
    if out.0.Ok? {
      assert [] + out.0.value == out.0.value;
    }
  }

  /** Helper of ReadValues: values put in front in two steps, or in one. */
  lemma PrependTwice(a: seq<Value>, b: seq<Value>, out: (Result<seq<Value>, ArrayFormatError>, nat))
    ensures Prepend(a, Prepend(b, out)) == Prepend(a + b, out)
  {
    if out.0.Ok? {
      assert a + (b + out.0.value) == (a + b) + out.0.value;
    }
  }

  /** The canonical frames of `values`, one after another. */
  function Frames(values: seq<Value>): seq<byte>
    decreases |values|
  {
    if values == [] then [] else BulkStrings.Frame(values[0].bulk) + Frames(values[1..])
  }

  /** The canonical message for `a`: `*-1\r\n`, `*0\r\n`, or the count and the frames. */
  function ArrayFrame(a: Array): seq<byte> {
    match a
    case Null => [STAR, MINUS, ZERO + 1, CR, LF]
    case Empty => [STAR, ZERO, CR, LF]
    case Filled(values) => [STAR] + DecimalText(|values|) + CRLF + Frames(values)
  }

  /** The canonical frames of well-formed values decode back to them, consuming exactly the frames. */
  lemma {:induction false} FramesDecode(data: seq<byte>, p: nat, values: seq<Value>)
    requires forall i :: 0 <= i < |values| ==> BulkStrings.WellFormed(values[i].bulk)
    requires p + |Frames(values)| <= |data| && data[p..p + |Frames(values)|] == Frames(values)
    ensures DecodeValues(data, p, |values|) == (Ok(values), p + |Frames(values)|)
    decreases |values|
  {
    hide DecodeValue, DecodeValues, BulkStrings.Frame, BulkStrings.Decode;
    if values == [] {
      NoValues(data, p);
    } else {
      var first := BulkStrings.Frame(values[0].bulk);
      var rest := Frames(values[1..]);
      var q := p + |first|;
      Split(data, p, first, rest);
      FrameIsValue(data, p, values[0].bulk);
      FramesDecode(data, q, values[1..]);
      ValuesStep(data, p, values[0], q, values[1..], q + |rest|);
      assert [values[0]] + values[1..] == values;
    }
  }

  lemma NoValues(data: seq<byte>, p: nat)
    requires p <= |data|
    ensures DecodeValues(data, p, 0) == (Ok([]), p)
  {
  }

  /** A canonical bulk-string frame at `p` is read as one value. */
  lemma FrameIsValue(data: seq<byte>, p: nat, bulk: BulkStrings.BulkString)
    requires BulkStrings.WellFormed(bulk)
    requires p + |BulkStrings.Frame(bulk)| <= |data| && data[p..p + |BulkStrings.Frame(bulk)|] == BulkStrings.Frame(bulk)
    ensures p + |BulkStrings.Frame(bulk)| <= |data|
    ensures DecodeValue(data, p) == (Ok(BulkString(bulk)), p + |BulkStrings.Frame(bulk)|)
  {
    var first := BulkStrings.Frame(bulk);
    BulkStrings.FrameDecodes(data, p, bulk);
    assert data[p] == data[p..p + |first|][0] == DOLLAR;
  }

  /** One step of DecodeValues: a value, then the rest. */
  lemma ValuesStep(data: seq<byte>, p: nat, v: Value, q: nat, rest: seq<Value>, e: nat)
    requires p <= q <= |data|
    requires DecodeValue(data, p) == (Ok(v), q)
    requires DecodeValues(data, q, |rest|) == (Ok(rest), e)
    ensures DecodeValues(data, p, |rest| + 1) == (Ok([v] + rest), e)
  {
  }

  /** A `$` frame that decodes is a value. */
  lemma ValueDecodes(data: seq<byte>, p: nat, bulk: BulkStrings.BulkString, q: nat)
    requires p < |data| && data[p] == DOLLAR
    requires BulkStrings.Decode(data, p) == (Ok(bulk), q)
    ensures DecodeValue(data, p) == (Ok(BulkString(bulk)), q)
  {
  }

  /** Round trip: the canonical message of every well-formed array decodes to it. */
  lemma ArrayRoundTrip(a: Array)
    requires WellFormedArray(a)
    ensures DecodeArray(ArrayFrame(a)) == Ok(a)
  {
    hide DecodeValues, DecodeValue, Frames;
    var data := ArrayFrame(a);
    match a
    case Null =>
      LengthEndAt(data, 1, 3);
      assert data[1..3] == [MINUS, ZERO + 1];
      assert data[1..3][1..] == [ZERO + 1];
      assert DigitsValue([ZERO + 1]) == 1;
    case Empty =>
      LengthEndAt(data, 1, 2);
      assert data[1..2] == [ZERO];
      assert DigitsValue([ZERO]) == 0;
    case Filled(values) =>
      FilledRoundTrip(values);
  }

  lemma FilledRoundTrip(values: seq<Value>)
    requires WellFormedArray(Filled(values))
    ensures DecodeArray(ArrayFrame(Filled(values))) == Ok(Filled(values))
  {
    hide DecodeValues, DecodeValue, Frames, DecimalText, ParseIsize, LengthEnd, BulkStrings.CrlfAt;
    var digits := DecimalText(|values|);
    var frames := Frames(values);
    var data := [STAR] + digits + CRLF + frames;
    assert data == ArrayFrame(Filled(values));
    var p := 1 + |digits|;
    CountLine(digits, frames);
    DecimalTextParses(|values|);
    FramesDecode(data, p + 2, values);
  }

  /** The count line `*<digits>\r\n` in front of `rest`: where the count text ends and what follows it. */
  lemma CountLine(digits: seq<byte>, rest: seq<byte>)
    requires AllDigits(digits)
    ensures var data := [STAR] + digits + CRLF + rest;
      && LengthEnd(data, 1) == 1 + |digits|
      && data[1..1 + |digits|] == digits
      && BulkStrings.CrlfAt(data, 1 + |digits|).0
      && data[3 + |digits|..] == rest
  {
    var data := [STAR] + digits + CRLF + rest;
    var p := 1 + |digits|;
    forall i | 1 <= i < p
      ensures data[i] != CR
    {
      assert data[i] == digits[i - 1];
    }
    assert data[p] == CR;
    LengthEndAt(data, 1, p);
    assert data[1..p] == digits;
    assert data[p..p + 2] == CRLF;
    assert data[p + 2..] == rest;
  }

  /** Decoding with bytes appended after values that decoded gives the same values and offset. */
  lemma {:induction false} ValuesIgnoreWhatFollows(data: seq<byte>, p: nat, n: nat, extra: seq<byte>)
    requires p <= |data|
    requires DecodeValues(data, p, n).0.Ok?
    ensures DecodeValues(data + extra, p, n) == DecodeValues(data, p, n)
    decreases n
  {
    hide BulkStrings.Decode, LengthEnd, ParseIsize;
    if n > 0 {
      var (v, q) := DecodeValue(data, p);
      assert (data + extra)[p] == data[p];
      BulkStrings.DecodeIgnoresWhatFollows(data, p, extra);
      assert DecodeValue(data + extra, p) == DecodeValue(data, p);
      ValuesIgnoreWhatFollows(data, q, n - 1, extra);
    }
  }

  /** A message is exactly one array: bytes after a complete array make it a Data error. */
  lemma TrailingBytesRejected(data: seq<byte>, extra: seq<byte>)
    requires DecodeArray(data).Ok?
    requires extra != []
    ensures DecodeArray(data + extra) == Err(Data)
  {
    hide DecodeValues, ParseIsize;
    var longer := data + extra;
    var p := LengthEnd(data, 1);
    var n := ParseIsize(data[1..p]).value;
    assert longer[0] == STAR;
    forall i | 1 <= i < p
      ensures longer[i] != CR
    {
      assert longer[i] == data[i];
    }
    assert longer[p] == data[p] == CR;
    LengthEndAt(longer, 1, p);
    assert longer[1..p] == data[1..p];
    assert longer[p..p + 2] == data[p..p + 2];
    if n >= 1 {
      ValuesIgnoreWhatFollows(data, p + 2, n, extra);
    }
  }

  /**
   * Which error the decoder reports: Prefix exactly when the message is empty
   * or does not start with `*`; Length exactly when the count text does not
   * parse as an isize, or parses below -1 and is followed by `\r\n`.
   */
  lemma DecodeArrayErrors(data: seq<byte>)
    ensures DecodeArray(data) == Err(Prefix) <==> |data| == 0 || data[0] != STAR
    ensures DecodeArray(data) == Err(Length) <==>
      && 0 < |data| && data[0] == STAR
      && var count := ParseIsize(CountText(data));
         count.None? || (count.value < -1 && BulkStrings.CrlfAt(data, LengthEnd(data, 1)).0)
  {
  }

  /**
   * The other two errors, in both directions. For a count of -1 or 0, Data
   * when anything but exactly two bytes follows the count text, and
   * LengthTrailer when those two are not `\r\n`. For any other count that
   * parses, LengthTrailer when `\r\n` does not follow it; for a positive
   * count, Data when a value fails or bytes are left after the last one.
   */
  lemma TrailerAndDataErrors(data: seq<byte>)
    ensures DecodeArray(data) == Err(LengthTrailer) <==>
      && 0 < |data| && data[0] == STAR
      && var count := ParseIsize(CountText(data));
         var p := LengthEnd(data, 1);
         && count.Some? && !BulkStrings.CrlfAt(data, p).0
         && (count.value == -1 || count.value == 0 ==> |data| - p == 2)
    ensures DecodeArray(data) == Err(Data) <==>
      && 0 < |data| && data[0] == STAR
      && var count := ParseIsize(CountText(data));
         var p := LengthEnd(data, 1);
         && count.Some?
         && if count.value == -1 || count.value == 0 then |data| - p != 2
            else
              && count.value > 0 && BulkStrings.CrlfAt(data, p).0
              && var (values, q) := DecodeValues(data, p + 2, count.value);
                 values.Err? || q != |data|
  {
    hide DecodeValues;
  }

  /** Where each of `n` values read from `p` ends; the next value starts where the previous one ends. */
  function ValueEnds(data: seq<byte>, p: nat, n: nat): (ends: seq<nat>)
    requires p <= |data|
    ensures |ends| == n
    ensures forall i :: 0 <= i < n ==> ends[i] <= |data|
    decreases n
  {
    if n == 0 then []
    else
      var q := DecodeValue(data, p).1;
      [q] + ValueEnds(data, q, n - 1)
  }

  /** The bulk-string decoder accepts `v` at `start`, a `$`, and stops at `end`. */
  predicate SpanAt(data: seq<byte>, start: nat, v: Value, end: nat) {
    start < |data| && data[start] == DOLLAR && BulkStrings.Decode(data, start) == (Ok(v.bulk), end)
  }

  /** Where the `i`-th value starts: at `p`, or where the one before it ends. */
  function SpanStart(p: nat, ends: seq<nat>, i: nat): nat
    requires i <= |ends|
  {
    if i == 0 then p else ends[i - 1]
  }

  /** One step of ValuesSpans: the first value is a span, and the rest are read after it. */
  lemma FirstSpan(data: seq<byte>, p: nat, n: nat)
    requires p <= |data| && 0 < n
    requires DecodeValues(data, p, n).0.Ok?
    ensures var (v, q) := DecodeValue(data, p);
      && v.Ok? && SpanAt(data, p, v.value, q)
      && DecodeValues(data, q, n - 1).0.Ok?
      && DecodeValues(data, p, n) == (Ok([v.value] + DecodeValues(data, q, n - 1).0.value), DecodeValues(data, q, n - 1).1)
      && ValueEnds(data, p, n) == [q] + ValueEnds(data, q, n - 1)
      && (n == 1 ==> DecodeValues(data, q, 0).1 == q)
  {
  }

  /** The first value starts at `p`. */
  lemma FirstStart(p: nat, ends: seq<nat>)
    ensures SpanStart(p, ends, 0) == p
  {
  }

  /** A span of the values after the first is the span one place earlier in the rest. */
  lemma LaterSpan(p: nat, q: nat, later: seq<nat>, i: nat)
    requires 0 < i <= |later|
    ensures SpanStart(p, [q] + later, i) == SpanStart(q, later, i - 1)
    ensures ([q] + later)[i] == later[i - 1]
  {
  }

  /**
   * Values that decoded are consecutive bulk-string frames: the `i`-th runs
   * from SpanStart to `ends[i]` and the bulk-string decoder accepts it there
   * as the `i`-th value; the last one ends where the values end.
   */
  lemma {:induction false} ValuesSpans(data: seq<byte>, p: nat, n: nat)
    requires p <= |data|
    requires DecodeValues(data, p, n).0.Ok?
    ensures n > 0 ==> ValueEnds(data, p, n)[n - 1] == DecodeValues(data, p, n).1
    ensures forall i :: 0 <= i < n ==>
      SpanAt(data, SpanStart(p, ValueEnds(data, p, n), i), DecodeValues(data, p, n).0.value[i], ValueEnds(data, p, n)[i])
    decreases n
  {
    hide DecodeValues, DecodeValue, ValueEnds, SpanAt, SpanStart;
    if n > 0 {
      FirstSpan(data, p, n);
      var q := DecodeValue(data, p).1;
      ValuesSpans(data, q, n - 1);
      var values := DecodeValues(data, p, n).0.value;
      var rest := DecodeValues(data, q, n - 1).0.value;
      var later := ValueEnds(data, q, n - 1);
      assert values == [DecodeValue(data, p).0.value] + rest;
      assert ValueEnds(data, p, n) == [q] + later;
      forall i | 0 <= i < n
        ensures SpanAt(data, SpanStart(p, [q] + later, i), values[i], ([q] + later)[i])
      {
        if i == 0 {
          FirstStart(p, [q] + later);
        } else {
          LaterSpan(p, q, later, i);
          assert values[i] == rest[i - 1];
        }
      }
      if n > 1 {
        LaterSpan(p, q, later, n - 1);
      }
    }
  }

  /**
   * The converse of ArrayRoundTrip for arrays with values: an accepted
   * message is `*`, a count text that parses to the number of values, `\r\n`,
   * then one bulk-string frame per value, in order and back to back, ending
   * exactly at the end of the message.
   */
  lemma ArrayShape(data: seq<byte>)
    requires DecodeArray(data).Ok? && DecodeArray(data).value.Filled?
    ensures var values := DecodeArray(data).value.values;
      var p := LengthEnd(data, 1);
      var ends := ValueEnds(data, p + 2, |values|);
      && 0 < |data| && data[0] == STAR
      && ParseIsize(CountText(data)) == Some(|values|)
      && p + 2 <= |data| && data[p..p + 2] == CRLF
      && ends[|values| - 1] == |data|
      && forall i :: 0 <= i < |values| ==> SpanAt(data, SpanStart(p + 2, ends, i), values[i], ends[i])
  {
    hide DecodeValues, DecodeValue, ValueEnds, SpanAt;
    var values := DecodeArray(data).value.values;
    var p := LengthEnd(data, 1);
    ValuesSpans(data, p + 2, |values|);
  }

  /**
   * `size_of::<Value>()` on a 64-bit target: a `Vec<u8>` (pointer, capacity,
   * length), the enum tags folded into its niche. This is an assumption about
   * the platform and the compiler's layout.
   */
  const VALUE_SIZE: nat := 24

  /**
   * `Vec::with_capacity(n)` panics with a capacity overflow when `n` values
   * take more than isize::MAX bytes.
   */
  const MAX_CAPACITY: nat := ISIZE_MAX / VALUE_SIZE

  /**
   * As written, `parse` reaches `Vec::with_capacity(length as usize)`
   * (src/array.rs:75) with a count below -1: the cast wraps to a huge
   * capacity and the allocation panics.
   */
  predicate ReachesNegativeCapacity(data: seq<byte>) {
    && 0 < |data| && data[0] == STAR
    && var count := ParseIsize(CountText(data));
       && count.Some? && count.value < -1
       && BulkStrings.CrlfAt(data, LengthEnd(data, 1)).0
  }

  /**
   * As written, `parse` also reaches `Vec::with_capacity(length as usize)`
   * with a positive count too large for the capacity, which panics before a
   * single value is read.
   */
  predicate ReachesOversizedCapacity(data: seq<byte>) {
    && 0 < |data| && data[0] == STAR
    && var count := ParseIsize(CountText(data));
       && count.Some? && count.value > MAX_CAPACITY
       && BulkStrings.CrlfAt(data, LengthEnd(data, 1)).0
  }

  /** Every message on which the allocation of src/array.rs:75 panics. */
  predicate ReachesCapacityOverflow(data: seq<byte>) {
    ReachesNegativeCapacity(data) || ReachesOversizedCapacity(data)
  }

  /** `*-2\r\n` is such a message. */
  lemma NegativeCountOverflows()
    ensures ReachesNegativeCapacity(Ascii("*-2\r\n"))
    ensures ReachesCapacityOverflow(Ascii("*-2\r\n"))
  {
    var data := Ascii("*-2\r\n");
    LengthEndAt(data, 1, 3);
    assert CountText(data) == [MINUS, ZERO + 2];
    assert CountText(data)[1..] == [ZERO + 2];
    assert DigitsValue([ZERO + 2]) == 2;
    assert data[3..5] == CRLF;
  }

  /** A count of 10^18, far below isize::MAX and far above the capacity limit. */
  const HUGE_COUNT: nat := 1_000_000_000_000_000_000

  /** `*1000000000000000000\r\n` is such a message too. */
  lemma HugeCountOverflows()
    ensures ReachesOversizedCapacity([STAR] + DecimalText(HUGE_COUNT) + CRLF)
    ensures ReachesCapacityOverflow([STAR] + DecimalText(HUGE_COUNT) + CRLF)
  {
    CountLine(DecimalText(HUGE_COUNT), []);
    assert [STAR] + DecimalText(HUGE_COUNT) + CRLF + [] == [STAR] + DecimalText(HUGE_COUNT) + CRLF;
    DecimalTextParses(HUGE_COUNT);
  }

  /** With the check, a count below -1 is a Length error. */
  lemma NegativeCountRejected(data: seq<byte>)
    requires ReachesNegativeCapacity(data)
    ensures DecodeArray(data) == Err(Length)
  {
  }

  /** A value that decodes consumes at least one byte. */
  lemma ValueConsumes(data: seq<byte>, p: nat)
    requires p <= |data|
    requires DecodeValue(data, p).0.Ok?
    ensures DecodeValue(data, p).1 > p
  {
    BulkStrings.DecodeShape(data, p);
  }

  /** `n` values that decode consume at least `n` bytes. */
  lemma {:induction false} ValuesConsume(data: seq<byte>, p: nat, n: nat)
    requires p <= |data|
    requires DecodeValues(data, p, n).0.Ok?
    ensures DecodeValues(data, p, n).1 >= p + n
    decreases n
  {
    if n > 0 {
      var (v, q) := DecodeValue(data, p);
      ValueConsumes(data, p);
      ValuesConsume(data, q, n - 1);
    }
  }

  /**
   * Without the allocation, a count larger than the bytes left after the
   * count line is a Data error: the values run out before the count is
   * reached. This covers every oversized count of a message that fits in
   * memory.
   */
  lemma CountBeyondBufferRejected(data: seq<byte>)
    requires 0 < |data| && data[0] == STAR
    requires var count := ParseIsize(CountText(data));
      && count.Some? && count.value > 0
      && BulkStrings.CrlfAt(data, LengthEnd(data, 1)).0
      && count.value > |data| - (LengthEnd(data, 1) + 2)
    ensures DecodeArray(data) == Err(Data)
  {
    var p := LengthEnd(data, 1);
    var count := ParseIsize(CountText(data)).value;
    if DecodeValues(data, p + 2, count).0.Ok? {
      ValuesConsume(data, p + 2, count);
    }
  }

  /** So `*1000000000000000000\r\n` is a Data error, not a panic. */
  lemma HugeCountRejected()
    ensures DecodeArray([STAR] + DecimalText(HUGE_COUNT) + CRLF) == Err(Data)
  {
    HugeCountOverflows();
    CountBeyondBufferRejected([STAR] + DecimalText(HUGE_COUNT) + CRLF);
  }

  /** The three messages of the source's unit tests. */
  lemma UnitTestMessages()
    ensures DecodeArray(Ascii("*0\r\n")) == Ok(Empty)
    ensures DecodeArray(Ascii("*-1\r\n")) == Ok(Null)
  {
    assert Ascii("*0\r\n") == ArrayFrame(Empty);
    ArrayRoundTrip(Empty);
    assert Ascii("*-1\r\n") == ArrayFrame(Null);
    ArrayRoundTrip(Null);
  }

  /** `*2\r\n$5\r\nhello\r\n$5\r\nworld\r\n`, the count line and the two frames, decodes to both values. */
  lemma TwoBulkStringsMessage()
    ensures DecodeArray(Ascii("*2\r\n") + Ascii("$5\r\nhello\r\n") + Ascii("$5\r\nworld\r\n"))
      == Ok(Filled([BulkString(BulkStrings.Filled(Ascii("hello"))), BulkString(BulkStrings.Filled(Ascii("world")))]))
  {
    hide DecodeArray, DecodeValues, DecodeValue;
    var hello := BulkString(BulkStrings.Filled(Ascii("hello")));
    var world := BulkString(BulkStrings.Filled(Ascii("world")));
    var a := Filled([hello, world]);
    HelloWorldFrames();
    assert DecimalText(2) == Ascii("2");
    assert ArrayFrame(a) == Ascii("*2\r\n") + Ascii("$5\r\nhello\r\n") + Ascii("$5\r\nworld\r\n");
    ArrayRoundTrip(a);
  }

  lemma HelloWorldFrames()
    ensures Frames([BulkString(BulkStrings.Filled(Ascii("hello"))), BulkString(BulkStrings.Filled(Ascii("world")))])
      == Ascii("$5\r\nhello\r\n") + Ascii("$5\r\nworld\r\n")
  {
    var hello := BulkString(BulkStrings.Filled(Ascii("hello")));
    var world := BulkString(BulkStrings.Filled(Ascii("world")));
    assert BulkStrings.Frame(hello.bulk) == Ascii("$5\r\nhello\r\n");
    assert BulkStrings.Frame(world.bulk) == Ascii("$5\r\nworld\r\n");
    assert [hello, world][1..] == [world];
    assert Frames([world]) == Ascii("$5\r\nworld\r\n") + Frames([]);
  }
}
