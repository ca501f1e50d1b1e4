# red: a verified model of the protocol core

`red` is a small Redis-like key-value server written in Rust. Clients send
each request as one RESP2 message: an array of bulk strings. The server
decodes it, runs the command on an in-memory map from bulk strings to bulk
strings, and writes back an encoded reply. This project models that core in
Dafny and proves properties of the model. The core is:

- **The byte cursor.** `ByteReader` is an immutable buffer with one
  forward-only offset. It is the class `Reader.ByteReader`, with its methods
  proved against contracts on that offset.
- **The length line.** `read_length` is `Utils.ReadLength`. It consumes the
  bytes up to the next `\r` and parses them with the pure `Utils.ParseIsize`.
  That function models `str::from_utf8` followed by `isize::from_str` on a
  64-bit target.
- **The bulk-string decoder.** `bulk_string::parse` is `BulkStrings.Parse`,
  with `BulkStrings.ParsePayload` and `BulkStrings.ReadCrlf`. Each runs on
  the cursor and is proved equal to a pure specification: `BulkStrings.Decode`,
  `BulkStrings.DecodeAfterLength` and `BulkStrings.CrlfAt`. A specification
  gives both the outcome and the offset where the reader is left.
- **The array decoder.** `array::parse` and `parse_value` are `Arrays.Parse`,
  `Arrays.ReadValues` and `Arrays.ParseValue`. They are proved equal to
  `Arrays.DecodeArray`, `Arrays.DecodeValues` and `Arrays.DecodeValue`.
- **The encoder.** The reply encoder of `src/commands/mod.rs` is
  `Responses.Encode`. It is paired with the decoder: a bulk-string reply
  decodes back to its bytes.
- **The handlers.** SET, GET and DEL work on the store `Commands.Data`, a
  class whose `entries` map is changed in place. Each handler has a
  declarative `Outcome` (or is itself a function, for GET), and each
  imperative handler is proved to produce exactly that outcome.
- **The two PING snapshots.** Both are functions producing the reply bytes.
  They are tied to `Responses.Encode` and to each other.

The round trips are:

- every well-formed bulk string and array decodes back from its canonical
  encoding (`BulkStrings.FrameDecodes`, `Arrays.ArrayRoundTrip`);
- a decoded frame does not depend on the bytes after it;
- each of the four decoder errors (Prefix, Length, LengthTrailer, Data)
  is characterised in both directions, for bulk strings and for arrays.

The source files come from two revisions:

- **`src/commands/mod.rs`** has a reply with
  `BulkString(Vec<u8>)`. It is modelled as `Responses.Response`.
- **The SET, GET and DEL handlers** use a later reply type. It carries a
  whole bulk-string value and an `Integer`, and the handlers take the store
  as an argument. It is modelled as `Commands.Response`.

`bulk_string_or_error!` is not part of this model. Each handler takes it as
the parameter `Commands.ArgumentGuard`: a predicate saying which arguments
pass, and the reply returned for the others. `read_crlf` is not part of this
model either. It is modelled as the inline two-byte check of
`src/bulk_string.rs:37-43`: read `\r`, then `\n`, and succeed only if both
match.

Two more facts about the code shape the model:

- **DEL's refusal.** When the guard refuses an argument, DEL returns the
  guard's reply unchanged (`src/commands/del.rs:16`). Keys removed before
  that argument stay removed.
- **The payload read.** The payload is taken with `slice`
  (`src/bulk_string.rs:69-70`). It is modelled by that name as
  `Reader.ByteReader.Slice`.

The decoders as modelled are the corrected ones. They carry the fixes
recorded under Findings: a payload shorter than declared is a Data error,
and a count below -1 is a Length error. The source panics in both cases.
For a count too large to allocate, the model does not allocate; it reads
the values and ends in a Data error when they run out.

## Model

Some members only define what the rows below prove things about, and have no row of their own: `SetCommand.Classify`, `SetCommand.Options` and `OptionsFrom`, `SetCommand.Outcome`, `DelCommand.Outcome`, `Bytes.DecimalText`, `Bytes.ValidUtf8`, and `Arrays.ValueEnds`. `Arrays.PrependNothing` and `PrependTwice` are sequence facts used by `Arrays.ReadValues`.

| member | source | states |
|---|---|---|
| Reader.ByteReader.constructor | src/byte_reader.rs:7-9 | a new reader is over `data`, at offset 0 |
| Reader.ByteReader.ReadByte | src/byte_reader.rs:11-21 | it returns None and leaves the offset unchanged exactly when no byte remains; otherwise it returns `data[offset]` and advances by one |
| Reader.ByteReader.PeekByte | src/byte_reader.rs:23-29 | it returns what ReadByte would return (None at the end, otherwise `data[offset]`); as a function it cannot change the offset |
| Reader.ByteReader.BytesRemaining | src/byte_reader.rs:31-33 | the count of bytes left is at most the buffer length and adds up with the offset to it (no underflow) |
| Reader.ByteReader.ReadWhile | src/byte_reader.rs:35-50 | the result is `data[start..offset']` and every byte of it satisfies `f`; the run is maximal (at the end, or the next byte fails `f`); the offset never goes back |
| Reader.ByteReader.Slice | src/byte_reader.rs:52-58 | given `length <= BytesRemaining()`, the result is exactly the next `length` bytes and the offset advances by `length` |
| Utils.AccumulateDigits | src/utils.rs:7-9 | the digit loop of `isize::from_str` succeeds exactly when all bytes are digits and the signed value fits in isize, and then it yields that value |
| Utils.ParseIsize | src/utils.rs:7-9 | it gives Some exactly for an optional sign followed by at least one digit whose value fits in isize, and then it gives that value (empty text gives None) |
| Utils.IntegerTextIsUtf8 | src/utils.rs:7 | integer text is ASCII, so the UTF-8 step never rejects it |
| Utils.DecimalTextParses | src/utils.rs:7-9 | every k in 0..=isize::MAX parses back from its decimal text |
| Utils.DecimalTextOverflows | src/utils.rs:7-9 | decimal text of a number above isize::MAX does not parse |
| Utils.LengthEnd | src/utils.rs:5 | the end of the length text is the first `\r` at or after the start, or the end of the buffer |
| Utils.ReadLength | src/utils.rs:4-10 | it consumes exactly the bytes before the first `\r` (never the `\r` itself), and the result is ParseIsize of them |
| BulkStrings.CrlfAt | src/bulk_string.rs:37-43 | it succeeds exactly when `\r\n` comes next, and then two bytes are consumed; on failure at most two bytes are consumed |
| BulkStrings.ReadCrlf | src/bulk_string.rs:37-43 | the reader-driven check gives the same verdict and final offset as CrlfAt |
| BulkStrings.Decode | src/bulk_string.rs:21-83 | the reader stays within the buffer, and every success is well-formed: Null, Empty, or a payload of 1..=MAX_BULK_STRING_LENGTH bytes (corrected decoder; see Findings) |
| BulkStrings.DecodeAfterLength | src/bulk_string.rs:35-82 | after a length in range, the only errors are LengthTrailer and Data, and a success declares exactly that length (corrected: a short payload is Data; see Findings) |
| BulkStrings.Parse | src/bulk_string.rs:21-83 | the reader-driven parse returns Decode's outcome and leaves the reader at Decode's offset (corrected decoder; see Findings) |
| BulkStrings.ParsePayload | src/bulk_string.rs:35-82 | the match on the length (including the two-round loop for length 0) agrees with DecodeAfterLength (corrected: the remaining bytes are checked before the slice; see Findings) |
| BulkStrings.DecodesFrame | src/bulk_string.rs:21-83 | `$`, length text that parses to the declared length, then the frame tail decodes to the value, consuming exactly that frame |
| BulkStrings.TailStartsWithCrlf | src/bulk_string.rs:37-43 | every frame tail starts with the `\r\n` that ends the length line |
| BulkStrings.TailDecodes | src/bulk_string.rs:35-82 | the tail of a frame for `v` (`\r\n`, `\r\n\r\n`, or `\r\n` payload `\r\n`) decodes to `v` and is consumed exactly |
| BulkStrings.FrameParts | src/bulk_string.rs:21-33 | in `$` + text + tail, the length line ends right after the text, and the text is what read_length consumes |
| BulkStrings.LengthDigitsParse | src/bulk_string.rs:26-33 | the length text of a canonical frame has no `\r` and parses to the declared length |
| BulkStrings.FrameDecodes | src/bulk_string.rs:21-83 | round trip: the canonical frame of every well-formed value decodes to that value, consuming exactly the frame, wherever it lies in the buffer |
| BulkStrings.DecodeErrors | src/bulk_string.rs:22-33 | Prefix exactly when the first byte is missing or not `$`; Length exactly when the length text does not parse, or parses outside -1..=MAX_BULK_STRING_LENGTH; after a Length error the reader stands at the `\r` |
| BulkStrings.TrailerAndDataErrors | src/bulk_string.rs:35-82 | LengthTrailer exactly when an accepted length is not followed by `\r\n` (for length 0, twice); Data exactly when a positive length is followed by `\r\n` but fewer bytes remain than declared or the payload is not followed by `\r\n` |
| BulkStrings.DecodeShape | src/bulk_string.rs:21-83 | the converse of DecodesFrame: every success was `$`, length text parsing to the declared length, then the tail, and the reader ends right after it |
| BulkStrings.TailShape | src/bulk_string.rs:35-82 | a successful decode after the length line consumed exactly the frame tail of its result |
| BulkStrings.DecodeIgnoresWhatFollows | src/bulk_string.rs:21-83 | a successful decode is unchanged by bytes appended after the frame: nothing further is read |
| BulkStrings.TruncatedPayloadOverrunsSlice | src/bulk_string.rs:69-70 | the message `$5\r\nhi` reaches `reader.slice(5)` with only two bytes left |
| BulkStrings.TruncatedPayloadRejected | src/bulk_string.rs:69-78 | with the missing check in place, a payload shorter than declared is a Data error and the reader stays after the length line |
| BulkStrings.NullFrameDecodes | src/bulk_string.rs:96-100 | `$-1\r\n` decodes to Null and consumes 5 bytes |
| BulkStrings.EmptyFrameDecodes | src/bulk_string.rs:89-93 | `$0\r\n\r\n` decodes to Empty and consumes 6 bytes |
| BulkStrings.HelloFrameDecodes | src/bulk_string.rs:103-110 | `$5\r\nhello\r\n` decodes to Filled("hello") and consumes 11 bytes |
| Arrays.DecodeValue | src/array.rs:25-33 | the only error is Data (a missing `$` or any bulk-string error), and a success is a well-formed bulk string |
| Arrays.DecodeValues | src/array.rs:77-79 | reading `n` values in order either yields exactly `n` well-formed values or stops with Data |
| Arrays.DecodeArray | src/array.rs:35-88 | every accepted array is well-formed, and the message was `*`, a count text, then `\r\n`. Null and Empty had counts -1 and 0 with nothing after the `\r\n`. For Filled(vs), the count parses to exactly \|vs\| and the \|vs\| values decode in order from right after the count line to the end of the message (corrected: no allocation for the count; see Findings) |
| Arrays.ParseValue | src/array.rs:25-33 | the peek-then-parse on the reader agrees with DecodeValue, outcome and offset |
| Arrays.Parse | src/array.rs:35-88 | the reader-driven parse of a whole message returns DecodeArray's verdict (corrected decoder; see Findings) |
| Arrays.ReadValues | src/array.rs:75-79 | the `for _ in 0..length` loop with `?` agrees with DecodeValues, outcome and offset |
| Arrays.ValuesSpans | src/array.rs:25-79 | values that decoded are back-to-back bulk-string frames: the i-th starts with `$` where the previous one ended, the bulk-string decoder accepts it there as the i-th value, and the last ends where reading stopped |
| Arrays.FramesDecode | src/array.rs:77-79 | the canonical frames of well-formed values decode back to those values, in order, consuming exactly the frames |
| Arrays.FrameIsValue | src/array.rs:25-30 | a canonical bulk-string frame is read by parse_value as one value |
| Arrays.ValueDecodes | src/array.rs:25-30 | a `$` frame that the bulk-string decoder accepts is the same value to parse_value, with the same end |
| Arrays.ArrayShape | src/array.rs:35-88 | the converse of the round trip for arrays with values: an accepted message, canonical or not, is `*`, a count text parsing to the number of values, `\r\n`, then one accepted bulk-string frame per value, in order and back to back, ending exactly at the end of the message |
| Arrays.ArrayRoundTrip | src/array.rs:35-88 | round trip: the canonical message of every well-formed array (`*-1\r\n`, `*0\r\n`, or count line and frames) decodes to that array |
| Arrays.FilledRoundTrip | src/array.rs:70-86 | round trip for arrays with values, through the count line, the values and the final end-of-buffer check |
| Arrays.ValuesIgnoreWhatFollows | src/array.rs:77-79 | values that decoded are unchanged, with the same end, by bytes appended after them |
| Arrays.TrailingBytesRejected | src/array.rs:48-85 | one message is exactly one array: any bytes after a complete array turn the verdict into a Data error |
| Arrays.DecodeArrayErrors | src/array.rs:38-45 | Prefix exactly when the message is empty or does not start with `*`; Length exactly when the count text does not parse as isize, or is below -1 and followed by `\r\n` |
| Arrays.TrailerAndDataErrors | src/array.rs:48-86 | for a count of -1 or 0, Data exactly when other than two bytes follow the count text, LengthTrailer exactly when those two are not `\r\n`; for any other count, LengthTrailer exactly when `\r\n` does not follow it, and for a positive one Data exactly when a value fails or bytes are left over |
| Arrays.NegativeCountOverflows | src/array.rs:70-75 | the message `*-2\r\n` reaches `Vec::with_capacity(length as usize)` with a negative length |
| Arrays.HugeCountOverflows | src/array.rs:70-75 | the message `*1000000000000000000\r\n` reaches `Vec::with_capacity(length as usize)` with more values than isize::MAX bytes can hold (24 bytes per value) |
| Arrays.NegativeCountRejected | src/array.rs:70-75 | with a range check in place, a count below -1 is a Length error |
| Arrays.ValuesConsume | src/array.rs:77-79 | reading `n` values successfully consumes at least `n` bytes |
| Arrays.CountBeyondBufferRejected | src/array.rs:70-83 | without the allocation, a positive count larger than the bytes left after the count line is a Data error |
| Arrays.HugeCountRejected | src/array.rs:70-83 | so `*1000000000000000000\r\n` is a Data error rather than a panic |
| Arrays.UnitTestMessages | src/array.rs:94-97 | `*0\r\n` decodes to Empty and `*-1\r\n` to Null, as in src/array.rs:122-125 |
| Arrays.TwoBulkStringsMessage | src/array.rs:99-108 | `*2\r\n$5\r\nhello\r\n$5\r\nworld\r\n` decodes to the two values hello and world |
| Responses.Encode | src/commands/mod.rs:16-47 | the first byte names the kind of reply (`+`, `-`, `$`); every encoding ends in `\r\n`; the length is \|text\|+3 for a simple string or error, and 1 + \|decimal(\|b\|)\| + 2 + \|b\| + 2 for a bulk string |
| Responses.EncodeInjective | src/commands/mod.rs:16-47 | different replies never share an encoding |
| Responses.BulkEncodingDeterminesBytes | src/commands/mod.rs:35-43 | a bulk-string encoding determines its payload: the length text fixes the length, and the length fixes the bytes |
| Responses.BulkReplyIsFrame | src/commands/mod.rs:35-43 | the bulk-string encoding is the canonical bulk-string frame of its value, for any payload length including zero |
| Responses.BulkReplyDecodes | src/commands/mod.rs:35-43 | round trip with src/bulk_string.rs: a bulk reply of at most MAX_BULK_STRING_LENGTH bytes decodes to its bytes and is consumed completely |
| Responses.OversizedBulkReplyRejected | src/commands/mod.rs:13-14 | the encoder writes longer bulk strings too, but the decoder refuses them with a Length error |
| SetCommand.ClassifyFilled | src/commands/set.rs:31-35 | a filled option is XX, NX or GET exactly when its upper-cased bytes spell that word |
| SetCommand.OptionsIgnoreCase | src/commands/set.rs:31-35 | `xx`, `Nx` and `gEt` read as XX, NX and GET; `EX` is an unknown option |
| SetCommand.OptionsAccepted | src/commands/set.rs:21-62 | the options are accepted exactly when each is XX, NX or GET and at most one is XX or NX (so XX XX and NX XX are refused too); the result is IfExists exactly when XX was given, IfNotExists exactly when NX was, and Get exactly when GET was; a refusal is the invalid-type, conflict or invalid-option error |
| SetCommand.OptionsFromAccepted | src/commands/set.rs:21-62 | the same characterisation from any state of the option loop |
| SetCommand.FirstOffenceDecides | src/commands/set.rs:21-62 | the first offending option decides the error: a non-text option gives the invalid-type error, an unknown word the invalid-option error, and a second XX or NX the conflict error, whatever follows |
| SetCommand.FirstOffenceFrom | src/commands/set.rs:21-62 | the same, from any state of the option loop |
| SetCommand.ParseOptions | src/commands/set.rs:21-62 | the loop with early returns over the options gives the declarative result Options |
| SetCommand.Execute | src/commands/set.rs:64-139 | the six-way branch on the store gives exactly the reply and new store of Outcome: the count check, the key and value guards, the option errors, then the Decide rule |
| SetCommand.WritesOnlyKey | src/commands/set.rs:85-136 | SET leaves the store unchanged or writes exactly `key := value`; no other key changes |
| SetCommand.RefusalsLeaveStore | src/commands/set.rs:66-82 | a wrong argument count, a rejected key or value, and a bad option each give their error and leave the store unchanged |
| SetCommand.PlainSetStores | src/commands/set.rs:85-96 | without XX or NX, SET stores the value (overwriting), and without GET it replies OK |
| SetCommand.IfExistsRule | src/commands/set.rs:97-116 | with XX, an absent key gives Null and no change; a present key is overwritten |
| SetCommand.IfNotExistsRule | src/commands/set.rs:117-136 | with NX, an absent key is stored; a present key is kept, and the reply is Null without GET or the existing value with GET |
| SetCommand.GetRepliesPriorValue | src/commands/set.rs:90-136 | with GET, every branch replies the value held before the call, or Null if there was none |
| GetCommand.Execute | src/commands/get.rs:8-19 | a count other than one is the wrong-number error; a rejected key gives the guard's reply; otherwise the stored value or Null. It is a function of the map, so the store is never changed |
| GetCommand.ReadsBackSet | src/commands/get.rs:8-19 | after a SET that writes, GET of the key replies the value written; after a SET that does not write, GET replies what it replied before |
| DelCommand.FirstRejected | src/commands/del.rs:15-21 | the loop stops at the first argument the guard refuses: all before it pass, and it does not (or the list ends) |
| DelCommand.Execute | src/commands/del.rs:8-24 | the in-place loop gives exactly the reply and store of Outcome: no arguments is an error; otherwise the keys named before the first refused argument are removed, and the count is the number of distinct named keys that were present |
| DelCommand.RejectedAt | src/commands/del.rs:15-21 | the index where the guard first refuses is unique |
| DelCommand.KeysStep | src/commands/del.rs:15-21 | each argument adds its key to the set of named keys |
| DelCommand.CountStep | src/commands/del.rs:18-20 | the counter grows exactly when the key is still present, so a repeated key counts once |
| DelCommand.KeysBound | src/commands/del.rs:15-21 | the arguments name at most as many keys as there are arguments |
| DelCommand.RemovesNamedKeys | src/commands/del.rs:13-23 | no named key (before a refusal) remains, every other entry keeps its value, nothing is added, and a completed DEL replies a count between 0 and the number of arguments; a refusal mid-loop keeps the earlier removals |
| PingCommand.Execute | src/commands/ping.rs:8-31 | no arguments is the encoding of PONG; one Null or Empty argument is the encoded unexpected-null or unexpected-empty error; one Filled argument is its bulk-string encoding; two or more is the encoded wrong-number error |
| PingCommand.SimpleLine | src/commands/ping.rs:10 | a `+...\r\n` literal is the encoding of a simple-string reply |
| PingCommand.ErrorLine | src/commands/ping.rs:14-15 | a `-...\r\n` literal is the encoding of an error reply |
| PingCommand.EchoReadsBack | src/commands/ping.rs:16-24 | the echo of a message decodes back to it and is consumed completely |
| LegacyPing.Execute | src/ping.rs:8-31 | with no values at all (not even the command name) the reply is the encoded wrong-number error |
| LegacyPing.AgreesWithCommandsPing | src/ping.rs:8-31 | for every name and arguments, the older PING on the name followed by the arguments replies exactly what the newer one replies on the arguments, so the name is never inspected |
| Scenarios.NoOptions | src/commands/set.rs:160-176 | SET then SET again both reply OK, and the second value is stored |
| Scenarios.XxNotMet | src/commands/set.rs:178-186 | SET XX on an empty store replies Null and leaves it empty |
| Scenarios.XxMet | src/commands/set.rs:188-201 | SET XX over an existing key replies OK and overwrites |
| Scenarios.NxNotMet | src/commands/set.rs:203-215 | SET NX over an existing key replies Null and keeps the old value |
| Scenarios.NxMet | src/commands/set.rs:217-233 | the first SET NX replies OK; the second replies Null and the first value stays |
| Scenarios.SetGet | src/commands/set.rs:235-246 | SET GET replies Null the first time and the prior value the second time |
| Scenarios.XxGetNotMet | src/commands/set.rs:248-267 | SET XX GET on an empty store replies Null; after a direct insert it replies the inserted value and overwrites it |
| Scenarios.XxGetMet | src/commands/set.rs:269-280 | SET XX GET over an existing key replies the old value and stores the new one |
| Scenarios.NxGetNotMet | src/commands/set.rs:282-294 | SET NX GET over an existing key replies the old value and keeps it |
| Scenarios.NxGetMet | src/commands/set.rs:296-312 | the first SET NX GET replies Null; the second replies the stored value and keeps it |
| Scenarios.GetAfterSet | src/commands/get.rs:8-19 | GET after SET replies the stored value; GET of an unknown key replies Null |
| Scenarios.DelRepeatedKey | src/commands/del.rs:8-24 | `DEL key value key` on a store holding only `key` replies 1 and leaves the store empty |

## Left out

- The socket loop of `src/main.rs` is not modelled. That covers binding, one thread per connection, the blocking read and write, the 1024-byte buffer and the debug output. It is I/O and concurrency.
- `benchmark.ts` is left out. It is a load generator that uses the network and timers.
- The `Command` traits of `src/command.rs` and `src/commands/mod.rs:3-5` are left out. They are signatures with no behaviour; each handler is a member of its own module instead.
- Locking of the store across connections is not modelled, because no lock appears in the code. Each handler gets the map.
- The encoding of the later reply type (`Commands.Response`, with Null bulk strings and `Integer`) is not modelled. The encoder for it is not part of this model; only the encoder of `src/commands/mod.rs` is.
- `bulk_string_or_error!` stays an abstract parameter (`Commands.ArgumentGuard`). Which arguments it refuses and what it replies are not known. The model assumes that its reply does not depend on the refused argument: `rejection` sees only an optional message, not the argument.
- Allocation is not modelled: `vec![0; n]`, `copy_from_slice` and `Vec::with_capacity`. Payloads and value lists are sequences. The places where allocation or slicing panics are recorded under Findings. A count of at most isize::MAX/24 values can still fail to allocate on a given machine; that depends on available memory and is not modelled.
- BulkStrings.Decode: this is the corrected decoder. It checks that the declared payload fits before reading it, where the source panics (see Findings).
- BulkStrings.DecodeAfterLength: it carries the same correction as BulkStrings.Decode.
- BulkStrings.Parse: it carries the same correction, as an explicit check before `slice`.
- BulkStrings.ParsePayload: it carries the same correction, as an explicit check before `slice`.
- Arrays.DecodeArray: this is the corrected decoder. A count below -1 is a Length error, and a count too large to allocate is read value by value, where the source panics in `Vec::with_capacity` (see Findings).
- Arrays.Parse: it carries the same correction as Arrays.DecodeArray.
- SetCommand.Classify: the options are compared with ASCII upper-casing of valid UTF-8, not with the full Unicode `to_uppercase`. No non-ASCII character upper-cases to the letters of XX, NX or GET, so the verdict is the same. The UTF-8 check itself is modelled.
- Bytes.Ascii: the string literals of the source are turned into bytes one character per byte. This is exact for the ASCII text the source uses, and is not meant for other characters.
- Utils.ParseIsize: `isize` is modelled as 64 bits wide. A 32-bit target would have a smaller range.
- GetCommand.Execute: the source takes the store as `&mut Data` but never writes it. The model is a function of the map, so "nothing changes" holds by construction rather than being stated as a contract.

## Findings

| source | as written | input that shows it | evidently intended | confidence | as-written member | corrected member |
|---|---|---|---|---|---|---|
| src/bulk_string.rs:69-70 | after a valid length line, `reader.slice(length)` is called without checking that `length` bytes remain, and slicing past the end panics | `$5\r\nhi` | a payload shorter than declared is a `Data` error, like a missing `\r\n` after it | high (not executed) | BulkStrings.TruncatedPayloadOverrunsSlice | BulkStrings.TruncatedPayloadRejected |
| src/array.rs:75 | for any count other than -1 and 0, `Vec::with_capacity(length as usize)` runs; a count below -1 wraps to a huge capacity and the allocation panics, although the loop would not run | `*-2\r\n` | a count below -1 is a `Length` error, as the bulk-string decoder does for its own length | high (not executed) | Arrays.NegativeCountOverflows | Arrays.NegativeCountRejected |
| src/array.rs:75 | a positive count above isize::MAX/24 (24 bytes being the size of a value on a 64-bit target) also makes `Vec::with_capacity` panic with a capacity overflow, before any value is read | `*1000000000000000000\r\n` | a count the message cannot satisfy is a `Data` error, as when the values run out | medium (not executed; assumes a 24-byte value) | Arrays.HugeCountOverflows | Arrays.HugeCountRejected |
