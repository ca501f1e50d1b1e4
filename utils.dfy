/**
 * src/utils.rs: reading the signed decimal length line of a frame header.
 * The reading step moves the cursor; turning the consumed bytes into an
 * `isize` is a pure function (`str::from_utf8` followed by `str::parse`).
 */
module Utils {
  import opened Wrappers
  import opened Bytes
  import opened Reader

  /** `isize` on a 64-bit target. */
  const ISIZE_MIN: int := -0x8000_0000_0000_0000
  const ISIZE_MAX: int := 0x7FFF_FFFF_FFFF_FFFF

  predicate InIsize(v: int) {
    ISIZE_MIN <= v <= ISIZE_MAX
  }

  function Signed(negative: bool, magnitude: nat): int {
    if negative then -(magnitude as int) else magnitude
  }

  /** Optional `+` or `-`, then at least one ASCII digit: the text Rust's integer `FromStr` accepts. */
  predicate IsIntegerText(s: seq<byte>) {
    && 1 <= |s|
    && (if s[0] == PLUS || s[0] == MINUS then 2 <= |s| && AllDigits(s[1..]) else AllDigits(s))
  }

  /** The mathematical value of integer text. */
  function TextValue(s: seq<byte>): int
    requires IsIntegerText(s)
  {
    if s[0] == PLUS then DigitsValue(s[1..])
    else if s[0] == MINUS then -(DigitsValue(s[1..]) as int)
    else DigitsValue(s)
  }

  /**
   * The digit loop of Rust's `isize::from_str`: left to right, multiply the
   * accumulator by ten and add (or, after a minus sign, subtract) the digit,
   * failing on a non-digit or as soon as a step leaves the `isize` range.
   */
  function AccumulateDigits(digits: seq<byte>, negative: bool): (r: Option<int>)
    ensures r.Some? <==> AllDigits(digits) && InIsize(Signed(negative, DigitsValue(digits)))
    ensures r.Some? ==> AllDigits(digits) && r.value == Signed(negative, DigitsValue(digits))
    decreases |digits|
  {
    if digits == [] then Some(0)
    else
      var prefix := digits[..|digits| - 1];
      var d := digits[|digits| - 1];
      assert AllDigits(digits) ==> AllDigits(prefix);
      match AccumulateDigits(prefix, negative)
      case None => None
      case Some(acc) =>
        if !IsDigit(d) then None
        else
          var next := if negative then acc * 10 - (d - ZERO) else acc * 10 + (d - ZERO);
          if InIsize(next) then Some(next) else None
  }

  /** `str::from_utf8(bytes).ok().and_then(|s| s.parse::<isize>().ok())`. */
  function ParseIsize(s: seq<byte>): (r: Option<int>)
    ensures r.Some? <==> IsIntegerText(s) && InIsize(TextValue(s))
    ensures r.Some? ==> IsIntegerText(s) && r.value == TextValue(s)
  {
    IntegerTextIsUtf8(s);
    if !ValidUtf8(s) then None
    else if s == [] then None
    else if (s[0] == PLUS || s[0] == MINUS) && |s| == 1 then None
    else if s[0] == PLUS then AccumulateDigits(s[1..], false)
    else if s[0] == MINUS then AccumulateDigits(s[1..], true)
    else AccumulateDigits(s, false)
  }

  /** Integer text is ASCII, so the UTF-8 check never rejects it. */
  lemma IntegerTextIsUtf8(s: seq<byte>)
    ensures IsIntegerText(s) ==> ValidUtf8(s)
  {
    if IsIntegerText(s) {
      AsciiBytesAreUtf8(s);
    }
  }

  /** Every `isize` value that is not negative reads back from its decimal text. */
  lemma DecimalTextParses(k: nat)
    requires k <= ISIZE_MAX
    ensures ParseIsize(DecimalText(k)) == Some(k)
  {
  }

  /** A number beyond `isize` does not parse, however it is written. */
  lemma DecimalTextOverflows(k: nat)
    requires k > ISIZE_MAX
    ensures ParseIsize(DecimalText(k)) == None
  {
  }

  /** The index of the first `\r` at or after `off`, or the end of the buffer. */
  function LengthEnd(data: seq<byte>, off: nat): (e: nat)
    requires off <= |data|
    ensures off <= e <= |data|
    ensures forall i :: off <= i < e ==> data[i] != CR
    ensures e == |data| || data[e] == CR
    decreases |data| - off
  {
    if off == |data| || data[off] == CR then off else LengthEnd(data, off + 1)
  }

  /** A position with no `\r` before it and a `\r` (or the end) at it is the one LengthEnd finds. */
  lemma LengthEndAt(data: seq<byte>, off: nat, e: nat)
    requires off <= e <= |data|
    requires forall i :: off <= i < e ==> data[i] != CR
    requires e == |data| || data[e] == CR
    ensures LengthEnd(data, off) == e
  {
  }

  /** Text without `\r` laid down at `off` and followed by a `\r` is exactly what LengthEnd spans. */
  lemma TextBeforeCr(data: seq<byte>, off: nat, text: seq<byte>)
    requires forall i :: 0 <= i < |text| ==> text[i] != CR
    requires off + |text| < |data| && data[off..off + |text|] == text && data[off + |text|] == CR
    ensures LengthEnd(data, off) == off + |text|
  {
    forall i | off <= i < off + |text|
      ensures data[i] != CR
    {
      assert data[i] == text[i - off];
    }
    LengthEndAt(data, off, off + |text|);
  }

  /** `read_length`: consumes the bytes before the next `\r` (never the `\r`) and parses them. */
  method ReadLength(reader: ByteReader) returns (length: Option<int>)
    requires reader.Valid()
    modifies reader
    ensures reader.Valid()
    ensures reader.offset == LengthEnd(reader.data, old(reader.offset))
    ensures length == ParseIsize(reader.data[old(reader.offset)..reader.offset])
  {
    ghost var start := reader.offset;
    var lengthBytes := reader.ReadWhile(b => b != CR);
    LengthEndAt(reader.data, start, reader.offset);
    length := ParseIsize(lengthBytes);
  }
}
