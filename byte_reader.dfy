/**
 * The forward-only cursor of src/byte_reader.rs: an immutable byte buffer and
 * one mutable offset into it.
 */
module Reader {
  import opened Wrappers
  import opened Bytes

  class ByteReader {
    /** The buffer; never changes after construction. */
    const data: seq<byte>
    /** The position of the next byte to read. */
    var offset: nat

    /** The offset never runs past the end of the buffer. */
    ghost predicate Valid()
      reads this
    {
      offset <= |data|
    }

    constructor (data: seq<byte>)
      ensures Valid()
      ensures this.data == data && offset == 0
    {
      this.data := data;
      offset := 0;
    }

    /** Consumes one byte, or reports the end of the buffer without moving. */
    method ReadByte() returns (b: Option<byte>)
      requires Valid()
      modifies this
      ensures Valid()
      ensures b.None? <==> old(offset) == |data|
      ensures b.None? ==> offset == old(offset)
      ensures b.Some? ==> b.value == data[old(offset)] && offset == old(offset) + 1
    {
      if offset >= |data| {
        return None;
      }
      b := Some(data[offset]);
      offset := offset + 1;
    }

    /** The byte ReadByte would return, without consuming it. */
    function PeekByte(): (b: Option<byte>)
      requires Valid()
      reads this
      ensures b.None? <==> offset == |data|
      ensures b.Some? ==> b.value == data[offset]
    {
      if offset >= |data| then None else Some(data[offset])
    }

    /** The number of bytes left; it cannot underflow because of Valid. */
    function BytesRemaining(): (n: nat)
      requires Valid()
      reads this
      ensures n <= |data| && offset + n == |data|
    {
      |data| - offset
    }

    /** Consumes the longest run of bytes satisfying `f` and returns it. */
    method ReadWhile(f: byte -> bool) returns (s: seq<byte>)
      requires Valid()
      modifies this
      ensures Valid()
      ensures old(offset) <= offset && s == data[old(offset)..offset]
      ensures forall i :: 0 <= i < |s| ==> f(s[i])
      ensures offset == |data| || !f(data[offset])
    {
      var start := offset;
      while BytesRemaining() > 0
        invariant Valid() && start <= offset
        invariant forall i :: start <= i < offset ==> f(data[i])
        decreases |data| - offset
      {
        if !f(data[offset]) {
          break;
        }
        offset := offset + 1;
      }
      s := data[start..offset];
    }

    /** Consumes exactly `length` bytes; the caller must have checked that they are there. */
    method Slice(length: nat) returns (s: seq<byte>)
      requires Valid()
      requires length <= BytesRemaining()
      modifies this
      ensures Valid()
      ensures s == data[old(offset)..old(offset) + length]
      ensures offset == old(offset) + length
    {
      s := data[offset..offset + length];
      offset := offset + length;
    }
  }
}
