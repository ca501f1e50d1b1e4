/**
 * Bytes as the wire sees them, the ASCII constants of the protocol, decimal
 * text of unsigned numbers (Rust's `usize::to_string`) and well-formed UTF-8
 * (what `str::from_utf8` accepts).
 */
module Bytes {

  type byte = x: int | 0 <= x < 256

  const CR: byte := 13
  const LF: byte := 10
  const CRLF: seq<byte> := [CR, LF]
  const PLUS: byte := 43
  const MINUS: byte := 45
  const DOLLAR: byte := 36
  const STAR: byte := 42
  const ZERO: byte := 48
  const NINE: byte := 57

  /**
   * The bytes of an ASCII string literal, as Rust's `b"..."` or `str::as_bytes`
   * gives them (used on ASCII text only; other characters are cut to a byte).
   */
  function Ascii(s: string): (r: seq<byte>)
    ensures |r| == |s|
    ensures forall i :: 0 <= i < |s| && s[i] as int < 128 ==> r[i] == s[i] as int
  {
    seq(|s|, i requires 0 <= i < |s| => (s[i] as int) % 256)
  }

  predicate IsDigit(b: byte) {
    ZERO <= b <= NINE
  }

  predicate AllDigits(s: seq<byte>) {
    forall i :: 0 <= i < |s| ==> IsDigit(s[i])
  }

  /** The value of a run of decimal digits, most significant first. */
  function DigitsValue(s: seq<byte>): nat
    requires AllDigits(s)
  {
    if s == [] then 0 else DigitsValue(s[..|s| - 1]) * 10 + (s[|s| - 1] - ZERO)
  }

  /** Decimal text of `k`, without sign or leading zeros, as `usize::to_string` writes it. */
  function DecimalText(k: nat): (s: seq<byte>)
    ensures 1 <= |s|
    ensures AllDigits(s)
    ensures DigitsValue(s) == k
    ensures s[0] == ZERO ==> k == 0
  {
    if k < 10 then [ZERO + k]
    else
      var s := DecimalText(k / 10) + [ZERO + k % 10];
      assert s[..|s| - 1] == DecimalText(k / 10);
      s
  }

  predicate IsContinuation(b: byte) {
    0x80 <= b <= 0xBF
  }

  /** Well-formed UTF-8 byte sequences (Table 3-7 of the Unicode Standard), which is what `str::from_utf8` accepts. */
  predicate ValidUtf8(s: seq<byte>)
    decreases |s|
  {
    if s == [] then true
    else if s[0] < 0x80 then ValidUtf8(s[1..])
    else if 0xC2 <= s[0] <= 0xDF then
      |s| >= 2 && IsContinuation(s[1]) && ValidUtf8(s[2..])
    else if 0xE0 <= s[0] <= 0xEF then
      |s| >= 3 && IsContinuation(s[2])
      && (if s[0] == 0xE0 then 0xA0 <= s[1] <= 0xBF
          else if s[0] == 0xED then 0x80 <= s[1] <= 0x9F
          else IsContinuation(s[1]))
      && ValidUtf8(s[3..])
    else if 0xF0 <= s[0] <= 0xF4 then
      |s| >= 4 && IsContinuation(s[2]) && IsContinuation(s[3])
      && (if s[0] == 0xF0 then 0x90 <= s[1] <= 0xBF
          else if s[0] == 0xF4 then 0x80 <= s[1] <= 0x8F
          else IsContinuation(s[1]))
      && ValidUtf8(s[4..])
    else false
  }

  /** Every byte below 0x80 is a one-byte UTF-8 sequence, so ASCII text is valid UTF-8. */
  lemma {:induction false} AsciiBytesAreUtf8(s: seq<byte>)
    requires forall i :: 0 <= i < |s| ==> s[i] < 0x80
    ensures ValidUtf8(s)
    decreases |s|
  {
    if s != [] {
      AsciiBytesAreUtf8(s[1..]);
    }
  }

  /** A piece of a frame laid down in a buffer is found at the matching place in the buffer. */
  lemma SubSlice(data: seq<byte>, off: nat, frame: seq<byte>, k: nat, len: nat)
    requires off + |frame| <= |data| && data[off..off + |frame|] == frame
    requires k + len <= |frame|
    ensures data[off + k..off + k + len] == frame[k..k + len]
  {
    var piece := data[off + k..off + k + len];
    forall i | 0 <= i < len
      ensures piece[i] == frame[k..k + len][i]
    {
      assert piece[i] == data[off + k + i] == data[off..off + |frame|][k + i];
    }
  }

  /** Two adjacent slices of a buffer join into the slice that spans both. */
  lemma Adjacent(data: seq<byte>, a: nat, b: nat, c: nat)
    requires a <= b <= c <= |data|
    ensures data[a..c] == data[a..b] + data[b..c]
  {
  }

  /** Two pieces laid down one after the other at `p` stand each in its place. */
  lemma Split(data: seq<byte>, p: nat, first: seq<byte>, rest: seq<byte>)
    requires p + |first + rest| <= |data| && data[p..p + |first + rest|] == first + rest
    ensures p + |first| + |rest| <= |data|
    ensures data[p..p + |first|] == first
    ensures data[p + |first|..p + |first| + |rest|] == rest
  {
    var all := first + rest;
    SubSlice(data, p, all, 0, |first|);
    assert all[0..|first|] == first;
    SubSlice(data, p, all, |first|, |rest|);
    assert all[|first|..|first| + |rest|] == rest;
  }

  lemma CrlfText()
    ensures Ascii("\r\n") == CRLF
  {
  }

  /** The bytes of joined text are the joined bytes. */
  lemma AsciiConcat(a: string, b: string)
    ensures Ascii(a + b) == Ascii(a) + Ascii(b)
  {
    assert forall i :: 0 <= i < |a| ==> (a + b)[i] == a[i];
    assert forall i :: |a| <= i < |a| + |b| ==> (a + b)[i] == b[i - |a|];
  }
}
