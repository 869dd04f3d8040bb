/**
  Fixed-width unsigned integers and the little-endian byte layouts the
  protocol uses for its 16-bit frame length and its 32-bit timestamp.
  For an unsigned value, `(x >> 8*k) & 0xFF` is `(x / 256^k) % 256`; the
  encoders below are written in that form.
 */
module Bytes {

  type uint8 = x: int | 0 <= x < 0x100
  type uint16 = x: int | 0 <= x < 0x1_0000
  type uint32 = x: int | 0 <= x < 0x1_0000_0000

  /** The two bytes of a 16-bit value, least significant first: read back little-endian they give `x`. */
  function LE16(x: uint16): (b: seq<uint8>)
    ensures |b| == 2 && FromLE16(b) == x
  {
    assert x == x % 0x100 + 0x100 * (x / 0x100);
    [x % 0x100, (x / 0x100) % 0x100]
  }

  /** The value of two bytes read as a little-endian unsigned 16-bit number. */
  function FromLE16(b: seq<uint8>): (x: uint16)
    requires |b| == 2
  {
    b[0] as int + 0x100 * (b[1] as int)
  }

  /** The four bytes of a 32-bit value, least significant first: read back little-endian they give `x`. */
  function LE32(x: uint32): (b: seq<uint8>)
    ensures |b| == 4
    ensures FromLE32(b) == x
  {
    var q1 := x / 0x100;
    var q2 := q1 / 0x100;
    var q3 := q2 / 0x100;
    assert x == x % 0x100 + 0x100 * q1;
    assert q1 == q1 % 0x100 + 0x100 * q2;
    assert q2 == q2 % 0x100 + 0x100 * q3;
    ShiftTwice(x);
    [x % 0x100, (x / 0x100) % 0x100, (x / 0x1_0000) % 0x100, (x / 0x100_0000) % 0x100]
  }

  /** The value of four bytes read as a little-endian unsigned 32-bit number. */
  function FromLE32(b: seq<uint8>): (x: uint32)
    requires |b| == 4
  {
    b[0] as int + 0x100 * (b[1] as int) + 0x1_0000 * (b[2] as int) + 0x100_0000 * (b[3] as int)
  }

  /** Every pair of bytes is the encoding of the number it denotes. */
  lemma FromLE16RoundTrip(b: seq<uint8>)
    requires |b| == 2
    ensures LE16(FromLE16(b)) == b
  {
    var x := FromLE16(b);
    assert x % 0x100 == b[0];
    assert x / 0x100 == b[1];
  }

  /** Every four bytes are the encoding of the number they denote. */
  lemma FromLE32RoundTrip(b: seq<uint8>)
    requires |b| == 4
    ensures LE32(FromLE32(b)) == b
  {
    var x := FromLE32(b);
    var h2: int := b[2] as int + 0x100 * (b[3] as int);
    var h1: int := b[1] as int + 0x100 * h2;
    Split(x, b[0], h1);
    Split(h1, b[1], h2);
    Split(h2, b[2], b[3]);
    ShiftTwice(x);
  }

  /** Low byte and remaining bits of a number built from them. */
  lemma Split(x: int, lo: int, hi: int)
    requires 0 <= lo < 0x100 && 0 <= hi && x == lo + 0x100 * hi
    ensures x % 0x100 == lo && x / 0x100 == hi
  {
  }

  /** Shifting right by 16 or 24 bits is shifting right by 8 bits two or three times. */
  lemma ShiftTwice(x: nat)
    ensures x / 0x1_0000 == (x / 0x100) / 0x100
    ensures x / 0x100_0000 == ((x / 0x100) / 0x100) / 0x100
  {
  }
}
