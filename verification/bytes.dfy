/** Bytes, fixed-width unsigned integers and the big-endian field
    encodings a PSI buffer reads and writes. Everything is over unbounded
    integers restricted by subset types, so a value never wraps silently. */
module Bytes {

  type byte = x: int | 0 <= x < 0x100
  type uint16 = x: int | 0 <= x < 0x1_0000
  type uint32 = x: int | 0 <= x < 0x1_0000_0000

  /** Largest value of a 12-bit length field. */
  const MaxLength12: nat := 0xFFF

  /** What can go wrong while reading a section payload: the buffer ran
      out of data (or held a malformed list), or the table's own
      consistency check failed (the buffer's "user error"). */
  datatype ReadError = BufferError | UserError

  /** A value read from a buffer together with the read offset after it. */
  datatype Parsed<+T> = Parsed(value: T, next: nat)

  /** Big-endian 16-bit field. */
  function U16(x: uint16): (r: seq<byte>)
    ensures |r| == 2
  {
    [x / 0x100, x % 0x100]
  }

  /** Big-endian 32-bit field. */
  function U32(x: uint32): (r: seq<byte>)
    ensures |r| == 4
  {
    U16(x / 0x1_0000) + U16(x % 0x1_0000)
  }

  function GetU16(p: seq<byte>, off: nat): uint16
    requires off + 2 <= |p|
  {
    (p[off] as int) * 0x100 + p[off + 1]
  }

  function GetU32(p: seq<byte>, off: nat): uint32
    requires off + 4 <= |p|
  {
    GetU16(p, off) * 0x1_0000 + GetU16(p, off + 2)
  }

  /** A 16-bit field made of four reserved 1-bits followed by the low
      12 bits of `n` (`putBits(0xFF, 4)` then `putBits(n, 12)`). */
  function LengthField(n: nat): (r: seq<byte>)
    ensures |r| == 2
  {
    [0xF0 + (n / 0x100) % 0x10, n % 0x100]
  }

  /** Skips 4 bits and reads the 12-bit value that follows. */
  function GetLength12(p: seq<byte>, off: nat): nat
    requires off + 2 <= |p|
  {
    ((p[off] as int) % 0x10) * 0x100 + p[off + 1]
  }

  lemma {:induction false} U16Read(pre: seq<byte>, x: uint16, suf: seq<byte>)
    ensures GetU16(pre + U16(x) + suf, |pre|) == x
  {
    var p := pre + U16(x) + suf;
    assert p[|pre|] == x / 0x100 && p[|pre| + 1] == x % 0x100;
  }

  lemma {:induction false} U32Read(pre: seq<byte>, x: uint32, suf: seq<byte>)
    ensures GetU32(pre + U32(x) + suf, |pre|) == x
  {
    var p := pre + U32(x) + suf;
    assert p == pre + U16(x / 0x1_0000) + (U16(x % 0x1_0000) + suf);
    U16Read(pre, x / 0x1_0000, U16(x % 0x1_0000) + suf);
    assert p == (pre + U16(x / 0x1_0000)) + U16(x % 0x1_0000) + suf;
    U16Read(pre + U16(x / 0x1_0000), x % 0x1_0000, suf);
  }

  /** Reading back a length field gives the value written, and its
      high nibble is the four reserved 1-bits. */
  lemma {:induction false} LengthFieldRead(pre: seq<byte>, n: nat, suf: seq<byte>)
    requires n <= MaxLength12
    ensures GetLength12(pre + LengthField(n) + suf, |pre|) == n
    ensures (pre + LengthField(n) + suf)[|pre|] / 0x10 == 0xF
  {
    var p := pre + LengthField(n) + suf;
    assert p[|pre|] == 0xF0 + (n / 0x100) % 0x10 && p[|pre| + 1] == n % 0x100;
  }

  /** Sequence concatenation is associative; stated once so that proofs
      over long concatenations can regroup them cheaply. */
  lemma {:induction false} ConcatAssoc<T>(a: seq<T>, b: seq<T>, c: seq<T>)
    ensures (a + b) + c == a + (b + c)
  {
  }
}
