/** Byte-level helpers: the big-endian packing the reader client does with
    System.Buffers.Binary. Bytes are bv8, 16-bit words bv16 and 32-bit
    words bv32, as the source's byte, ushort and uint. */
module Bytes {

  /** Big-endian 16-bit word from two bytes (ReadUInt16BigEndian). */
  function BigEndian16(hi: bv8, lo: bv8): (w: bv16)
    ensures HighByte(w) == hi && LowByte(w) == lo
  {
    ((hi as bv16) << 8) | (lo as bv16)
  }

  /** First byte WriteUInt16BigEndian emits: the most significant one. */
  function HighByte(w: bv16): bv8 {
    (w >> 8) as bv8
  }

  /** Second byte WriteUInt16BigEndian emits: the least significant one. */
  function LowByte(w: bv16): bv8 {
    (w & 0xFF) as bv8
  }

  /** Splitting a word into its two bytes and joining them gives it back. */
  lemma SplitJoin16(w: bv16)
    ensures BigEndian16(HighByte(w), LowByte(w)) == w
  {
  }

  /** The four bytes WriteUInt32BigEndian emits, most significant first;
      reading them back gives the word. */
  function BigEndianBytes32(v: bv32): (s: seq<bv8>)
    ensures |s| == 4
    ensures BigEndian32(s) == v
  {
    [(v >> 24) as bv8, ((v >> 16) & 0xFF) as bv8, ((v >> 8) & 0xFF) as bv8, (v & 0xFF) as bv8]
  }

  /** Four bytes read as a big-endian 32-bit word (ReadUInt32BigEndian). */
  function BigEndian32(s: seq<bv8>): bv32
    requires |s| == 4
  {
    ((s[0] as bv32) << 24) | ((s[1] as bv32) << 16) | ((s[2] as bv32) << 8) | (s[3] as bv32)
  }

  /** Writing the word read from four bytes reproduces the bytes. */
  lemma BigEndian32RoundTrip(s: seq<bv8>)
    requires |s| == 4
    ensures BigEndianBytes32(BigEndian32(s)) == s
  {
  }

  /** The byte holding a count below 256, as the cast (byte)n produces it. */
  function ByteOf(n: nat): (b: bv8)
    requires n < 0x100
    ensures b as int == n
  {
    if n == 0 then 0 else ByteOf(n - 1) + 1
  }

  /** Two's-complement reading of two bytes as a signed big-endian 16-bit
      integer (ReadInt16BigEndian): negative exactly when the sign bit of the
      first byte is set, and congruent to the unsigned word modulo 2^16. */
  function SignedBigEndian16(hi: bv8, lo: bv8): (v: int)
    ensures -0x8000 <= v < 0x8000
    ensures v < 0 <==> hi >= 0x80
    ensures v % 0x1_0000 == (hi as int) * 0x100 + (lo as int)
  {
    var u := (hi as int) * 0x100 + (lo as int);
    if u >= 0x8000 then u - 0x1_0000 else u
  }
}
