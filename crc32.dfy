/** CRC-32 as computed by `java.util.zip.CRC32`: the ISO-HDLC / IEEE 802.3
    CRC with the reflected polynomial 0xEDB88320, initial value 0xFFFFFFFF and
    a final complement, written bit by bit. Also the little-endian 32-bit
    encoding the frames use for their trailer. */
module Crc32 {

  type byte = bv8

  const Polynomial: bv32 := 0xEDB8_8320

  /** One shift of the reflected CRC register. */
  function Shift(c: bv32): bv32 {
    if c & 1 == 1 then (c >> 1) ^ Polynomial else c >> 1
  }

  /** Feeds one byte, least significant bit first. */
  function FeedByte(c: bv32, b: byte): bv32 {
    var x := c ^ (b as bv32);
    Shift(Shift(Shift(Shift(Shift(Shift(Shift(Shift(x))))))))
  }

  function Feed(c: bv32, s: seq<byte>): bv32
    decreases |s|
  {
    if |s| == 0 then c else var c' := FeedByte(c, s[0]); Feed(c', s[1..])
  }

  /** The value `CRC32.getValue()` returns after `update(s)` on a fresh CRC32. */
  function Crc(s: seq<byte>): bv32 {
    !Feed(0xFFFF_FFFF, s)
  }

  /** The standard check value of CRC-32/ISO-HDLC: the CRC of the ASCII
      string "123456789" is 0xCBF43926. */
  lemma CheckValue()
    ensures Crc([0x31, 0x32, 0x33, 0x34, 0x35, 0x36, 0x37, 0x38, 0x39]) == 0xCBF4_3926
  {
  }

  /** Little-endian bytes of a 32-bit word, as `ByteBuffer.order(LITTLE_ENDIAN).putInt`. */
  function Le32(x: bv32): (r: seq<byte>)
    ensures |r| == 4
  {
    [(x & 0xFF) as byte, ((x >> 8) & 0xFF) as byte, ((x >> 16) & 0xFF) as byte, ((x >> 24) & 0xFF) as byte]
  }

  /** The word whose little-endian bytes are `b`. */
  function FromLe32(b: seq<byte>): bv32
    requires |b| == 4
  {
    (b[0] as bv32) | ((b[1] as bv32) << 8) | ((b[2] as bv32) << 16) | ((b[3] as bv32) << 24)
  }

  lemma Le32RoundTrip(x: bv32)
    ensures FromLe32(Le32(x)) == x
  {
  }

  lemma FromLe32RoundTrip(b: seq<byte>)
    requires |b| == 4
    ensures Le32(FromLe32(b)) == b
  {
  }
}
