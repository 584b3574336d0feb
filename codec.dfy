/** The wire frame every builder of `Red` produces.

    The builders are a transliteration of a `struct.pack` port: the body buffer
    is filled with the ASCII characters of the format string ("<" and one type
    character per field), not with packed values. Byte 3 of the body is then
    overwritten with the package size, the body is checksummed with CRC-32 and
    the checksum is meant to follow as a 4-byte little-endian trailer
    (SMD-java/red.java:258-283). */
module Codec {
  import opened Crc32
  import opened Registry

  /** A string whose characters are all 7-bit ASCII, so that `getBytes` gives
      one byte per character. */
  predicate IsAscii(s: string) {
    forall i | 0 <= i < |s| :: s[i] as int < 128
  }

  /** `String.getBytes` of an ASCII string. */
  function Ascii(s: string): (r: seq<byte>)
    requires IsAscii(s)
    ensures |r| == |s|
    ensures forall i | 0 <= i < |s| :: r[i] == s[i] as int as byte
  {
    seq(|s|, i requires 0 <= i < |s| => s[i] as int as byte)
  }

  /** The size of the CRC trailer: `getSize` of the `CRCValue` slot. */
  const TrailerSize: nat := Size(Tag(CrcValue))

  /** The start of every format string: "<" followed by the tags of the six
      mandatory registers (`vars.subList(0, 6)`). */
  const PrefixFormat: string :=
    ['<', Tag(Header), Tag(DeviceId), Tag(DeviceFamily), Tag(PackageSize), Tag(CommandSlot), Tag(Status)]

  /** The prefix is "<BBBBBB", seven bytes long, and the trailer is four bytes. */
  lemma PrefixShape()
    ensures PrefixFormat == "<BBBBBB" && |PrefixFormat| == 7 && IsAscii(PrefixFormat)
    ensures TrailerSize == 4
  {
  }

  /** The size facts of the prefix alone, without its characters. */
  lemma PrefixFits()
    ensures IsAscii(PrefixFormat) && |PrefixFormat| == 7
  {
    PrefixShape();
  }

  /** "B" followed by the slot's tag, for each register of a write, in list order. */
  function PairTags(indices: seq<int>): (r: string)
    requires AllInRange(indices)
    ensures |r| == 2 * |indices|
    ensures forall j | 0 <= j < |indices| :: r[2 * j] == 'B' && r[2 * j + 1] == Tag(indices[j])
    ensures IsAscii(r)
    decreases |indices|
  {
    if |indices| == 0 then ""
    else
      var n := |indices| - 1;
      assert AllInRange(indices[..n]);
      PairTags(indices[..n]) + ['B', Tag(indices[n])]
  }

  /** The format string of a write of the given registers (red.java:261-265). */
  function WriteFormat(indices: seq<int>): (r: string)
    requires AllInRange(indices)
    ensures |r| == 7 + 2 * |indices|
    ensures r[..7] == "<BBBBBB"
    ensures IsAscii(r)
  {
    PrefixFormat + PairTags(indices)
  }

  /** The format string of a read of `n` registers: one "B" per index (red.java:289-290). */
  function ReadFormat(n: nat): (r: string)
    ensures |r| == 7 + n
    ensures r == "<BBBBBB" + seq(n, _ => 'B')
    ensures IsAscii(r)
  {
    PrefixFormat + seq(n, _ => 'B')
  }

  /** The format string of `updateDriverId`: the prefix, "B" and the tag of
      `DeviceID` (red.java:459). */
  function IdFormat(): (r: string)
    ensures r == "<BBBBBBBB" && IsAscii(r)
  {
    PrefixFormat + ['B', Tag(DeviceId)]
  }

  /** Overwrites byte 3 (`PackageSize`) with the low byte of the frame length,
      `(byte) (capacity + getSize(CRCValue))`. */
  function Patch(body: seq<byte>): (r: seq<byte>)
    requires |body| > PackageSize
    ensures |r| == |body|
    ensures r[PackageSize] == ((|body| + 4) % 256) as byte
    ensures forall i | 0 <= i < |body| && i != PackageSize :: r[i] == body[i]
  {
    var size := (|body| + TrailerSize) % 256;
    body[PackageSize := size as byte]
  }

  /** A frame whose last four bytes are the little-endian CRC-32 of the rest:
      what a receiver accepts. */
  predicate CrcValid(f: seq<byte>) {
    |f| >= 4 && FromLe32(f[|f| - 4..]) == Crc(f[..|f| - 4])
  }

  /** The frame the builders mean to send: the patched body followed by the
      little-endian CRC-32 of the patched body. */
  function Frame(body: seq<byte>): (f: seq<byte>)
    requires |body| > PackageSize
    ensures |f| == |body| + 4
    ensures f[PackageSize] == (|f| % 256) as byte
    ensures forall i | 0 <= i < |body| && i != PackageSize :: f[i] == body[i]
    ensures f[..|body|] == Patch(body)
    ensures CrcValid(f)
  {
    var p := Patch(body);
    var f := p + Le32(Crc(p));
    assert f[..|body|] == p && f[|body|..] == Le32(Crc(p));
    Le32RoundTrip(Crc(p));
    f
  }

  /** A frame with any other trailer than the checksum of its body is refused
      by the receiver's CRC check. */
  lemma CorruptTrailerRejected(body: seq<byte>, t: seq<byte>)
    requires |body| > PackageSize && |t| == 4 && t != Le32(Crc(Patch(body)))
    ensures !CrcValid(Patch(body) + t)
  {
    var p := Patch(body);
    var f := p + t;
    assert f[|f| - 4..] == t && f[..|f| - 4] == p;
    FromLe32RoundTrip(t);
  }

  /** The frame SMD-java/red.java:281 would build once the `(int)` cast of
      the stored CRC succeeded (as written it throws first; see
      `Device.BuiltAsWritten`). `result.put(buffer)` copies the buffer's
      remaining bytes, and after `putInt` no byte remains; the trailer keeps
      the four zero bytes of the freshly allocated result. */
  function FrameAsWritten(body: seq<byte>): (f: seq<byte>)
    requires |body| > PackageSize
    ensures |f| == |body| + 4
    ensures f[..|body|] == Patch(body) && f[|body|..] == [0, 0, 0, 0]
  {
    Patch(body) + [0, 0, 0, 0]
  }

  /** The zero trailer passes the receiver's check exactly when the body's
      CRC happens to be zero. */
  lemma AsWrittenTrailerValidIff(body: seq<byte>)
    requires |body| > PackageSize
    ensures CrcValid(FrameAsWritten(body)) <==> Crc(Patch(body)) == 0
  {
    var f := FrameAsWritten(body);
    assert f[|f| - 4..] == [0, 0, 0, 0] && f[..|f| - 4] == Patch(body);
    assert FromLe32([0, 0, 0, 0]) == 0;
  }

  /** The patched body of every command-only frame (reboot, ping, ...):
      "<BBBBBB" with byte 3 set to 11. */
  const VerbBody: seq<byte> := [0x3C, 0x42, 0x42, 0x0B, 0x42, 0x42, 0x42]

  lemma VerbBodyIsPatchedPrefix()
    ensures Patch(Ascii(PrefixFormat)) == VerbBody
  {
    PrefixShape();
    var a := Ascii(PrefixFormat);
    assert a == [0x3C, 0x42, 0x42, 0x42, 0x42, 0x42, 0x42];
  }

  /** Were the cast to succeed, the zero trailer of a reboot frame would be
      refused: the CRC of its body is not zero. */
  lemma AsWrittenVerbFrameRejected()
    ensures !CrcValid(FrameAsWritten(Ascii(PrefixFormat)))
  {
    VerbBodyIsPatchedPrefix();
    AsWrittenTrailerValidIff(Ascii(PrefixFormat));
    assert Crc(VerbBody) != 0;
  }

  /** A fresh buffer holding `s`, as `ByteBuffer.allocate` followed by `put`. */
  method Buffer(s: seq<byte>) returns (a: array<byte>)
    ensures fresh(a) && a[..] == s
  {
    a := new byte[|s|];
    for i := 0 to |s|
      invariant a[..i] == s[..i]
    {
      a[i] := s[i];
    }
    assert a[..] == a[..|s|];
  }

  /** Builds a frame the way the builders fill their `ByteBuffer`s: copy the
      body into a buffer, patch byte 3 in place, checksum the buffer, and
      append the trailer. */
  method Encode(body: seq<byte>) returns (frame: seq<byte>)
    requires |body| > PackageSize
    ensures frame == Frame(body)
  {
    var structOut := Buffer(body);
    structOut[PackageSize] := ((structOut.Length + TrailerSize) % 256) as byte;
    assert structOut[..] == Patch(body);
    frame := structOut[..] + Le32(Crc(structOut[..]));
  }
}
