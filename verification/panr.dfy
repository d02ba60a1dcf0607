/** The on-disk layouts of a PANR file (libavformat/panr.h): the fixed file
    header, the per-sample header with its flag bits, and the widths of the
    time sections that follow a sample header. All integers are little-endian
    and fields are laid out without padding, as the format documents them. */
module Panr {
  import opened Bytes
  import Guids

  /** The file signature, the multi-character constant 'PANR' as GCC
      evaluates it; it is compared with the first u32 of the file. */
  const Signature: nat := 0x5041_4e52

  /** The only file version the probe accepts. */
  const SupportedVersion := 1

  // Field offsets of the file header.
  const SignatureOffset := 0
  const VersionOffset := 4
  const StartTimeFirstOffset := 8
  const EndTimeLastOffset := 16
  const StartWallTimeOffset := 24
  const EndWallTimeOffset := 32
  const MajorTypeOffset := 40
  const SubTypeOffset := 56
  const FixedSizeSamplesOffset := 72
  const TemporalCompressionOffset := 76
  const SampleSizeOffset := 80
  const FormatTypeOffset := 84
  const BufferSizeOffset := 100
  const FormatLengthOffset := 104

  /** The size of the file header; the format block follows it. */
  const FileHeaderSize := 108

  /** The file header. GUID fields are kept as their raw 16 bytes, because
      the parser only ever compares them bytewise. */
  datatype FileHeader = FileHeader(
    signature: nat,
    version: int,
    startTimeFirst: int,
    endTimeLast: int,
    startWallTime: int,
    endWallTime: int,
    majorType: seq<byte>,
    subType: seq<byte>,
    fixedSizeSamples: nat,
    temporalCompression: nat,
    sampleSize: nat,
    formatType: seq<byte>,
    bufferSize: int,
    formatLength: nat)

  predicate IsI32(x: int) { -0x8000_0000 <= x < 0x8000_0000 }
  predicate IsI64(x: int) { -0x8000_0000_0000_0000 <= x < 0x8000_0000_0000_0000 }
  predicate IsU32(x: int) { 0 <= x < 0x1_0000_0000 }

  /** Every field fits the width it has on disk. */
  predicate FieldsInRange(h: FileHeader)
  {
    && IsU32(h.signature) && IsI32(h.version)
    && IsI64(h.startTimeFirst) && IsI64(h.endTimeLast)
    && IsI64(h.startWallTime) && IsI64(h.endWallTime)
    && |h.majorType| == Guids.GuidSize && |h.subType| == Guids.GuidSize
    && IsU32(h.fixedSizeSamples) && IsU32(h.temporalCompression) && IsU32(h.sampleSize)
    && |h.formatType| == Guids.GuidSize
    && IsI32(h.bufferSize) && IsU32(h.formatLength)
  }

  /** Reads the file header from the first FileHeaderSize bytes of b. */
  function ParseFileHeader(b: seq<byte>): (h: FileHeader)
    requires |b| >= FileHeaderSize
    ensures FieldsInRange(h)
  {
    Pow256Values();
    FileHeader(
      U32At(b, SignatureOffset),
      I32At(b, VersionOffset),
      I64At(b, StartTimeFirstOffset),
      I64At(b, EndTimeLastOffset),
      I64At(b, StartWallTimeOffset),
      I64At(b, EndWallTimeOffset),
      b[MajorTypeOffset..MajorTypeOffset + 16],
      b[SubTypeOffset..SubTypeOffset + 16],
      U32At(b, FixedSizeSamplesOffset),
      U32At(b, TemporalCompressionOffset),
      U32At(b, SampleSizeOffset),
      b[FormatTypeOffset..FormatTypeOffset + 16],
      I32At(b, BufferSizeOffset),
      U32At(b, FormatLengthOffset))
  }

  function EncodeU32(x: nat): (b: seq<byte>)
    requires IsU32(x)
    ensures |b| == 4 && LE(b) == x
  {
    Pow256Values();
    ToLE(x, 4)
  }

  function EncodeI32(x: int): (b: seq<byte>)
    requires IsI32(x)
    ensures |b| == 4 && ToSigned(LE(b), 4) == x
  {
    Pow256Values();
    ToLE(ToUnsigned(x, 4), 4)
  }

  function EncodeI64(x: int): (b: seq<byte>)
    requires IsI64(x)
    ensures |b| == 8 && ToSigned(LE(b), 8) == x
  {
    Pow256Values();
    ToLE(ToUnsigned(x, 8), 8)
  }

  /** The bytes a writer lays down for a header, fields in declaration order. */
  function EncodeFileHeader(h: FileHeader): (b: seq<byte>)
    requires FieldsInRange(h)
    ensures |b| == FileHeaderSize
  {
    EncodeU32(h.signature) + EncodeI32(h.version)
    + EncodeI64(h.startTimeFirst) + EncodeI64(h.endTimeLast)
    + EncodeI64(h.startWallTime) + EncodeI64(h.endWallTime)
    + h.majorType + h.subType
    + EncodeU32(h.fixedSizeSamples) + EncodeU32(h.temporalCompression) + EncodeU32(h.sampleSize)
    + h.formatType
    + EncodeI32(h.bufferSize) + EncodeU32(h.formatLength)
  }

  /** The field order and offsets of the header: parsing what was written,
      whatever format bytes follow, gives back the header. */
  lemma ParseEncodeFileHeader(h: FileHeader, rest: seq<byte>)
    requires FieldsInRange(h)
    ensures ParseFileHeader(EncodeFileHeader(h) + rest) == h
  {
    ParseEncodeTimes(h, rest);
    ParseEncodeTypes(h, rest);
  }

  /** The signature, version and the four times read back as written. */
  lemma ParseEncodeTimes(h: FileHeader, rest: seq<byte>)
    requires FieldsInRange(h)
    ensures var p := ParseFileHeader(EncodeFileHeader(h) + rest);
            && p.signature == h.signature && p.version == h.version
            && p.startTimeFirst == h.startTimeFirst && p.endTimeLast == h.endTimeLast
            && p.startWallTime == h.startWallTime && p.endWallTime == h.endWallTime
  {
    var b := EncodeFileHeader(h) + rest;
    assert b[0..4] == EncodeU32(h.signature);
    assert b[4..8] == EncodeI32(h.version);
    assert b[8..16] == EncodeI64(h.startTimeFirst);
    assert b[16..24] == EncodeI64(h.endTimeLast);
    assert b[24..32] == EncodeI64(h.startWallTime);
    assert b[32..40] == EncodeI64(h.endWallTime);
  }

  /** The media type, the sample properties, the buffer size and the format
      length read back as written. */
  lemma ParseEncodeTypes(h: FileHeader, rest: seq<byte>)
    requires FieldsInRange(h)
    ensures var p := ParseFileHeader(EncodeFileHeader(h) + rest);
            && p.majorType == h.majorType && p.subType == h.subType
            && p.fixedSizeSamples == h.fixedSizeSamples && p.temporalCompression == h.temporalCompression
            && p.sampleSize == h.sampleSize && p.formatType == h.formatType
            && p.bufferSize == h.bufferSize && p.formatLength == h.formatLength
  {
    var b := EncodeFileHeader(h) + rest;
    assert b[40..56] == h.majorType;
    assert b[56..72] == h.subType;
    assert b[72..76] == EncodeU32(h.fixedSizeSamples);
    assert b[76..80] == EncodeU32(h.temporalCompression);
    assert b[80..84] == EncodeU32(h.sampleSize);
    assert b[84..100] == h.formatType;
    assert b[100..104] == EncodeI32(h.bufferSize);
    assert b[104..108] == EncodeU32(h.formatLength);
  }

  /** The marker byte that opens every sample record. */
  const SampleMarker: byte := 0x9c

  // Field offsets of the sample header.
  const MarkerOffset := 0
  const FlagsOffset := 1
  const DataLengthOffset := 2

  /** The size of the sample header: marker, flags and a 4-byte data length. */
  const SampleHeaderSize := 6

  /** The flag bits of a sample, bit 0 first. */
  datatype Flags = Flags(
    discontinuity: bool,
    preroll: bool,
    syncPoint: bool,
    timeAbsolute: bool,
    timeRelative: bool,
    mediaTimeAbsolute: bool,
    mediaTimeRelative: bool,
    reserved: bool)

  function Pow2(n: nat): (r: nat)
    ensures r >= 1
  {
    if n == 0 then 1 else 2 * Pow2(n - 1)
  }

  /** The n low bits of x, least significant first. */
  function Bits(x: nat, n: nat): (bs: seq<bool>)
    ensures |bs| == n
  {
    if n == 0 then [] else [x % 2 == 1] + Bits(x / 2, n - 1)
  }

  /** The number whose bits, least significant first, are bs. */
  function FromBits(bs: seq<bool>): (x: nat)
    ensures x < Pow2(|bs|)
  {
    if |bs| == 0 then 0 else (if bs[0] then 1 else 0) + 2 * FromBits(bs[1..])
  }

  lemma {:induction false} FromBitsOfBits(x: nat, n: nat)
    requires x < Pow2(n)
    ensures FromBits(Bits(x, n)) == x
  {
    if n > 0 {
      FromBitsOfBits(x / 2, n - 1);
      assert Bits(x, n)[1..] == Bits(x / 2, n - 1);
    }
  }

  lemma {:induction false} BitsOfFromBits(bs: seq<bool>)
    ensures Bits(FromBits(bs), |bs|) == bs
  {
    if |bs| > 0 {
      var x := FromBits(bs);
      assert x % 2 == 1 <==> bs[0];
      assert x / 2 == FromBits(bs[1..]);
      BitsOfFromBits(bs[1..]);
    }
  }

  /** Splits a flags byte into its bits; bit 0 is the first field. */
  function FlagsOf(b: byte): Flags
  {
    var bs := Bits(b as int, 8);
    Flags(bs[0], bs[1], bs[2], bs[3], bs[4], bs[5], bs[6], bs[7])
  }

  function FlagList(f: Flags): seq<bool>
  {
    [f.discontinuity, f.preroll, f.syncPoint, f.timeAbsolute,
     f.timeRelative, f.mediaTimeAbsolute, f.mediaTimeRelative, f.reserved]
  }

  /** Assembles the flags byte from its bits. */
  function FlagsByte(f: Flags): byte
  {
    assert Pow2(8) == 256;
    FromBits(FlagList(f)) as byte
  }

  /** Splitting a byte into its bits and reassembling them gives the byte back. */
  lemma FlagsByteOfFlagsOf(b: byte)
    ensures FlagsByte(FlagsOf(b)) == b
  {
    assert Pow2(8) == 256;
    var bs := Bits(b as int, 8);
    assert FlagList(FlagsOf(b)) == bs;
    FromBitsOfBits(b as int, 8);
  }

  /** ... and every combination of bits is a distinct byte. */
  lemma FlagsOfFlagsByte(f: Flags)
    ensures FlagsOf(FlagsByte(f)) == f
  {
    assert Pow2(8) == 256;
    BitsOfFromBits(FlagList(f));
  }

  /** The flags byte with no bit set. */
  const NoFlags := Flags(false, false, false, false, false, false, false, false)

  /** Each named flag is one bit of the byte, in declaration order from the
      least significant bit: its mask is that power of two. */
  lemma FlagMasks()
    ensures FlagsByte(NoFlags) == 0
    ensures FlagsByte(NoFlags.(discontinuity := true)) == 1
    ensures FlagsByte(NoFlags.(preroll := true)) == 2
    ensures FlagsByte(NoFlags.(syncPoint := true)) == 4
    ensures FlagsByte(NoFlags.(timeAbsolute := true)) == 8
    ensures FlagsByte(NoFlags.(timeRelative := true)) == 16
    ensures FlagsByte(NoFlags.(mediaTimeAbsolute := true)) == 32
    ensures FlagsByte(NoFlags.(mediaTimeRelative := true)) == 64
    ensures FlagsByte(NoFlags.(reserved := true)) == 128
  {
    FlagsByteOfFlagsOf(0);
    FlagsByteOfFlagsOf(1);
    FlagsByteOfFlagsOf(2);
    FlagsByteOfFlagsOf(4);
    FlagsByteOfFlagsOf(8);
    FlagsByteOfFlagsOf(16);
    FlagsByteOfFlagsOf(32);
    FlagsByteOfFlagsOf(64);
    FlagsByteOfFlagsOf(128);
  }

  /** A sample header as read from the stream. */
  datatype SampleHeader = SampleHeader(marker: byte, flags: Flags, dataLength: int)

  /** The sample header at position p of the input. */
  function ParseSampleHeader(data: seq<byte>, p: nat): (h: SampleHeader)
    ensures IsI32(h.dataLength)
  {
    Pow256Values();
    SampleHeader(ByteAt(data, p + MarkerOffset), FlagsOf(ByteAt(data, p + FlagsOffset)),
                 I32At(data, p + DataLengthOffset))
  }

  /** The width of each of the start and end time fields. The relative flag
      is checked first, so it wins when both time flags are set. */
  function TimeFieldWidth(f: Flags): nat
  {
    if f.timeRelative then 4 else if f.timeAbsolute then 8 else 0
  }

  /** The width of each of the media start and end time fields. Here the
      absolute flag is checked first. */
  function MediaFieldWidth(f: Flags): nat
  {
    if f.mediaTimeAbsolute then 8 else if f.mediaTimeRelative then 4 else 0
  }

  /** The number of bytes between a sample header and its body: the start
      and end times, then the media start and end times. */
  function SectionsWidth(f: Flags): nat
  {
    2 * TimeFieldWidth(f) + 2 * MediaFieldWidth(f)
  }
}
