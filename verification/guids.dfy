/** The GUID type tags of the media-type fields and the tag dispatch built on
    them (libavformat/panr_dshow.h). A GUID is stored as 16 packed bytes and
    the parser compares tags bytewise, so a tag is identified by its bytes. */
module Guids {
  import opened Bytes

  const GuidSize := 16

  /** A GUID as declared: a u32, two u16s and eight bytes. */
  datatype Guid = Guid(data1: nat, data2: nat, data3: nat, data4: seq<byte>)

  predicate WellFormed(g: Guid)
  {
    g.data1 < 0x1_0000_0000 && g.data2 < 0x1_0000 && g.data3 < 0x1_0000 && |g.data4| == 8
  }

  /** The 16 packed bytes of a GUID on a little-endian host. */
  function Encode(g: Guid): (b: seq<byte>)
    requires WellFormed(g)
    ensures |b| == GuidSize
    ensures b[0] as int == g.data1 % 256
  {
    Pow256Values();
    var d1 := ToLE(g.data1, 4);
    assert d1[0] as int == g.data1 % 256;
    d1 + ToLE(g.data2, 2) + ToLE(g.data3, 2) + g.data4
  }

  function Decode(b: seq<byte>): (g: Guid)
    requires |b| == GuidSize
    ensures WellFormed(g)
  {
    Pow256Values();
    Guid(LE(b[0..4]), LE(b[4..6]), LE(b[6..8]), b[8..16])
  }

  /** The packed layout loses nothing: decoding the bytes gives the GUID back. */
  lemma DecodeEncode(g: Guid)
    requires WellFormed(g)
    ensures Decode(Encode(g)) == g
  {
    Pow256Values();
    var b := Encode(g);
    assert b[0..4] == ToLE(g.data1, 4);
    assert b[4..6] == ToLE(g.data2, 2);
    assert b[6..8] == ToLE(g.data3, 2);
    assert |g.data4| == 8;
    assert b[8..] == g.data4;
    assert b[8..16] == g.data4;
  }

  /** ... and every 16-byte string is the packing of some GUID. */
  lemma EncodeDecode(b: seq<byte>)
    requires |b| == GuidSize
    ensures Encode(Decode(b)) == b
  {
    ToLEOfLE(b[0..4]);
    ToLEOfLE(b[4..6]);
    ToLEOfLE(b[6..8]);
    assert b == b[0..4] + b[4..6] + b[6..8] + b[8..16];
  }

  // The tags the parser dispatches on, as declared (libavformat/panr_dshow.h:80-92).
  const VideoMajorGuid := Guid(0x73646976, 0x0000, 0x0010, [0x80, 0x00, 0x00, 0xaa, 0x00, 0x38, 0x9b, 0x71])
  const AudioMajorGuid := Guid(0x73647561, 0x0000, 0x0010, [0x80, 0x00, 0x00, 0xaa, 0x00, 0x38, 0x9b, 0x71])
  const WaveFormatExGuid := Guid(0x05589f81, 0xc356, 0x11ce, [0xbf, 0x01, 0x00, 0xaa, 0x00, 0x55, 0x59, 0x5a])
  const VideoInfoGuid := Guid(0x05589f80, 0xc356, 0x11ce, [0xbf, 0x01, 0x00, 0xaa, 0x00, 0x55, 0x59, 0x5a])
  const VideoInfo2Guid := Guid(0xf72a76a0, 0xeb0a, 0x11d0, [0xac, 0xe4, 0x00, 0x00, 0xc0, 0xcc, 0x16, 0xba])
  const MpegVideoGuid := Guid(0x05589f82, 0xc356, 0x11ce, [0xbf, 0x01, 0x00, 0xaa, 0x00, 0x55, 0x59, 0x5a])
  const MpegStreamsGuid := Guid(0x05589f83, 0xc356, 0x11ce, [0xbf, 0x01, 0x00, 0xaa, 0x00, 0x55, 0x59, 0x5a])
  const Mpeg2VideoGuid := Guid(0xe06d80e3, 0xdb46, 0x11cf, [0xb4, 0xd1, 0x00, 0x80, 0x5f, 0x6c, 0xbb, 0xea])

  // The same tags as the 16 bytes a bytewise comparison sees.
  const VideoMajorTag: seq<byte> := [0x76, 0x69, 0x64, 0x73, 0x00, 0x00, 0x10, 0x00, 0x80, 0x00, 0x00, 0xaa, 0x00, 0x38, 0x9b, 0x71]
  const AudioMajorTag: seq<byte> := [0x61, 0x75, 0x64, 0x73, 0x00, 0x00, 0x10, 0x00, 0x80, 0x00, 0x00, 0xaa, 0x00, 0x38, 0x9b, 0x71]
  const WaveFormatExTag: seq<byte> := [0x81, 0x9f, 0x58, 0x05, 0x56, 0xc3, 0xce, 0x11, 0xbf, 0x01, 0x00, 0xaa, 0x00, 0x55, 0x59, 0x5a]
  const VideoInfoTag: seq<byte> := [0x80, 0x9f, 0x58, 0x05, 0x56, 0xc3, 0xce, 0x11, 0xbf, 0x01, 0x00, 0xaa, 0x00, 0x55, 0x59, 0x5a]
  const VideoInfo2Tag: seq<byte> := [0xa0, 0x76, 0x2a, 0xf7, 0x0a, 0xeb, 0xd0, 0x11, 0xac, 0xe4, 0x00, 0x00, 0xc0, 0xcc, 0x16, 0xba]
  const MpegVideoTag: seq<byte> := [0x82, 0x9f, 0x58, 0x05, 0x56, 0xc3, 0xce, 0x11, 0xbf, 0x01, 0x00, 0xaa, 0x00, 0x55, 0x59, 0x5a]
  const MpegStreamsTag: seq<byte> := [0x83, 0x9f, 0x58, 0x05, 0x56, 0xc3, 0xce, 0x11, 0xbf, 0x01, 0x00, 0xaa, 0x00, 0x55, 0x59, 0x5a]
  const Mpeg2VideoTag: seq<byte> := [0xe3, 0x80, 0x6d, 0xe0, 0x46, 0xdb, 0xcf, 0x11, 0xb4, 0xd1, 0x00, 0x80, 0x5f, 0x6c, 0xbb, 0xea]

  // Each byte tag is the packing of the declared GUID.
  lemma VideoMajorTagIsPacked()
    ensures VideoMajorTag == Encode(VideoMajorGuid)
  {
  }

  lemma AudioMajorTagIsPacked()
    ensures AudioMajorTag == Encode(AudioMajorGuid)
  {
  }

  lemma WaveFormatExTagIsPacked()
    ensures WaveFormatExTag == Encode(WaveFormatExGuid)
  {
  }

  lemma VideoInfoTagIsPacked()
    ensures VideoInfoTag == Encode(VideoInfoGuid)
  {
  }

  lemma VideoInfo2TagIsPacked()
    ensures VideoInfo2Tag == Encode(VideoInfo2Guid)
  {
  }

  lemma MpegVideoTagIsPacked()
    ensures MpegVideoTag == Encode(MpegVideoGuid)
  {
  }

  lemma MpegStreamsTagIsPacked()
    ensures MpegStreamsTag == Encode(MpegStreamsGuid)
  {
  }

  lemma Mpeg2VideoTagIsPacked()
    ensures Mpeg2VideoTag == Encode(Mpeg2VideoGuid)
  {
  }

  /** Every tag compared against by the parser, major types first. */
  const KnownTags: seq<seq<byte>> := [VideoMajorTag, AudioMajorTag, WaveFormatExTag, VideoInfoTag,
                                      VideoInfo2Tag, MpegVideoTag, MpegStreamsTag, Mpeg2VideoTag]

  /** The tags are pairwise distinct, so the order of the comparison chains
      does not matter. */
  lemma KnownTagsDistinct()
    ensures forall i, j :: 0 <= i < j < |KnownTags| ==> KnownTags[i] != KnownTags[j]
  {
    forall i, j | 0 <= i < j < |KnownTags|
      ensures KnownTags[i] != KnownTags[j]
    {
      assert KnownTags[i][0] != KnownTags[j][0];
    }
  }

  /** The major type of a stream, as distinguished by the header parser. */
  datatype MajorType = Video | Audio | OtherMajor

  /** The format-block layouts the parser recognises. */
  datatype FormatType =
    | VideoInfo | VideoInfo2 | MpegVideo | MpegStreams | Mpeg2Video | WaveFormatEx
    | Unrecognized

  /** The major-type tag of a raw 16-byte field. */
  function MajorTypeOf(b: seq<byte>): MajorType
  {
    if b == VideoMajorTag then Video
    else if b == AudioMajorTag then Audio
    else OtherMajor
  }

  /** The format-type tag of a raw 16-byte field, compared in the order the
      video descriptor dispatch compares them. */
  function FormatTypeOf(b: seq<byte>): FormatType
  {
    if b == VideoInfoTag then VideoInfo
    else if b == VideoInfo2Tag then VideoInfo2
    else if b == MpegVideoTag then MpegVideo
    else if b == MpegStreamsTag then MpegStreams
    else if b == Mpeg2VideoTag then Mpeg2Video
    else if b == WaveFormatExTag then WaveFormatEx
    else Unrecognized
  }

  /** The byte tag of each recognised format type. */
  function TagOf(t: FormatType): seq<byte>
    requires t != Unrecognized
  {
    match t
    case VideoInfo => VideoInfoTag
    case VideoInfo2 => VideoInfo2Tag
    case MpegVideo => MpegVideoTag
    case MpegStreams => MpegStreamsTag
    case Mpeg2Video => Mpeg2VideoTag
    case WaveFormatEx => WaveFormatExTag
  }

  /** Classification inverts TagOf, and a field is Unrecognized exactly when
      it equals no recognised tag. */
  lemma {:induction false} FormatTypeOfTag(t: FormatType, b: seq<byte>)
    ensures t != Unrecognized ==> FormatTypeOf(TagOf(t)) == t
    ensures FormatTypeOf(b) != Unrecognized ==> b == TagOf(FormatTypeOf(b))
    ensures FormatTypeOf(b) == Unrecognized <==> forall i :: 2 <= i < |KnownTags| ==> b != KnownTags[i]
  {
    assert VideoInfoTag[0] != VideoInfo2Tag[0];
    assert KnownTags[2] == WaveFormatExTag && KnownTags[3] == VideoInfoTag;
    assert KnownTags[4] == VideoInfo2Tag && KnownTags[5] == MpegVideoTag;
    assert KnownTags[6] == MpegStreamsTag && KnownTags[7] == Mpeg2VideoTag;
  }
}
