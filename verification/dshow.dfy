/** The format blocks that follow the file header (libavformat/panr_dshow.h)
    and the stream parameters the parser extracts from them
    (extract_video_format_block_info and the audio branch of read_header in
    libavformat/panr.c). The C code casts the block to a packed struct without
    checking its length; here every read is bounds-checked and a read past the
    end of the block is the error DescriptorOverrun. */
module DShow {
  import opened Bytes
  import opened Errors
  import opened Guids
  import Panr

  // VIDEOINFOHEADER and VIDEOINFOHEADER2 both open with two 16-byte RECTs,
  // then a 4-byte bit rate, a 4-byte bit error rate and the 8-byte average
  // frame duration, so the two fields the parser reads share their offsets.
  const RectSize := 16
  const VideoBitRateOffset := 2 * RectSize
  const AvgTimePerFrameOffset := VideoBitRateOffset + 4 + 4
  const VideoFieldsEnd := AvgTimePerFrameOffset + 8

  /** MPEG1VIDEOINFO and MPEG2VIDEOINFO embed the plain header at offset 0. */
  const MpegHeaderOffset := 0

  // WAVEFORMATEX: format tag (u16), channels (u16), samples per second (u32),
  // average bytes per second (u32), block align (u16), bits per sample (u16).
  const WaveChannelsOffset := 2
  const WaveSampleRateOffset := 4
  const WaveBlockAlignOffset := 12
  const WaveBitsPerSampleOffset := 14
  const WaveFieldsEnd := 16

  // AM_MPEGSYSTEMTYPE: bit rate (i32), stream count (i32), then the
  // AM_MPEGSTREAMTYPE array. A stream type holds two i32s, an AM_MEDIA_TYPE
  // and then its own format bytes. AM_MEDIA_TYPE holds two GUIDs, three
  // 4-byte fields, the format-type GUID, a pointer, a u32 and a pointer, so
  // its size depends on the pointer width of the writer.
  const PointerSize := 8
  const SystemBitRateOffset := 0
  const StreamCountOffset := 4
  const FirstStreamOffset := 8
  const StreamMediaTypeOffset := 8
  const MediaTypeFormatTypeOffset := 2 * GuidSize + 3 * 4
  const MediaTypeSize := MediaTypeFormatTypeOffset + GuidSize + PointerSize + 4 + PointerSize

  /** Where the first sub-stream's format-type GUID sits in the system block. */
  const SubStreamFormatTypeOffset := FirstStreamOffset + StreamMediaTypeOffset + MediaTypeFormatTypeOffset

  /** Where the first sub-stream's format-type GUID ends: the last byte of
      the system block the parser reads itself. */
  const SubStreamFormatTypeEnd := SubStreamFormatTypeOffset + GuidSize

  /** Where the first sub-stream's own format bytes start in the system block. */
  const SubStreamFormatOffset := FirstStreamOffset + StreamMediaTypeOffset + MediaTypeSize

  /** The frame rate is num/den frames per second with num fixed at 1000 and
      den the frame duration in 100 ns ticks divided by 10000. */
  const FrameRateNum := 1000
  const TicksPerFrameRateUnit := 10000

  datatype VideoParams = VideoParams(frameRateNum: int, frameRateDen: int, bitRate: int)

  /** The parameters read from a plain video header that starts at offset at. */
  function VideoHeaderAt(block: seq<byte>, at: nat): Result<VideoParams>
  {
    if |block| < at + VideoFieldsEnd then Err(DescriptorOverrun)
    else
      var avgTimePerFrame := I64At(block, at + AvgTimePerFrameOffset);
      Ok(VideoParams(FrameRateNum, WrapInt32(TruncDiv(avgTimePerFrame, TicksPerFrameRateUnit)),
                     I32At(block, at + VideoBitRateOffset)))
  }

  predicate IsLeafVideoFormat(t: FormatType)
  {
    t == VideoInfo || t == VideoInfo2 || t == MpegVideo || t == Mpeg2Video
  }

  /** Whether a system block has a stream count of at least one and holds
      its first sub-stream's format-type GUID. */
  predicate HasSubStream(block: seq<byte>)
  {
    |block| >= SubStreamFormatTypeEnd && I32At(block, StreamCountOffset) >= 1
  }

  function SubStreamFormatType(block: seq<byte>): seq<byte>
    requires |block| >= SubStreamFormatTypeEnd
  {
    block[SubStreamFormatTypeOffset..SubStreamFormatTypeEnd]
  }

  /** The first sub-stream's own format bytes. The parser only takes their
      address, so a block that ends before them is not itself an overrun: the
      sub-stream then has no format bytes, and only a read of them overruns. */
  function SubStreamFormat(block: seq<byte>): (f: seq<byte>)
    requires |block| >= SubStreamFormatTypeEnd
    ensures |f| < |block|
  {
    if |block| >= SubStreamFormatOffset then block[SubStreamFormatOffset..] else []
  }

  /** The video parameters of a format block, dispatched on its format type.
      A system (MPEGStreams) block recurses into its first sub-stream, whose
      format bytes start strictly later in the block. */
  function ExtractVideoFormat(formatType: seq<byte>, block: seq<byte>): (r: Result<VideoParams>)
    ensures r.Ok? ==> r.value.frameRateNum == FrameRateNum
    ensures r.Ok? ==> Panr.IsI32(r.value.frameRateDen) && Panr.IsI32(r.value.bitRate)
    ensures FormatTypeOf(formatType) == Unrecognized ==> r == Err(InvalidData)
    ensures FormatTypeOf(formatType) == WaveFormatEx ==> r == Err(InvalidData)
    ensures (FormatTypeOf(formatType) == MpegStreams && |block| >= FirstStreamOffset
             && I32At(block, StreamCountOffset) < 1) ==> r == Err(InvalidData)
    ensures IsLeafVideoFormat(FormatTypeOf(formatType)) ==> (r.Ok? <==> |block| >= VideoFieldsEnd)
    ensures FormatTypeOf(formatType) == MpegStreams && !HasSubStream(block) ==> r.Err?
    ensures FormatTypeOf(formatType) == MpegStreams && HasSubStream(block)
            ==> r == ExtractVideoFormat(SubStreamFormatType(block), SubStreamFormat(block))
    decreases |block|
  {
    match FormatTypeOf(formatType)
    case VideoInfo => VideoHeaderAt(block, 0)
    case VideoInfo2 => VideoHeaderAt(block, 0)
    case MpegVideo => VideoHeaderAt(block, MpegHeaderOffset)
    case Mpeg2Video => VideoHeaderAt(block, MpegHeaderOffset)
    case MpegStreams =>
      if |block| < FirstStreamOffset then Err(DescriptorOverrun)
      else if I32At(block, StreamCountOffset) < 1 then Err(InvalidData)
      else if |block| < SubStreamFormatTypeEnd then Err(DescriptorOverrun)
      else ExtractVideoFormat(SubStreamFormatType(block), SubStreamFormat(block))
    case WaveFormatEx => Err(InvalidData)
    case Unrecognized => Err(InvalidData)
  }

  /** The descriptor that finally supplies the parameters: system blocks are
      unwrapped to their first sub-stream for as long as they have one. */
  function Innermost(formatType: seq<byte>, block: seq<byte>): (inner: (seq<byte>, seq<byte>))
    ensures |inner.1| <= |block|
    decreases |block|
  {
    if FormatTypeOf(formatType) == MpegStreams && HasSubStream(block)
    then Innermost(SubStreamFormatType(block), SubStreamFormat(block))
    else (formatType, block)
  }

  /** On success the parameters come from the innermost descriptor, which is
      a plain video header: a wrapper's own bit rate is overwritten by the
      recursive call and never survives. */
  lemma {:induction false} ExtractUsesInnermost(formatType: seq<byte>, block: seq<byte>)
    requires ExtractVideoFormat(formatType, block).Ok?
    ensures var (t, b) := Innermost(formatType, block);
            && IsLeafVideoFormat(FormatTypeOf(t))
            && |b| >= VideoFieldsEnd
            && ExtractVideoFormat(formatType, block).value
               == VideoParams(FrameRateNum,
                              WrapInt32(TruncDiv(I64At(b, AvgTimePerFrameOffset), TicksPerFrameRateUnit)),
                              I32At(b, VideoBitRateOffset))
    decreases |block|
  {
    if FormatTypeOf(formatType) == MpegStreams {
      ExtractUsesInnermost(SubStreamFormatType(block), SubStreamFormat(block));
    }
  }

  /** The video parameters of a plain video header whose bit rate and frame
      duration were written at their offsets: the bit rate comes back as
      written, and the denominator is the frame duration in 100 ns ticks
      truncated to milliseconds and narrowed to a C int. */
  lemma ExtractVideoOfWritten(formatType: seq<byte>, block: seq<byte>, bitRate: int, avgTimePerFrame: int)
    requires IsLeafVideoFormat(FormatTypeOf(formatType))
    requires Panr.IsI32(bitRate) && Panr.IsI64(avgTimePerFrame)
    requires |block| >= VideoFieldsEnd
    requires block[VideoBitRateOffset..VideoBitRateOffset + 4] == Panr.EncodeI32(bitRate)
    requires block[AvgTimePerFrameOffset..VideoFieldsEnd] == Panr.EncodeI64(avgTimePerFrame)
    ensures ExtractVideoFormat(formatType, block)
            == Ok(VideoParams(FrameRateNum, WrapInt32(TruncDiv(avgTimePerFrame, TicksPerFrameRateUnit)), bitRate))
  {
    assert Window(block, VideoBitRateOffset, 4) == Panr.EncodeI32(bitRate);
    assert Window(block, AvgTimePerFrameOffset, 8) == Panr.EncodeI64(avgTimePerFrame);
  }

  /** A system block that holds its first sub-stream's format type but not
      that sub-stream's format bytes: when the type names no video format,
      the result is invalid data, as no read goes past the block. */
  lemma ShortSystemBlockUnknownSubStream(formatType: seq<byte>, block: seq<byte>)
    requires FormatTypeOf(formatType) == MpegStreams
    requires SubStreamFormatTypeEnd <= |block| < SubStreamFormatOffset
    requires I32At(block, StreamCountOffset) >= 1
    requires FormatTypeOf(block[SubStreamFormatTypeOffset..SubStreamFormatTypeEnd]) in {Unrecognized, WaveFormatEx}
    ensures ExtractVideoFormat(formatType, block) == Err(InvalidData)
  {
  }

  /** The bit-rate field of a system block has no effect on the result. */
  lemma WrapperBitRateIgnored(formatType: seq<byte>, block: seq<byte>, block': seq<byte>)
    requires FormatTypeOf(formatType) == MpegStreams
    requires |block| == |block'| >= 4
    requires block[4..] == block'[4..]
    ensures ExtractVideoFormat(formatType, block) == ExtractVideoFormat(formatType, block')
  {
    if |block| >= SubStreamFormatTypeEnd {
      assert Window(block, StreamCountOffset, 4) == Window(block', StreamCountOffset, 4);
      assert SubStreamFormatType(block) == SubStreamFormatType(block');
      assert SubStreamFormat(block) == SubStreamFormat(block');
    } else if |block| >= FirstStreamOffset {
      assert Window(block, StreamCountOffset, 4) == Window(block', StreamCountOffset, 4);
    }
  }

  /** Bit rates below this are taken to be in kilobits per second. */
  const KilobitThreshold := 20000

  /** The bit-rate heuristic applied to video streams after extraction. */
  function AdjustVideoBitRate(bitRate: int): int
  {
    if bitRate < KilobitThreshold then bitRate * 1000 else bitRate
  }

  lemma AdjustVideoBitRateExamples()
    ensures AdjustVideoBitRate(15) == 15000
    ensures AdjustVideoBitRate(500000) == 500000
  {
  }

  datatype ChannelLayout = Mono | Stereo

  datatype AudioParams = AudioParams(channels: int, layout: ChannelLayout, sampleRate: int,
                                     blockAlign: int, frameSize: int)

  /** The audio parameters of a WAVEFORMATEX block. The sample rate is a u32
      stored into a C int; the frame size is taken from the bits-per-sample
      field. */
  function ExtractAudioFormat(block: seq<byte>): (r: Result<AudioParams>)
    ensures r.Ok? <==> |block| >= WaveFieldsEnd
    ensures r.Ok? ==> (r.value.layout == Stereo <==> r.value.channels == 2)
    ensures r.Ok? ==> 0 <= r.value.channels < 0x1_0000
  {
    if |block| < WaveFieldsEnd then Err(DescriptorOverrun)
    else
      var channels := U16At(block, WaveChannelsOffset);
      Pow256Values();
      Ok(AudioParams(channels, if channels == 2 then Stereo else Mono,
                     WrapInt32(U32At(block, WaveSampleRateOffset)),
                     U16At(block, WaveBlockAlignOffset), U16At(block, WaveBitsPerSampleOffset)))
  }

  /** The 16 leading WAVEFORMATEX bytes as a writer lays them down: format
      tag, channels, samples per second, average bytes per second, block
      alignment and bits per sample, each little-endian. */
  function EncodeWaveFormat(formatTag: nat, channels: nat, sampleRate: nat, avgBytesPerSec: nat,
                            blockAlign: nat, bitsPerSample: nat): (b: seq<byte>)
    requires formatTag < 0x1_0000 && channels < 0x1_0000 && blockAlign < 0x1_0000 && bitsPerSample < 0x1_0000
    requires sampleRate < 0x1_0000_0000 && avgBytesPerSec < 0x1_0000_0000
    ensures |b| == WaveFieldsEnd
  {
    Pow256Values();
    ToLE(formatTag, 2) + ToLE(channels, 2) + ToLE(sampleRate, 4) + ToLE(avgBytesPerSec, 4)
    + ToLE(blockAlign, 2) + ToLE(bitsPerSample, 2)
  }

  /** The audio parameters of a block that opens with a written WAVEFORMATEX:
      the channel count, block alignment and bits per sample come back as
      written, the sample rate as narrowed to a C int, and the format tag and
      average byte rate are not used. */
  lemma ExtractAudioOfWritten(block: seq<byte>, formatTag: nat, channels: nat, sampleRate: nat,
                              avgBytesPerSec: nat, blockAlign: nat, bitsPerSample: nat)
    requires formatTag < 0x1_0000 && channels < 0x1_0000 && blockAlign < 0x1_0000 && bitsPerSample < 0x1_0000
    requires sampleRate < 0x1_0000_0000 && avgBytesPerSec < 0x1_0000_0000
    requires |block| >= WaveFieldsEnd
    requires block[..WaveFieldsEnd]
             == EncodeWaveFormat(formatTag, channels, sampleRate, avgBytesPerSec, blockAlign, bitsPerSample)
    ensures ExtractAudioFormat(block)
            == Ok(AudioParams(channels, if channels == 2 then Stereo else Mono, WrapInt32(sampleRate),
                              blockAlign, bitsPerSample))
  {
    Pow256Values();
    var b := EncodeWaveFormat(formatTag, channels, sampleRate, avgBytesPerSec, blockAlign, bitsPerSample);
    assert block[0..WaveFieldsEnd] == b;
    assert b[WaveChannelsOffset..WaveChannelsOffset + 2] == ToLE(channels, 2);
    assert b[WaveSampleRateOffset..WaveSampleRateOffset + 4] == ToLE(sampleRate, 4);
    assert b[WaveBlockAlignOffset..WaveBlockAlignOffset + 2] == ToLE(blockAlign, 2);
    assert b[WaveBitsPerSampleOffset..] == ToLE(bitsPerSample, 2);
    assert b[WaveBitsPerSampleOffset..WaveBitsPerSampleOffset + 2] == b[WaveBitsPerSampleOffset..];
    WindowOfPlaced(block, 0, b, WaveChannelsOffset, 2);
    WindowOfPlaced(block, 0, b, WaveSampleRateOffset, 4);
    WindowOfPlaced(block, 0, b, WaveBlockAlignOffset, 2);
    WindowOfPlaced(block, 0, b, WaveBitsPerSampleOffset, 2);
  }
}
