# PANR demuxer model

A Dafny model of the PANR ("Panopto Raw") demuxer of FFmpeg's libavformat.
PANR is a raw-sample container: a fixed file header, a DirectShow format block
that describes the single stream, and then a sequence of sample records. Each
record has a marker byte, a flags byte, a signed data length, optional time
and media-time sections, and the sample body.

The model covers the four pieces of the demuxer:

- **Probe and header.** `Demuxer.Probe` accepts a buffer on signature and
  version. `Demuxer.ReadHeader` reads the header and format block and derives
  the stream parameters. For video this goes through the GUID-tag dispatch
  `DShow.ExtractVideoFormat`, which recurses into the first sub-stream of an
  MPEG system block. Audio goes through `DShow.ExtractAudioFormat`.
- **Sample scanner.** `Scanner.Scan` and the loop method
  `Demuxer.FindSample` slide one byte at a time until a candidate header has
  the marker 0x9C and a data length within the file's maximum buffer size.
- **Sample decoding.** `Demuxer.DecodeSample` reads the time section (relative
  before absolute), skips the media-time section, reads the body and sets the
  keyframe flag from the sync-point bit.
- **Chunked sample index.** `SampleIndex` is a list of chunks of 512
  (position, timestamp) entries. It is appended to only for new maximal
  positions, and searched by the chunk walk `SampleIndex.FindBase`, which is
  proved equal to the reference `SampleIndex.LastBefore`: the timestamp of
  the latest entry strictly before the position. The walk is correct because
  of the invariant `SampleIndex.Valid`: every chunk but the tail is full and
  positions strictly increase.

The input is an immutable byte sequence (`Bytes.byte`). The reader position
is a cursor in `Demuxer.DemuxState`.

Reads past the end of the input deliver zero bytes and do not move the
cursor beyond the end. This matches the byte reader of the host I/O layer,
and the model writes it as `Bytes.Window` and `Bytes.Skip`.

The host's end-of-file test is a parameter `atEnd: nat -> bool`. It is
evaluated at the cursor before each candidate header.

Integers are mathematical. Conversions the C code performs into 32-bit
`int` fields are written out with `Bytes.WrapInt32`. Its truncating division
is written out with `Bytes.TruncDiv`.

Modules:

- `Errors`: the `Result` type.
- `Bytes`: little-endian readers.
- `Guids`: GUID packing and tag classification.
- `Panr`: file and sample header layouts.
- `DShow`: format blocks.
- `Scanner`
- `SampleIndex`
- `Demuxer`: the entry points and the writer round trips.

Some behaviour of the code is easy to misread, and the model keeps it as written:

- `read_header` checks neither the signature nor the version. Only
  `read_probe` does (libavformat/panr.c:50-64 and 134-139;
  `Demuxer.ReadHeaderIgnoresSignature`).
- The frame-rate numerator is set to 1000 (libavformat/panr.c:71), although
  the comment on line 70 says it should be one second in 100 ns ticks. The
  denominator is the frame duration divided by 10000 with C's truncating
  division (libavformat/panr.c:75 and the matching line of each other
  format branch).
- A candidate sample header cut short by the end of the input gives
  `AVERROR_INVALIDDATA` (libavformat/panr.c:249-254), not the end of the
  stream.
- The backward in-chunk scan runs whenever the sample's position falls
  inside a chunk's span, whether or not that chunk is full
  (libavformat/panr.c:312-325).
- The audio branch copies the WAVEFORMATEX fields as stored and attaches no
  codec-configuration data (libavformat/panr.c:202-211).
- `read_close` frees only the format block, not the index chunks
  (libavformat/panr.c:417-428).

## Model

| member | source | states |
|---|---|---|
| Guids.DecodeEncode | libavformat/panr_dshow.h:35-41 | unpacking the 16 packed bytes of a well-formed GUID gives back the GUID |
| Guids.EncodeDecode | libavformat/panr_dshow.h:35-41 | every 16-byte string is the packing of exactly the GUID decoded from it |
| Guids.VideoMajorTagIsPacked | libavformat/panr_dshow.h:80 | the byte tag compared against is the little-endian packing of the declared Video major type GUID |
| Guids.AudioMajorTagIsPacked | libavformat/panr_dshow.h:81 | the same for the Audio major type GUID |
| Guids.WaveFormatExTagIsPacked | libavformat/panr_dshow.h:85 | the same for the WaveFormatEx format GUID |
| Guids.VideoInfoTagIsPacked | libavformat/panr_dshow.h:87 | the same for the VideoInfo format GUID |
| Guids.VideoInfo2TagIsPacked | libavformat/panr_dshow.h:88 | the same for the VideoInfo2 format GUID |
| Guids.MpegVideoTagIsPacked | libavformat/panr_dshow.h:90 | the same for the MPEGVideo format GUID |
| Guids.MpegStreamsTagIsPacked | libavformat/panr_dshow.h:91 | the same for the MPEGStreams format GUID |
| Guids.Mpeg2VideoTagIsPacked | libavformat/panr_dshow.h:92 | the same for the MPEG2Video format GUID |
| Guids.KnownTagsDistinct | libavformat/panr_dshow.h:80-92 | the eight dispatch GUIDs are pairwise distinct, so the order of the comparison chains cannot change a result |
| Guids.FormatTypeOfTag | libavformat/panr.c:72-115 | format-type classification inverts the tag of each recognised type, and a field is unrecognised exactly when it equals none of the six format tags |
| Panr.ParseFileHeader | libavformat/panr.h:44-60 | every field read from the 108 header bytes lies in the range of its on-disk width |
| Panr.ParseEncodeFileHeader | libavformat/panr.h:32-60 | the documented field order and widths: parsing a written header, whatever format bytes follow it, gives back the header |
| Panr.ParseEncodeTimes | libavformat/panr.h:46-51 | the signature, version and the four times of a written header read back from offsets 0 to 39 |
| Panr.ParseEncodeTypes | libavformat/panr.h:52-59 | the major type, subtype, sample properties, format type, buffer size and format length of a written header read back from offsets 40 to 107 |
| Panr.FlagsByteOfFlagsOf | libavformat/panr.h:82-96 | splitting a flags byte into its eight named bits and reassembling them gives back the byte |
| Panr.FlagsOfFlagsByte | libavformat/panr.h:82-96 | every combination of the eight flags is a distinct byte that splits back into it |
| Panr.FlagMasks | libavformat/panr.h:87-94 | each named flag is one bit of the flags byte, from discontinuity at bit 0 (mask 1) to reserved at bit 7 (mask 128), and no flag set is the byte 0 |
| Panr.FromBitsOfBits | libavformat/panr.h:85-95 | reading the low n bits of a number below 2^n, bit 0 first, and reassembling them gives the number back |
| Panr.BitsOfFromBits | libavformat/panr.h:85-95 | assembling a bit list and splitting the number gives the list back |
| Panr.ParseSampleHeader | libavformat/panr.h:79-98 | the data length read from a sample header is a signed 32-bit value (the field-by-field round trip is Demuxer.WrittenHeader) |
| DShow.ExtractVideoFormat | libavformat/panr.c:66-119 | the numerator is always 1000; denominator and bit rate are 32-bit ints; a plain video header (VideoInfo, VideoInfo2, MPEGVideo, MPEG2Video) gives parameters exactly when its 48 leading bytes are present; a system block with a stream count of at least one that holds its first sub-stream's format-type GUID gives exactly the parameters of that sub-stream, and any other system block fails, with invalid data when it has fewer than one stream; an unrecognised or WaveFormatEx format type is invalid data |
| DShow.ExtractVideoOfWritten | libavformat/panr.c:72-89 | on a plain video header whose bit rate was written at offset 32 and frame duration at offset 40 (libavformat/panr_dshow.h:94-102), the bit rate comes back as written and the denominator is the duration over 10000, truncated toward zero and narrowed to a C int |
| DShow.ShortSystemBlockUnknownSubStream | libavformat/panr.c:91-115 | a system block that ends after its first sub-stream's format type but before that sub-stream's format bytes is invalid data when the type names no video format, since the parser reads nothing past the block |
| DShow.ExtractUsesInnermost | libavformat/panr.c:90-104 | on success the parameters come from the innermost descriptor, which is a plain video header: frame duration at offset 40 over 10000, bit rate at offset 32 |
| DShow.WrapperBitRateIgnored | libavformat/panr.c:99-103 | the bit rate of a system block has no effect on the result, because the recursive call overwrites it |
| DShow.AdjustVideoBitRateExamples | libavformat/panr.c:186-192 | a video bit rate of 15 becomes 15000 and one of 500000 is unchanged |
| DShow.ExtractAudioFormat | libavformat/panr.c:202-211 | audio parameters exist exactly when the WAVEFORMATEX fields fit the block; the layout is stereo exactly when there are 2 channels; channels is a 16-bit count |
| DShow.ExtractAudioOfWritten | libavformat/panr.c:202-211 | on a block that opens with a written WAVEFORMATEX (libavformat/panr_dshow.h:66-75), channels, block alignment and bits per sample (as frame size) come back as written from offsets 2, 12 and 14, the sample rate from offset 4 narrowed to a C int, and the format tag and average byte rate are unused |
| Scanner.Scan | libavformat/panr.c:240-267 | the scan stops at or after the cursor, every position it passes is a rejected full candidate, and it stops on an accepted header, on the end test, or on a candidate that does not fit |
| Scanner.ScanSkipsRejected | libavformat/panr.c:265-266 | a rejected candidate advances the scan by exactly one byte without other effect: scanning from p or from any later q over rejected positions gives the same outcome |
| Scanner.ScanStopsAtFirst | libavformat/panr.c:240-267 | the outcome is decided by the first position that is not rejected: end of file if the end test holds there, a truncation if the header does not fit, otherwise the accepted header |
| Scanner.ReadCount | libavformat/panr.c:249 | a full read returns the requested count exactly when it fits, and a partial count exactly when some but not all bytes remain |
| Scanner.ShortReadAsWrittenMissesEmptyRead | libavformat/panr.c:249-254 | as written, a read cut short by the end of the input is caught only when it returned some bytes |
| Scanner.ShortReadIsTruncation | libavformat/panr.c:249-254 | the intended short-read test flags exactly the candidates that do not fit, which is where Scan reports a truncation |
| SampleIndex.LastBeforeIsLatest | libavformat/panr.c:275-330 | the reference lookup gives the timestamp of the highest-indexed entry before the position, or 0 when there is none |
| SampleIndex.Append | libavformat/panr.c:377-398 | appending adds exactly the new entry at the end of the entry list, opens a new chunk exactly when the tail is full, and leaves every other chunk unchanged |
| SampleIndex.AppendKeepsValid | libavformat/panr.c:375-401 | appending a position beyond every recorded one keeps positions strictly increasing and every non-tail chunk full |
| SampleIndex.LastBeforeIgnoresLater | libavformat/panr.c:372-374 | entries recorded at or after the lookup position never change its result |
| SampleIndex.LookupStopsAtChunk | libavformat/panr.c:286-290 | a chunk that is empty or starts at or after the position ends the walk without loss: the result is decided by the chunks before it |
| SampleIndex.LookupPassesChunk | libavformat/panr.c:293-310 | a chunk that ends before the position supplies its last timestamp as the running base |
| SampleIndex.LookupInsideChunk | libavformat/panr.c:318-325 | when the position falls right after entry i of a chunk, entry i's timestamp is the answer over the whole index |
| SampleIndex.FindBase | libavformat/panr.c:275-330 | on a valid index the chunk walk with the backward in-chunk scan returns the timestamp of the latest entry before the position, or 0 |
| Demuxer.Probe | libavformat/panr.c:50-64 | the score is the maximum exactly when a full header is present and its signature and version match, and 0 otherwise |
| Demuxer.ProbeOfHeader | libavformat/panr.c:50-64 | on a written header the probe accepts exactly signature 'PANR' with version 1, whatever follows |
| Demuxer.StreamOf | libavformat/panr.c:171-217 | Video succeeds exactly when the video dispatch does, and the stream has the extracted parameters with the bit-rate heuristic applied; Audio succeeds exactly on a WaveFormatEx block large enough, and the stream has the extracted audio parameters; any other major type, or Audio with another format type, is invalid data |
| Demuxer.AdjustVideoBitRateReachesThreshold | libavformat/panr.c:189-192 | after the heuristic a rate is at least 20000 exactly when the extracted rate was at least 20, and rates at or above 20000 are unchanged |
| Demuxer.InitialState | libavformat/panr.c:219-225 | a fresh reader state has an index with no entries that meets the index invariant |
| Demuxer.ReadHeader | libavformat/panr.c:134-226 | too few bytes for the header or for the format block is invalid data; an opened session has the parsed header, the format block that follows it, the stream derived from them, an index with no entries that meets the index invariant, and the cursor after the block; when the stream cannot be derived, the session fails with the derivation's own error, invalid data for an unsupported major type or audio format type |
| Demuxer.ReadHeaderOfWritten | libavformat/panr.c:134-226 | reading a written header and block gives back that header and block, opens exactly when the stream parameters can be derived, and otherwise fails with the derivation's error |
| Demuxer.ReadHeaderOpens | libavformat/panr.c:134-226 | once the header and the format block are present, the session opens exactly when the stream can be derived from them, with that stream and the initial reader state |
| Demuxer.ReadHeaderIgnoresSignature | libavformat/panr.c:134-139 | inputs that agree from byte 8 on open the same stream and state: signature and version are not checked here |
| Demuxer.TimeSection | libavformat/panr.c:273-347 | the time section occupies two fields of the documented width (relative wins over absolute), and without a time flag the timestamp is unknown |
| Demuxer.SkipMediaSection | libavformat/panr.c:349-357 | the two 8-byte reads or the single 8-byte read skip two media time fields of the documented width |
| Demuxer.DecodeSample | libavformat/panr.c:273-370 | decoding succeeds exactly when the length is non-negative and the header, both time sections and the body lie inside the input, so a zero-length sample whose sections run past the end is invalid data (a negative length is always invalid data here; see Left out); the packet records the marker position, its key flag is the sync-point bit, its body is the bytes after the sections, and its timestamp is base plus delta, the absolute time, or unknown |
| Demuxer.RecordKeepsConsistent | libavformat/panr.c:375-401 | recording keeps the index valid and the last position equal to the newest entry, adds exactly the new entry when the position is new and nothing otherwise |
| Demuxer.NextPacket | libavformat/panr.c:232-401 | end of stream exactly when the scan hits the end test; truncation is invalid data; a packet sits where the scan stopped and the cursor moves strictly past it |
| Demuxer.NextPacketKeepsConsistent | libavformat/panr.c:372-401 | reading a packet keeps the index invariant |
| Demuxer.FindSample | libavformat/panr.c:240-267 | the byte-by-byte scan loop computes Scan |
| Demuxer.DecodeSampleAt | libavformat/panr.c:273-364 | decoding with the chunk walk computes DecodeSample with the reference base |
| Demuxer.ReadPacket | libavformat/panr.c:232-401 | the packet reader computes NextPacket |
| Demuxer.RelativeFollowsPrevious | libavformat/panr.c:273-330 | a relative timestamp continues from the previous sample: after a sample is read at a new position, a relative next sample gets its timestamp plus its own delta |
| Demuxer.NewSampleIsBase | libavformat/panr.c:286-398 | after a sample is read at a new position, the lookup from any position at or after the new cursor gives that sample's timestamp |
| Demuxer.NextPacketRelativePts | libavformat/panr.c:232-347 | a relative packet read gets the lookup at its own position plus the signed 32-bit delta that follows its header |
| Demuxer.NextPacketDecodes | libavformat/panr.c:232-401 | a packet read is exactly the decoded sample at the scanner's stop, with the base the index gives its position, and the new state records it and sits right after its body |
| Demuxer.RelativePts | libavformat/panr.c:273-335 | a decoded relative sample's timestamp is the base plus the signed 32-bit delta that follows its header |
| Demuxer.ReplayGivesSamePacket | libavformat/panr.c:372-401 | reading again from the same cursor after the reader has moved on gives the same packet, timestamp included |
| Demuxer.EncodeSampleLayout | libavformat/panr.h:62-77 | in a written record the marker, flags and length open the record, the start time follows the header, and the body ends it |
| Demuxer.WrittenHeader | libavformat/panr.h:79-98 | the header of a written record parses back to its marker, flags and body length |
| Demuxer.WrittenStartTime | libavformat/panr.h:67-71 | the start time of a written record reads back from right after the header, as a 4-byte or an 8-byte field as its flags say |
| Demuxer.WrittenBody | libavformat/panr.h:72-77 | the body of a written record is found right after its time and media sections and ends the record |
| Demuxer.DecodeWrittenSample | libavformat/panr.c:273-370 | decoding a written record gives back its timestamp, key flag and body and moves past it |
| Demuxer.ScanFindsWrittenSample | libavformat/panr.c:256-263 | the scanner accepts a written record whose body fits the buffer size |
| Demuxer.NextPacketOfWritten | libavformat/panr.c:232-370 | reading a packet at a written record yields that record with its timestamp resolved against the index, and moves the cursor past it |

## Findings

| source | as written | input that shows it | evidently intended | confidence | as-written member | corrected member |
|---|---|---|---|---|---|---|
| libavformat/panr.c:249-250 | the int result of the candidate read is compared with `sizeof(raw_header)`, a size_t, so a negative result becomes a huge unsigned value and passes the short-read test | a file whose last sample ends exactly at the end of the input, read again before the host has set its end-of-file flag: the read returns the end-of-file code and the code goes on with a stale or uninitialised header | any result below the header size, error codes included, is a short read and gives invalid data | not executed; medium | Scanner.ShortReadAsWrittenMissesEmptyRead | Scanner.ShortReadIsTruncation |

`Scan` reports `Truncated` exactly under the corrected test. `NextPacket`
turns that into invalid data.

## Left out

- Host plumbing is not modelled: stream creation, the time base of 1/10000000, the H264 and AAC codec ids, `need_parsing` and `nb_frames`, `av_add_index_entry`, and the `AVInputFormat` table. Each of these sets a constant or hands data to the host.
- Allocation failures (the ENOMEM paths of the format block, the stream and the index chunks) are not modelled: allocation always succeeds.
- `read_close` frees only the format block. It has no observable result in a model without memory.
- The host end-of-file flag is the parameter `atEnd`. How it depends on earlier reads and seeks is not modelled.
- After a failed read the session is not modelled. `NextPacket` returns only the error, while the C cursor has moved.
- Demuxer.DecodeSample: a negative data length passes the scanner and reaches `av_get_packet` (libavformat/panr.c:359). The model treats every negative length as invalid data. The source compares the host's return value with the length using `!=`, so a length equal to the host's refusal code would be accepted and produce an empty packet. That return code belongs to the host library and is not modelled. A zero length yields an empty packet when the header and the time sections lie inside the input. When those reads ran past the end, the host's zero-byte read reports end of file and the model gives invalid data. Whether an earlier read set the host's end-of-file flag is not modelled otherwise.
- The C code reads the format block through packed struct casts with no length check. The model checks every read and reports a read past the block as `DescriptorOverrun`. The first sub-stream of an MPEG system block is located by address only, so a block that ends before that sub-stream's format bytes is not an overrun by itself; the sub-stream then has no format bytes.
- The sizes follow the documented packed layout: a 108-byte file header and a 6-byte sample header with the length at offset 2. The header structs in libavformat/panr.h sit outside the `pragma pack` region of the format-block header, so a default x86-64 build would lay them out with padding. The constants name the documented layout.
- The offset of the first sub-stream's format bytes in an MPEG system block depends on the pointer width of the writer. The model takes 8-byte pointers (`DShow.PointerSize`).
- Timestamps use mathematical integers. The 64-bit wrap-around of `last_pts + start_delta` is not modelled, including when the base is the unknown-timestamp sentinel recorded for a sample without time flags.
- `last_sample_pos` is taken as 0 in a fresh session, as the host zeroes the private context. It is a `nat` rather than an `int64_t`.
- libavformat/dshow.h is not part of this model. It repeats the layouts and GUIDs of libavformat/panr_dshow.h under unprefixed names.
- RECT and BITMAPINFOHEADER contents, the bit error rate, MPEG sequence headers and the H264 subtype GUIDs are never read by the demuxer and are not modelled.
- Panr.ParseSampleHeader: its own contract states only the range of the length field. The lemma `Demuxer.WrittenHeader` states that a written header parses back.
- Panr.ParseFileHeader: its own contract states only the field ranges. The lemma `Panr.ParseEncodeFileHeader` states the round trip.
- DShow.AdjustVideoBitRateExamples: states the heuristic on two sample rates. `Demuxer.AdjustVideoBitRateReachesThreshold` states it for all rates.
