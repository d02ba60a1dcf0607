/** The demuxer entry points of libavformat/panr.c: the probe, the header
    reader that opens a session on the single stream of a file, and the packet
    reader that scans for the next sample, decodes its time sections and
    records its timestamp in the sample index. The input is an immutable byte
    sequence; the reader's position is a cursor carried in the session state. */
module Demuxer {
  import opened Bytes
  import opened Errors
  import opened Guids
  import opened Panr
  import opened DShow
  import opened Scanner
  import opened SampleIndex

  /** The score of a certain probe match (AVPROBE_SCORE_MAX). */
  const ProbeScoreMax := 100

  /** The probe: a confident match on a full header with the PANR signature
      and the supported version, no match otherwise. */
  function Probe(buf: seq<byte>): (score: int)
    ensures score == ProbeScoreMax || score == 0
    ensures score == ProbeScoreMax
            <==> (&& |buf| >= FileHeaderSize
                  && ParseFileHeader(buf).signature == Signature
                  && ParseFileHeader(buf).version == SupportedVersion)
  {
    if |buf| >= FileHeaderSize && U32At(buf, SignatureOffset) == Signature
       && I32At(buf, VersionOffset) == SupportedVersion
    then ProbeScoreMax
    else 0
  }

  /** The probe in terms of a written header: it accepts exactly the headers
      that carry the signature and version 1, whatever follows them. */
  lemma ProbeOfHeader(h: FileHeader, rest: seq<byte>)
    requires FieldsInRange(h)
    ensures Probe(EncodeFileHeader(h) + rest) == ProbeScoreMax
            <==> h.signature == Signature && h.version == SupportedVersion
  {
    ParseEncodeFileHeader(h, rest);
  }

  /** The parameters of the file's single stream. */
  datatype StreamParams = VideoStream(video: VideoParams) | AudioStream(audio: AudioParams)

  /** What the packet reader carries from one call to the next. */
  datatype DemuxState = DemuxState(bufferSize: int, index: Index, lastSamplePos: nat, cursor: nat)

  /** An opened file: its header, its format block, its stream and the
      reader state. */
  datatype Session = Session(header: FileHeader, formatBlock: seq<byte>, stream: StreamParams,
                             state: DemuxState)

  /** The stream parameters, dispatched on the major type. Video takes the
      parameters of the format block and then applies the bit-rate heuristic;
      audio needs a WAVEFORMATEX block; any other major type is invalid. */
  function StreamOf(h: FileHeader, block: seq<byte>): (r: Result<StreamParams>)
    ensures MajorTypeOf(h.majorType) == OtherMajor ==> r == Err(InvalidData)
    ensures MajorTypeOf(h.majorType) == Audio && h.formatType != WaveFormatExTag
            ==> r == Err(InvalidData)
    ensures MajorTypeOf(h.majorType) == Audio && h.formatType == WaveFormatExTag
            ==> (r.Ok? <==> |block| >= WaveFieldsEnd)
    ensures MajorTypeOf(h.majorType) == Video
            ==> (r.Ok? <==> ExtractVideoFormat(h.formatType, block).Ok?)
    ensures r.Ok? ==> (r.value.VideoStream? <==> MajorTypeOf(h.majorType) == Video)
    ensures r.Ok? && r.value.AudioStream? ==> (r.value.audio.layout == Stereo <==> r.value.audio.channels == 2)
    ensures r.Ok? && r.value.VideoStream?
            ==> var v := ExtractVideoFormat(h.formatType, block).value;
                r.value.video == v.(bitRate := AdjustVideoBitRate(v.bitRate))
    ensures r.Ok? && r.value.AudioStream? ==> r.value.audio == ExtractAudioFormat(block).value
  {
    match MajorTypeOf(h.majorType)
    case Video =>
      var v :- ExtractVideoFormat(h.formatType, block);
      Ok(VideoStream(v.(bitRate := AdjustVideoBitRate(v.bitRate))))
    case Audio =>
      if h.formatType != WaveFormatExTag then Err(InvalidData)
      else
        var a :- ExtractAudioFormat(block);
        Ok(AudioStream(a))
    case OtherMajor => Err(InvalidData)
  }

  /** The bit-rate heuristic lifts every rate from 20 up to the threshold,
      and only those, to at least the threshold. */
  lemma AdjustVideoBitRateReachesThreshold(bitRate: int)
    ensures AdjustVideoBitRate(bitRate) >= KilobitThreshold <==> bitRate >= 20
    ensures bitRate >= KilobitThreshold ==> AdjustVideoBitRate(bitRate) == bitRate
  {
  }

  /** The reader state of a freshly opened session: an index holding one
      empty chunk, no sample recorded, the cursor after the format block. */
  function InitialState(h: FileHeader): (s: DemuxState)
    ensures Consistent(s) && Entries(s.index) == []
  {
    assert Entries(Empty) == [];
    DemuxState(h.bufferSize, Empty, 0, FileHeaderSize + h.formatLength)
  }

  /** Reads the header and the format block and derives the stream. A short
      read of either is invalid data. Neither the signature nor the version
      is checked here. */
  function ReadHeader(data: seq<byte>): (r: Result<Session>)
    ensures |data| < FileHeaderSize ==> r == Err(InvalidData)
    ensures |data| >= FileHeaderSize && |data| < FileHeaderSize + ParseFileHeader(data).formatLength
            ==> r == Err(InvalidData)
    ensures r.Ok? ==> |data| >= FileHeaderSize && r.value.header == ParseFileHeader(data)
    ensures r.Ok? ==> r.value.state == InitialState(r.value.header) && r.value.state.cursor <= |data|
    ensures r.Ok? ==> r.value.formatBlock == data[FileHeaderSize..r.value.state.cursor]
    ensures r.Ok? ==> Consistent(r.value.state) && Entries(r.value.state.index) == []
    ensures r.Ok? ==> StreamOf(r.value.header, r.value.formatBlock) == Ok(r.value.stream)
    ensures |data| >= FileHeaderSize ==>
              var h := ParseFileHeader(data);
              |data| >= FileHeaderSize + h.formatLength ==>
                var stream := StreamOf(h, data[FileHeaderSize..FileHeaderSize + h.formatLength]);
                stream.Err? ==> r == Err(stream.error)
  {
    if |data| < FileHeaderSize then Err(InvalidData)
    else
      var h := ParseFileHeader(data);
      if |data| < FileHeaderSize + h.formatLength then Err(InvalidData)
      else
        var block := data[FileHeaderSize..FileHeaderSize + h.formatLength];
        var stream :- StreamOf(h, block);
        Ok(Session(h, block, stream, InitialState(h)))
  }

  /** Reading a written header and format block gives back that header and
      block, and the stream the block describes. */
  lemma ReadHeaderOfWritten(h: FileHeader, block: seq<byte>, rest: seq<byte>)
    requires FieldsInRange(h) && h.formatLength == |block|
    ensures var r := ReadHeader(EncodeFileHeader(h) + block + rest);
            && (r.Ok? <==> StreamOf(h, block).Ok?)
            && (r.Ok? ==> r.value == Session(h, block, StreamOf(h, block).value, InitialState(h)))
            && (StreamOf(h, block).Err? ==> r == Err(StreamOf(h, block).error))
  {
    var data := EncodeFileHeader(h) + block + rest;
    assert data == EncodeFileHeader(h) + (block + rest);
    ParseEncodeFileHeader(h, block + rest);
    assert data[FileHeaderSize..FileHeaderSize + |block|] == block;
  }

  /** The fields after the version come from bytes 8 onwards only. */
  lemma FieldsAfterVersionAgree(data: seq<byte>, data': seq<byte>)
    requires |data| == |data'| >= FileHeaderSize
    requires data[VersionOffset + 4..] == data'[VersionOffset + 4..]
    ensures var h := ParseFileHeader(data);
            var h' := ParseFileHeader(data');
            && h.majorType == h'.majorType && h.formatType == h'.formatType
            && h.bufferSize == h'.bufferSize && h.formatLength == h'.formatLength
  {
    var d := data[VersionOffset + 4..];
    assert data[MajorTypeOffset..MajorTypeOffset + 16] == d[MajorTypeOffset - 8..MajorTypeOffset + 8];
    assert data'[MajorTypeOffset..MajorTypeOffset + 16] == d[MajorTypeOffset - 8..MajorTypeOffset + 8];
    assert data[FormatTypeOffset..FormatTypeOffset + 16] == d[FormatTypeOffset - 8..FormatTypeOffset + 8];
    assert data'[FormatTypeOffset..FormatTypeOffset + 16] == d[FormatTypeOffset - 8..FormatTypeOffset + 8];
    assert Window(data, BufferSizeOffset, 4) == d[BufferSizeOffset - 8..BufferSizeOffset - 4];
    assert Window(data', BufferSizeOffset, 4) == d[BufferSizeOffset - 8..BufferSizeOffset - 4];
    assert Window(data, FormatLengthOffset, 4) == d[FormatLengthOffset - 8..FormatLengthOffset - 4];
    assert Window(data', FormatLengthOffset, 4) == d[FormatLengthOffset - 8..FormatLengthOffset - 4];
  }

  /** The signature and the version do not influence the header reader:
      two inputs that agree from byte 8 on open the same stream and state. */
  lemma ReadHeaderIgnoresSignature(data: seq<byte>, data': seq<byte>)
    requires |data| == |data'| >= VersionOffset + 4
    requires data[VersionOffset + 4..] == data'[VersionOffset + 4..]
    ensures ReadHeader(data).Ok? <==> ReadHeader(data').Ok?
    ensures ReadHeader(data).Ok? ==> ReadHeader(data).value.stream == ReadHeader(data').value.stream
                                     && ReadHeader(data).value.state == ReadHeader(data').value.state
  {
    if |data| >= FileHeaderSize {
      FieldsAfterVersionAgree(data, data');
      var h := ParseFileHeader(data);
      var h' := ParseFileHeader(data');
      if |data| >= FileHeaderSize + h.formatLength {
        var block := data[FileHeaderSize..FileHeaderSize + h.formatLength];
        assert block == data'[FileHeaderSize..FileHeaderSize + h.formatLength] by {
          var d := data[VersionOffset + 4..];
          assert data[VersionOffset + 4..|data|] == d && data'[VersionOffset + 4..|data'|] == d;
          SliceOfPlaced(data, VersionOffset + 4, d, FileHeaderSize - 8, FileHeaderSize - 8 + h.formatLength);
          SliceOfPlaced(data', VersionOffset + 4, d, FileHeaderSize - 8, FileHeaderSize - 8 + h.formatLength);
        }
        assert StreamOf(h, block) == StreamOf(h', block);
        assert InitialState(h) == InitialState(h');
        ReadHeaderOpens(data);
        ReadHeaderOpens(data');
      }
    }
  }

  /** Once the header and the format block are present, the header reader
      opens exactly when the stream can be derived, with that stream and the
      initial state of the header. */
  lemma ReadHeaderOpens(data: seq<byte>)
    requires |data| >= FileHeaderSize && |data| >= FileHeaderSize + ParseFileHeader(data).formatLength
    ensures var h := ParseFileHeader(data);
            var stream := StreamOf(h, data[FileHeaderSize..FileHeaderSize + h.formatLength]);
            && (ReadHeader(data).Ok? <==> stream.Ok?)
            && (stream.Ok? ==> ReadHeader(data).value.stream == stream.value
                               && ReadHeader(data).value.state == InitialState(h))
  {
  }


  /** The timestamp FFmpeg uses for an unknown time (AV_NOPTS_VALUE). */
  const NoPts := -0x8000_0000_0000_0000

  /** A demuxed packet: the position of its sample header, its timestamp,
      the keyframe flag and the sample body. */
  datatype Packet = Packet(markerPos: nat, pts: int, key: bool, payload: seq<byte>)

  /** The start time of a sample whose time section begins at c, and the
      cursor after the section. The relative flag is checked first: a signed
      32-bit delta from base. The end time is read and dropped. */
  function TimeSection(data: seq<byte>, c: nat, f: Flags, base: int): (r: (int, nat))
    requires c <= |data|
    ensures r.1 == Skip(data, c, 2 * TimeFieldWidth(f))
    ensures !f.timeRelative && !f.timeAbsolute ==> r.0 == NoPts
  {
    if f.timeRelative then (base + I32At(data, c), Skip(data, c, 8))
    else if f.timeAbsolute then (I64At(data, c), Skip(data, c, 16))
    else (NoPts, c)
  }

  /** Skips the media time section, which the parser never uses: two 8-byte
      reads when absolute, one 8-byte read when relative. */
  function SkipMediaSection(data: seq<byte>, c: nat, f: Flags): (c': nat)
    requires c <= |data|
    ensures c' == Skip(data, c, 2 * MediaFieldWidth(f))
  {
    if f.mediaTimeAbsolute then Skip(data, Skip(data, c, 8), 8)
    else if f.mediaTimeRelative then Skip(data, c, 8)
    else c
  }

  /** Where the body of the sample whose header is at pos starts; it may lie
      past the end of the input. */
  function BodyStart(data: seq<byte>, pos: nat): nat
  {
    pos + SampleHeaderSize + SectionsWidth(ParseSampleHeader(data, pos).flags)
  }

  /** Decodes the accepted sample whose header is at pos, given the base of a
      relative timestamp; on success also the cursor after the body. The body
      read must deliver exactly the data length: a negative length or a body
      cut short by the end of the input is invalid data. So is a zero length
      whose time sections already ran past the end: the host's read of zero
      bytes then reports end of file, which differs from the length. */
  function DecodeSample(data: seq<byte>, pos: nat, base: int): (r: Result<(Packet, nat)>)
    requires pos + SampleHeaderSize <= |data|
    ensures var h := ParseSampleHeader(data, pos);
            r.Ok? <==> 0 <= h.dataLength && BodyStart(data, pos) + h.dataLength <= |data|
    ensures r.Err? ==> r.error == InvalidData
    ensures r.Ok? ==> var h := ParseSampleHeader(data, pos);
                      && r.value.0.markerPos == pos
                      && r.value.0.key == h.flags.syncPoint
                      && r.value.1 == BodyStart(data, pos) + h.dataLength <= |data|
                      && r.value.0.payload == data[BodyStart(data, pos)..r.value.1]
    ensures r.Ok? ==> var f := ParseSampleHeader(data, pos).flags;
                      && (f.timeRelative ==> r.value.0.pts == base + I32At(data, pos + SampleHeaderSize))
                      && (!f.timeRelative && f.timeAbsolute ==> r.value.0.pts == I64At(data, pos + SampleHeaderSize))
                      && (!f.timeRelative && !f.timeAbsolute ==> r.value.0.pts == NoPts)
  {
    var h := ParseSampleHeader(data, pos);
    var (pts, c) := TimeSection(data, pos + SampleHeaderSize, h.flags, base);
    var c' := SkipMediaSection(data, c, h.flags);
    if h.dataLength < 0 || BodyStart(data, pos) + h.dataLength > |data| then Err(InvalidData)
    else Ok((Packet(pos, pts, h.flags.syncPoint, data[c'..c' + h.dataLength]), c' + h.dataLength))
  }

  /** The index invariant of a session: the index is valid, and the last
      recorded position is that of the newest entry, or 0 while there is none. */
  predicate Consistent(s: DemuxState)
  {
    && Valid(s.index)
    && (|Entries(s.index)| == 0 ==> s.lastSamplePos == 0)
    && (|Entries(s.index)| > 0 ==> s.lastSamplePos == Entries(s.index)[|Entries(s.index)| - 1].filePos)
  }

  /** Records the timestamp of the sample at pos when pos is beyond every
      position recorded so far, and leaves the index alone otherwise. */
  function Record(s: DemuxState, pos: nat, pts: int): (s': DemuxState)
    requires Valid(s.index)
    ensures s'.bufferSize == s.bufferSize && s'.cursor == s.cursor
  {
    if pos > s.lastSamplePos then s.(index := Append(s.index, Entry(pos, pts)), lastSamplePos := pos)
    else s
  }

  /** Recording keeps the invariant, adds exactly the new entry when the
      position is new and nothing otherwise, and never changes an existing
      entry. */
  lemma RecordKeepsConsistent(s: DemuxState, pos: nat, pts: int)
    requires Consistent(s)
    ensures Consistent(Record(s, pos, pts))
    ensures Entries(Record(s, pos, pts).index)
            == if pos > s.lastSamplePos then Entries(s.index) + [Entry(pos, pts)] else Entries(s.index)
    ensures Record(s, pos, pts).lastSamplePos >= s.lastSamplePos
  {
    if pos > s.lastSamplePos {
      var es := Entries(s.index);
      forall i | 0 <= i < |es|
        ensures es[i].filePos < pos
      {
        if i < |es| - 1 {
          assert es[i].filePos < es[|es| - 1].filePos;
        }
      }
      AppendKeepsValid(s.index, Entry(pos, pts));
    }
  }

  /** The next packet, as the reader defines it: scan for an accepted sample
      header from the cursor, decode the sample with the base its position
      gets from the index, record its timestamp and move past its body. */
  function NextPacket(data: seq<byte>, atEnd: nat -> bool, s: DemuxState): (r: Result<(Packet, DemuxState)>)
    requires Valid(s.index)
    ensures r == Err(EndOfFile) <==> Scan(data, s.bufferSize, atEnd, s.cursor).AtEnd?
    ensures Scan(data, s.bufferSize, atEnd, s.cursor).Truncated? ==> r == Err(InvalidData)
    ensures r.Ok? ==> Scan(data, s.bufferSize, atEnd, s.cursor) == Found(r.value.0.markerPos)
    ensures r.Ok? ==> s.cursor <= r.value.0.markerPos < r.value.1.cursor <= |data|
    ensures r.Ok? ==> r.value.1.bufferSize == s.bufferSize
  {
    match Scan(data, s.bufferSize, atEnd, s.cursor)
    case AtEnd(_) => Err(EndOfFile)
    case Truncated(_) => Err(InvalidData)
    case Found(pos) =>
      var decoded :- DecodeSample(data, pos, LastBefore(Entries(s.index), pos));
      var packet := decoded.0;
      Ok((packet, Record(s, pos, packet.pts).(cursor := decoded.1)))
  }

  /** Reading a packet keeps the index invariant. */
  lemma NextPacketKeepsConsistent(data: seq<byte>, atEnd: nat -> bool, s: DemuxState)
    requires Consistent(s)
    requires NextPacket(data, atEnd, s).Ok?
    ensures Consistent(NextPacket(data, atEnd, s).value.1)
  {
    var (packet, _) := NextPacket(data, atEnd, s).value;
    RecordKeepsConsistent(s, packet.markerPos, packet.pts);
  }

  /** The scan loop of read_packet: test for the end of the input, read a
      candidate header, and on rejection step back to one byte after the
      previous candidate's start. */
  method FindSample(data: seq<byte>, bufferSize: int, atEnd: nat -> bool, start: nat) returns (r: ScanOutcome)
    ensures r == Scan(data, bufferSize, atEnd, start)
  {
    var p := start;
    while true
      invariant start <= p
      invariant Scan(data, bufferSize, atEnd, start) == Scan(data, bufferSize, atEnd, p)
      decreases |data| - p
    {
      if atEnd(p) {
        return AtEnd(p);
      }
      if p + SampleHeaderSize > |data| {
        return Truncated(p);
      }
      if Accepts(data, bufferSize, p) {
        return Found(p);
      }
      p := p + 1;
    }
  }

  /** The sections and body of the accepted sample at pos, with the index
      lookup done by the chunk walk and only for a relative timestamp. */
  method DecodeSampleAt(data: seq<byte>, pos: nat, idx: Index) returns (r: Result<(Packet, nat)>)
    requires Valid(idx) && pos + SampleHeaderSize <= |data|
    ensures r == DecodeSample(data, pos, LastBefore(Entries(idx), pos))
  {
    var h := ParseSampleHeader(data, pos);
    var base := 0;
    if h.flags.timeRelative {
      base := FindBase(idx, pos);
    }
    var (pts, c) := TimeSection(data, pos + SampleHeaderSize, h.flags, base);
    assert (pts, c) == TimeSection(data, pos + SampleHeaderSize, h.flags, LastBefore(Entries(idx), pos));
    c := SkipMediaSection(data, c, h.flags);
    if h.dataLength < 0 || pos + SampleHeaderSize + SectionsWidth(h.flags) + h.dataLength > |data| {
      return Err(InvalidData);
    }
    r := Ok((Packet(pos, pts, h.flags.syncPoint, data[c..c + h.dataLength]), c + h.dataLength));
  }

  /** The packet reader of read_packet: find the next accepted sample,
      decode it, and record its timestamp when its position is new. */
  method ReadPacket(data: seq<byte>, atEnd: nat -> bool, s: DemuxState) returns (r: Result<(Packet, DemuxState)>)
    requires Valid(s.index)
    ensures r == NextPacket(data, atEnd, s)
  {
    var found := FindSample(data, s.bufferSize, atEnd, s.cursor);
    match found
    case AtEnd(_) =>
      r := Err(EndOfFile);
    case Truncated(_) =>
      r := Err(InvalidData);
    case Found(p) =>
      var decoded := DecodeSampleAt(data, p, s.index);
      if decoded.Err? {
        return Err(decoded.error);
      }
      var (packet, c) := decoded.value;
      var s' := s;
      if p > s.lastSamplePos {
        s' := s.(index := Append(s.index, Entry(p, packet.pts)), lastSamplePos := p);
      }
      r := Ok((packet, s'.(cursor := c)));
  }

  /** A relative timestamp continues from the previous sample: when a sample
      is read at a new position, the next sample read, if relative, gets that
      sample's timestamp plus its own delta. */
  lemma RelativeFollowsPrevious(data: seq<byte>, atEnd: nat -> bool, s: DemuxState,
                                first: Packet, s1: DemuxState, second: Packet, s2: DemuxState)
    requires Consistent(s)
    requires NextPacket(data, atEnd, s) == Ok((first, s1))
    requires first.markerPos > s.lastSamplePos
    requires Valid(s1.index) && NextPacket(data, atEnd, s1) == Ok((second, s2))
    requires ParseSampleHeader(data, second.markerPos).flags.timeRelative
    ensures second.pts == first.pts + I32At(data, second.markerPos + SampleHeaderSize)
  {
    NewSampleIsBase(data, atEnd, s, first, s1, second.markerPos);
    NextPacketRelativePts(data, atEnd, s1, second, s2);
  }

  /** A relative packet read takes its timestamp from the lookup at its own
      position. */
  lemma NextPacketRelativePts(data: seq<byte>, atEnd: nat -> bool, s: DemuxState, packet: Packet, s': DemuxState)
    requires Valid(s.index) && NextPacket(data, atEnd, s) == Ok((packet, s'))
    requires ParseSampleHeader(data, packet.markerPos).flags.timeRelative
    ensures packet.pts == LastBefore(Entries(s.index), packet.markerPos) + I32At(data, packet.markerPos + SampleHeaderSize)
  {
    NextPacketDecodes(data, atEnd, s, packet, s');
    RelativePts(data, packet.markerPos, LastBefore(Entries(s.index), packet.markerPos), packet, s'.cursor);
  }

  /** After a sample is read at a new position, the lookup from any later
      position finds that sample's timestamp. */
  lemma NewSampleIsBase(data: seq<byte>, atEnd: nat -> bool, s: DemuxState, first: Packet, s1: DemuxState,
                        pos: nat)
    requires Consistent(s)
    requires NextPacket(data, atEnd, s) == Ok((first, s1))
    requires first.markerPos > s.lastSamplePos && pos >= s1.cursor
    ensures LastBefore(Entries(s1.index), pos) == first.pts
  {
    var es := Entries(s.index);
    var e := Entry(first.markerPos, first.pts);
    NextPacketDecodes(data, atEnd, s, first, s1);
    assert s1 == Record(s, first.markerPos, first.pts).(cursor := s1.cursor);
    RecordKeepsConsistent(s, first.markerPos, first.pts);
    assert Entries(s1.index) == es + [e];
    LastBeforeAppended(es, e, pos);
  }

  /** An entry appended before pos is what the lookup at pos finds. */
  lemma LastBeforeAppended(es: seq<Entry>, e: Entry, pos: nat)
    requires e.filePos < pos
    ensures LastBefore(es + [e], pos) == e.pts
  {
    assert (es + [e])[|es|] == e;
  }

  /** The timestamp of a decoded relative sample is the base plus the delta
      stored after its header. */
  lemma RelativePts(data: seq<byte>, pos: nat, base: int, packet: Packet, c: nat)
    requires pos + SampleHeaderSize <= |data| && DecodeSample(data, pos, base) == Ok((packet, c))
    requires ParseSampleHeader(data, pos).flags.timeRelative
    ensures packet.pts == base + I32At(data, pos + SampleHeaderSize)
  {
  }

  /** A packet read is the decoded sample at the scan's stop, and the new
      state records it and sits after its body. */
  lemma NextPacketDecodes(data: seq<byte>, atEnd: nat -> bool, s: DemuxState, packet: Packet, s': DemuxState)
    requires Valid(s.index) && NextPacket(data, atEnd, s) == Ok((packet, s'))
    ensures packet.markerPos + SampleHeaderSize <= |data|
    ensures DecodeSample(data, packet.markerPos, LastBefore(Entries(s.index), packet.markerPos))
            == Ok((packet, s'.cursor))
    ensures s' == Record(s, packet.markerPos, packet.pts).(cursor := s'.cursor)
  {
  }

  /** The index only grows at positions beyond the ones read, so reading a
      sample again from the same cursor, after the reader has moved on, gives
      the same packet. */
  lemma ReplayGivesSamePacket(data: seq<byte>, atEnd: nat -> bool, s: DemuxState, t: DemuxState)
    requires Valid(s.index) && Valid(t.index)
    requires t.cursor == s.cursor && t.bufferSize == s.bufferSize
    requires NextPacket(data, atEnd, s).Ok?
    requires |Entries(s.index)| <= |Entries(t.index)|
    requires Entries(t.index)[..|Entries(s.index)|] == Entries(s.index)
    requires forall j :: |Entries(s.index)| <= j < |Entries(t.index)|
                         ==> Entries(t.index)[j].filePos >= NextPacket(data, atEnd, s).value.0.markerPos
    ensures NextPacket(data, atEnd, t).Ok?
    ensures NextPacket(data, atEnd, t).value.0 == NextPacket(data, atEnd, s).value.0
  {
    var pos := NextPacket(data, atEnd, s).value.0.markerPos;
    var es := Entries(s.index);
    var et := Entries(t.index);
    var more := et[|es|..];
    assert et == es + more;
    LastBeforeIgnoresLater(es, more, pos);
  }

  /** A sample as a writer lays it down: its flags, the four time fields
      (present or absent as the flags say) and its body. */
  datatype SampleRecord = SampleRecord(flags: Flags, startTime: int, endTime: int,
                                       mediaStart: int, mediaEnd: int, body: seq<byte>)

  /** A time field value fits the width its flags give it. */
  predicate TimeFits(width: nat, t: int)
  {
    (width == 4 ==> IsI32(t)) && (width == 8 ==> IsI64(t))
  }

  function TimeBytes(width: nat, t: int): (b: seq<byte>)
    requires width == 0 || width == 4 || width == 8
    requires TimeFits(width, t)
    ensures |b| == width
  {
    if width == 4 then EncodeI32(t) else if width == 8 then EncodeI64(t) else []
  }

  predicate Writable(rec: SampleRecord)
  {
    && TimeFits(TimeFieldWidth(rec.flags), rec.startTime)
    && TimeFits(TimeFieldWidth(rec.flags), rec.endTime)
    && TimeFits(MediaFieldWidth(rec.flags), rec.mediaStart)
    && TimeFits(MediaFieldWidth(rec.flags), rec.mediaEnd)
    && |rec.body| < 0x8000_0000
  }

  function SampleHeaderBytes(rec: SampleRecord): (b: seq<byte>)
    requires Writable(rec)
    ensures |b| == SampleHeaderSize
  {
    [SampleMarker, FlagsByte(rec.flags)] + EncodeI32(|rec.body|)
  }

  function TimeSectionBytes(rec: SampleRecord): (b: seq<byte>)
    requires Writable(rec)
    ensures |b| == 2 * TimeFieldWidth(rec.flags)
  {
    var w := TimeFieldWidth(rec.flags);
    TimeBytes(w, rec.startTime) + TimeBytes(w, rec.endTime)
  }

  function MediaSectionBytes(rec: SampleRecord): (b: seq<byte>)
    requires Writable(rec)
    ensures |b| == 2 * MediaFieldWidth(rec.flags)
  {
    var w := MediaFieldWidth(rec.flags);
    TimeBytes(w, rec.mediaStart) + TimeBytes(w, rec.mediaEnd)
  }

  /** The bytes of a sample record: header, time section, media time
      section, body. */
  function EncodeSample(rec: SampleRecord): (b: seq<byte>)
    requires Writable(rec)
  {
    SampleHeaderBytes(rec) + (TimeSectionBytes(rec) + (MediaSectionBytes(rec) + rec.body))
  }

  /** Where each field of a record sits in its bytes. */
  lemma EncodeSampleLayout(rec: SampleRecord)
    requires Writable(rec)
    ensures var b := EncodeSample(rec);
            var tw := TimeFieldWidth(rec.flags);
            var bodyStart := SampleHeaderSize + 2 * tw + 2 * MediaFieldWidth(rec.flags);
            && |b| == bodyStart + |rec.body|
            && b[MarkerOffset] == SampleMarker
            && b[FlagsOffset] == FlagsByte(rec.flags)
            && b[DataLengthOffset..SampleHeaderSize] == EncodeI32(|rec.body|)
            && b[SampleHeaderSize..SampleHeaderSize + tw] == TimeBytes(tw, rec.startTime)
            && b[bodyStart..] == rec.body
  {
    var h := SampleHeaderBytes(rec);
    var t := TimeSectionBytes(rec);
    var m := MediaSectionBytes(rec);
    ConcatParts(h, t, m, rec.body);
    var b := EncodeSample(rec);
    var tw := TimeFieldWidth(rec.flags);
    assert h[DataLengthOffset..] == EncodeI32(|rec.body|);
    assert b[DataLengthOffset..SampleHeaderSize] == b[..SampleHeaderSize][DataLengthOffset..];
    assert t[..tw] == TimeBytes(tw, rec.startTime);
    assert b[SampleHeaderSize..SampleHeaderSize + tw] == b[SampleHeaderSize..SampleHeaderSize + |t|][..tw];
  }

  /** Where the parts of a nested concatenation sit in it. */
  lemma ConcatParts<T>(h: seq<T>, t: seq<T>, m: seq<T>, body: seq<T>)
    ensures var b := h + (t + (m + body));
            && b[..|h|] == h
            && b[|h|..|h| + |t|] == t
            && b[|h| + |t| + |m|..] == body
  {
    var b := h + (t + (m + body));
    assert b[|h|..] == t + (m + body);
    assert b[|h| + |t|..] == m + body;
  }

  /** The record's bytes are in data at position p. */
  predicate WrittenAt(data: seq<byte>, p: nat, rec: SampleRecord)
    requires Writable(rec)
  {
    p + |EncodeSample(rec)| <= |data| && data[p..p + |EncodeSample(rec)|] == EncodeSample(rec)
  }

  /** The timestamp a record stands for, given the base of a relative time. */
  function RecordPts(rec: SampleRecord, base: int): int
  {
    if rec.flags.timeRelative then base + rec.startTime
    else if rec.flags.timeAbsolute then rec.startTime
    else NoPts
  }

  /** The header of a written record reads back as written. */
  lemma WrittenHeader(data: seq<byte>, p: nat, rec: SampleRecord)
    requires Writable(rec) && WrittenAt(data, p, rec)
    ensures ParseSampleHeader(data, p) == SampleHeader(SampleMarker, rec.flags, |rec.body|)
  {
    var b := EncodeSample(rec);
    EncodeSampleLayout(rec);
    WindowOfPlaced(data, p, b, MarkerOffset, 1);
    WindowOfPlaced(data, p, b, FlagsOffset, 1);
    WindowOfPlaced(data, p, b, DataLengthOffset, 4);
    assert ByteAt(data, p + MarkerOffset) == Window(data, p + MarkerOffset, 1)[0];
    assert ByteAt(data, p + FlagsOffset) == Window(data, p + FlagsOffset, 1)[0];
    FlagsOfFlagsByte(rec.flags);
  }

  /** The start time of a written record reads back as written. */
  lemma WrittenStartTime(data: seq<byte>, p: nat, rec: SampleRecord)
    requires Writable(rec) && WrittenAt(data, p, rec)
    ensures var tw := TimeFieldWidth(rec.flags);
            && (tw == 4 ==> I32At(data, p + SampleHeaderSize) == rec.startTime)
            && (tw == 8 ==> I64At(data, p + SampleHeaderSize) == rec.startTime)
  {
    EncodeSampleLayout(rec);
    WindowOfPlaced(data, p, EncodeSample(rec), SampleHeaderSize, TimeFieldWidth(rec.flags));
  }

  /** The body of a written record sits right after its time and media sections. */
  lemma WrittenBody(data: seq<byte>, p: nat, rec: SampleRecord)
    requires Writable(rec) && WrittenAt(data, p, rec)
    ensures var start := p + SampleHeaderSize + 2 * TimeFieldWidth(rec.flags) + 2 * MediaFieldWidth(rec.flags);
            && start + |rec.body| == p + |EncodeSample(rec)| <= |data|
            && data[start..start + |rec.body|] == rec.body
  {
    var b := EncodeSample(rec);
    var bodyStart := SampleHeaderSize + 2 * TimeFieldWidth(rec.flags) + 2 * MediaFieldWidth(rec.flags);
    EncodeSampleLayout(rec);
    SliceOfPlaced(data, p, b, bodyStart, |b|);
    assert b[bodyStart..|b|] == b[bodyStart..];
  }

  /** Decoding a written record gives back its timestamp, keyframe flag and
      body, and leaves the cursor right after it. */
  lemma DecodeWrittenSample(data: seq<byte>, p: nat, rec: SampleRecord, base: int)
    requires Writable(rec) && WrittenAt(data, p, rec)
    ensures p + SampleHeaderSize <= |data|
    ensures DecodeSample(data, p, base)
            == Ok((Packet(p, RecordPts(rec, base), rec.flags.syncPoint, rec.body), p + |EncodeSample(rec)|))
  {
    WrittenHeader(data, p, rec);
    WrittenStartTime(data, p, rec);
    WrittenBody(data, p, rec);
    DecodeOfReadBack(data, p, rec, base);
  }

  /** Decoding at p, given that the header, the start time and the body of
      rec read back there. */
  lemma DecodeOfReadBack(data: seq<byte>, p: nat, rec: SampleRecord, base: int)
    requires p + SampleHeaderSize <= |data|
    requires ParseSampleHeader(data, p) == SampleHeader(SampleMarker, rec.flags, |rec.body|)
    requires var tw := TimeFieldWidth(rec.flags);
             var start := p + SampleHeaderSize + 2 * tw + 2 * MediaFieldWidth(rec.flags);
             && (tw == 4 ==> I32At(data, p + SampleHeaderSize) == rec.startTime)
             && (tw == 8 ==> I64At(data, p + SampleHeaderSize) == rec.startTime)
             && start + |rec.body| <= |data|
             && data[start..start + |rec.body|] == rec.body
    ensures var start := p + SampleHeaderSize + 2 * TimeFieldWidth(rec.flags) + 2 * MediaFieldWidth(rec.flags);
            DecodeSample(data, p, base)
            == Ok((Packet(p, RecordPts(rec, base), rec.flags.syncPoint, rec.body), start + |rec.body|))
  {
    var f := rec.flags;
    var start := p + SampleHeaderSize + 2 * TimeFieldWidth(f) + 2 * MediaFieldWidth(f);
    assert BodyStart(data, p) == start;
    if f.timeRelative {
      assert TimeFieldWidth(f) == 4;
    } else if f.timeAbsolute {
      assert TimeFieldWidth(f) == 8;
    }
  }

  /** The scanner stops at a written record when its body fits the buffer
      size and the host does not report the end of the input there. */
  lemma ScanFindsWrittenSample(data: seq<byte>, p: nat, rec: SampleRecord, bufferSize: int, atEnd: nat -> bool)
    requires Writable(rec) && WrittenAt(data, p, rec)
    requires |rec.body| <= bufferSize && !atEnd(p)
    ensures Scan(data, bufferSize, atEnd, p) == Found(p)
  {
    WrittenHeader(data, p, rec);
    EncodeSampleLayout(rec);
  }

  /** Reading a packet at a written record yields that record, with its
      relative time based on the index, and moves the cursor past it. */
  lemma NextPacketOfWritten(data: seq<byte>, rec: SampleRecord, atEnd: nat -> bool, s: DemuxState)
    requires Writable(rec) && WrittenAt(data, s.cursor, rec)
    requires |rec.body| <= s.bufferSize && !atEnd(s.cursor)
    requires Valid(s.index)
    ensures var r := NextPacket(data, atEnd, s);
            && r.Ok?
            && r.value.0 == Packet(s.cursor, RecordPts(rec, LastBefore(Entries(s.index), s.cursor)),
                                   rec.flags.syncPoint, rec.body)
            && r.value.1.cursor == s.cursor + |EncodeSample(rec)|
  {
    var p := s.cursor;
    var base := LastBefore(Entries(s.index), p);
    var packet := Packet(p, RecordPts(rec, base), rec.flags.syncPoint, rec.body);
    ScanFindsWrittenSample(data, p, rec, s.bufferSize, atEnd);
    DecodeWrittenSample(data, p, rec, base);
    NextPacketAtFound(data, atEnd, s, p, packet, p + |EncodeSample(rec)|);
  }

  /** The packet read when the scan stops on a sample that decodes. */
  lemma NextPacketAtFound(data: seq<byte>, atEnd: nat -> bool, s: DemuxState, pos: nat, packet: Packet, c: nat)
    requires Valid(s.index)
    requires Scan(data, s.bufferSize, atEnd, s.cursor) == Found(pos)
    requires DecodeSample(data, pos, LastBefore(Entries(s.index), pos)) == Ok((packet, c))
    ensures var r := NextPacket(data, atEnd, s);
            && r.Ok? && r.value.0 == packet && r.value.1.cursor == c
            && r.value.1 == Record(s, pos, packet.pts).(cursor := c)
  {
  }
}
