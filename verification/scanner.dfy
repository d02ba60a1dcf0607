/** The sample scanner at the head of read_packet (libavformat/panr.c): it
    reads a candidate sample header at the cursor and, when the marker or the
    length bound is wrong, moves one byte forward and tries again. The host's
    end-of-file test is a parameter `atEnd`, a predicate on cursor positions. */
module Scanner {
  import opened Bytes
  import opened Panr

  /** Where a scan stops: on an accepted header, on the host's end-of-file
      test, or on a candidate header cut short by the end of the input. */
  datatype ScanOutcome = Found(pos: nat) | AtEnd(pos: nat) | Truncated(pos: nat)

  /** A candidate header at p is accepted when its marker byte is right and
      its signed data length does not exceed the file's maximum buffer size. */
  predicate Accepts(data: seq<byte>, bufferSize: int, p: nat)
  {
    var h := ParseSampleHeader(data, p);
    h.marker == SampleMarker && h.dataLength <= bufferSize
  }

  /** The scanner at p finds no end of file, reads a full candidate header
      and rejects it. */
  predicate Rejects(data: seq<byte>, bufferSize: int, atEnd: nat -> bool, p: nat)
  {
    !atEnd(p) && p + SampleHeaderSize <= |data| && !Accepts(data, bufferSize, p)
  }

  /** The scan from p. Every rejected candidate advances the cursor by exactly
      one byte; the scan stops at the first position that is not rejected. */
  function Scan(data: seq<byte>, bufferSize: int, atEnd: nat -> bool, p: nat): (r: ScanOutcome)
    ensures r.pos >= p
    ensures forall q :: p <= q < r.pos ==> Rejects(data, bufferSize, atEnd, q)
    ensures r.Found? ==> !atEnd(r.pos) && r.pos + SampleHeaderSize <= |data|
                         && Accepts(data, bufferSize, r.pos)
    ensures r.AtEnd? ==> atEnd(r.pos)
    ensures r.Truncated? ==> !atEnd(r.pos) && r.pos + SampleHeaderSize > |data|
    decreases |data| - p
  {
    if atEnd(p) then AtEnd(p)
    else if p + SampleHeaderSize > |data| then Truncated(p)
    else if Accepts(data, bufferSize, p) then Found(p)
    else Scan(data, bufferSize, atEnd, p + 1)
  }

  /** Rejected candidates are skipped without effect: a scan from p gives the
      same outcome as a scan from any later q when everything in between is
      rejected. */
  lemma {:induction false} ScanSkipsRejected(data: seq<byte>, bufferSize: int, atEnd: nat -> bool, p: nat, q: nat)
    requires p <= q
    requires forall k :: p <= k < q ==> Rejects(data, bufferSize, atEnd, k)
    ensures Scan(data, bufferSize, atEnd, p) == Scan(data, bufferSize, atEnd, q)
    decreases q - p
  {
    if p < q {
      assert Rejects(data, bufferSize, atEnd, p);
      ScanSkipsRejected(data, bufferSize, atEnd, p + 1, q);
    }
  }

  /** The scan outcome is determined by the first position that is not
      rejected: Found there if the header is accepted, AtEnd if the host
      reports end of file, Truncated if the header does not fit. */
  lemma ScanStopsAtFirst(data: seq<byte>, bufferSize: int, atEnd: nat -> bool, p: nat, q: nat)
    requires p <= q
    requires forall k :: p <= k < q ==> Rejects(data, bufferSize, atEnd, k)
    requires !Rejects(data, bufferSize, atEnd, q)
    ensures var r := Scan(data, bufferSize, atEnd, p);
            && r.pos == q
            && (r.AtEnd? <==> atEnd(q))
            && (r.Truncated? <==> !atEnd(q) && q + SampleHeaderSize > |data|)
            && (r.Found? <==> !atEnd(q) && q + SampleHeaderSize <= |data|)
  {
    ScanSkipsRejected(data, bufferSize, atEnd, p, q);
  }

  /** The value avio_read returns when it reads nothing because the input
      has ended: FFERRTAG('E', 'O', 'F', ' '), a negative int. */
  const EofCode := -0x2046_4f45

  /** The result of avio_read for a request of n > 0 bytes at cursor p: the
      number of bytes available up to n, or EofCode when none is. */
  function ReadCount(data: seq<byte>, p: nat, n: nat): (count: int)
    requires n > 0
    ensures count <= n
    ensures count == n <==> p + n <= |data|
    ensures 0 < count < n <==> p < |data| < p + n
  {
    if p >= |data| then EofCode
    else if p + n <= |data| then n
    else |data| - p
  }

  /** The short-read test of the scanner as written: the int result of the
      read is compared with a size_t, so a negative result is converted to a
      huge unsigned value before the comparison. */
  function ShortReadAsWritten(count: int): bool
    requires -0x8000_0000 <= count < 0x8000_0000
  {
    (if count < 0 then count + 0x1_0000_0000_0000_0000 else count) < SampleHeaderSize
  }

  /** The short-read test as intended: every result below the header size,
      the end-of-file code included. This is the test Scan applies. */
  function ShortRead(count: int): bool
  {
    count < SampleHeaderSize
  }

  /** As written, a read cut short by the end of the input is caught only
      when it returned some bytes: a read at the very end returns EofCode and
      passes the test. */
  lemma ShortReadAsWrittenMissesEmptyRead(data: seq<byte>, p: nat)
    requires p + SampleHeaderSize > |data|
    ensures ShortReadAsWritten(ReadCount(data, p, SampleHeaderSize)) <==> p < |data|
  {
  }

  /** The intended test flags exactly the candidates that do not fit, which is
      the condition under which Scan stops with Truncated. */
  lemma ShortReadIsTruncation(data: seq<byte>, p: nat)
    ensures ShortRead(ReadCount(data, p, SampleHeaderSize)) <==> p + SampleHeaderSize > |data|
  {
  }
}
