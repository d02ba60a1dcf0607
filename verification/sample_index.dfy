/** The sample index of read_packet (libavformat/panr.c): an append-only
    record of (marker position, pts) pairs, kept in chunks of 512 entries that
    are linked in append order. It is read only to resolve the base of a
    relative timestamp: the pts of the latest entry positioned before the
    sample being read. */
module SampleIndex {

  const ChunkCapacity := 512

  datatype Entry = Entry(filePos: nat, pts: int)

  /** The chunks in append order; the last chunk is the tail, the only one
      that is ever appended to. */
  type Index = seq<seq<Entry>>

  /** The index read_header allocates: a single empty chunk. */
  const Empty: Index := [[]]

  /** All entries of the index, oldest first. */
  function Entries(idx: Index): seq<Entry>
  {
    if |idx| == 0 then [] else Entries(idx[..|idx| - 1]) + idx[|idx| - 1]
  }

  predicate StrictlyIncreasing(es: seq<Entry>)
  {
    forall i, j :: 0 <= i < j < |es| ==> es[i].filePos < es[j].filePos
  }

  /** The invariant the append discipline keeps: there is a tail chunk, no
      chunk overflows, every chunk but the tail is full, and positions
      strictly increase across the whole index. */
  predicate Valid(idx: Index)
  {
    && |idx| >= 1
    && (forall k :: 0 <= k < |idx| ==> |idx[k]| <= ChunkCapacity)
    && (forall k :: 0 <= k < |idx| - 1 ==> |idx[k]| == ChunkCapacity)
    && StrictlyIncreasing(Entries(idx))
  }

  /** The reference meaning of a lookup: the pts of the latest entry whose
      position is strictly before pos, or 0 when there is none. */
  function LastBefore(es: seq<Entry>, pos: nat): int
  {
    if |es| == 0 then 0
    else if es[|es| - 1].filePos < pos then es[|es| - 1].pts
    else LastBefore(es[..|es| - 1], pos)
  }

  /** LastBefore picks the entry with the highest index among those before
      pos, and 0 when no entry is before pos. */
  lemma {:induction false} LastBeforeIsLatest(es: seq<Entry>, pos: nat, i: int)
    requires -1 <= i < |es|
    requires i >= 0 ==> es[i].filePos < pos
    requires forall j :: i < j < |es| ==> es[j].filePos >= pos
    ensures LastBefore(es, pos) == if i >= 0 then es[i].pts else 0
    decreases |es|
  {
    if |es| > 0 && i < |es| - 1 {
      LastBeforeIsLatest(es[..|es| - 1], pos, i);
    }
  }

  /** Entries added after the lookup position never change its result, so a
      sample read again after the reader has moved on gets the same base. */
  lemma {:induction false} LastBeforeIgnoresLater(es: seq<Entry>, more: seq<Entry>, pos: nat)
    requires forall j :: 0 <= j < |more| ==> more[j].filePos >= pos
    ensures LastBefore(es + more, pos) == LastBefore(es, pos)
    decreases |more|
  {
    if |more| == 0 {
      assert es + more == es;
    } else {
      var more' := more[..|more| - 1];
      assert (es + more)[..|es + more| - 1] == es + more';
      LastBeforeIgnoresLater(es, more', pos);
    }
  }

  /** Appends an entry at the tail, opening a new chunk when the tail is full. */
  function Append(idx: Index, e: Entry): (r: Index)
    requires |idx| >= 1
    ensures Entries(r) == Entries(idx) + [e]
    ensures |r| == |idx| || |r| == |idx| + 1
    ensures forall k :: 0 <= k < |idx| - 1 ==> r[k] == idx[k]
    ensures |r| == |idx| + 1 <==> |idx[|idx| - 1]| >= ChunkCapacity
  {
    var tail := idx[|idx| - 1];
    var front := idx[..|idx| - 1];
    if |tail| >= ChunkCapacity then
      assert (idx + [[e]])[..|idx|] == idx;
      idx + [[e]]
    else
      assert (front + [tail + [e]])[..|front|] == front;
      assert idx[..|idx| - 1] == front;
      front + [tail + [e]]
  }

  /** Appending a position beyond every recorded one keeps the invariant. */
  lemma AppendKeepsValid(idx: Index, e: Entry)
    requires Valid(idx)
    requires forall i :: 0 <= i < |Entries(idx)| ==> Entries(idx)[i].filePos < e.filePos
    ensures Valid(Append(idx, e))
  {
    var r := Append(idx, e);
    var tail := idx[|idx| - 1];
    if |tail| < ChunkCapacity {
      assert r[|r| - 1] == tail + [e];
    }
  }

  lemma {:induction false} EntriesConcat(a: Index, b: Index)
    ensures Entries(a + b) == Entries(a) + Entries(b)
    decreases |b|
  {
    if |b| > 0 {
      var b' := b[..|b| - 1];
      assert (a + b)[..|a + b| - 1] == a + b';
      assert (a + b)[|a + b| - 1] == b[|b| - 1];
      EntriesConcat(a, b');
      calc {
        Entries(a + b);
        Entries(a + b') + b[|b| - 1];
        (Entries(a) + Entries(b')) + b[|b| - 1];
        Entries(a) + (Entries(b') + b[|b| - 1]);
        Entries(a) + Entries(b);
      }
    } else {
      assert a + b == a;
    }
  }

  /** Chunk k sits in the entry list right after the entries of the chunks before it. */
  lemma ChunkInEntries(idx: Index, k: nat)
    requires k < |idx|
    ensures var before := Entries(idx[..k]);
            && Entries(idx[..k + 1]) == before + idx[k]
            && |before| + |idx[k]| <= |Entries(idx)|
            && Entries(idx)[..|before|] == before
            && forall j :: 0 <= j < |idx[k]| ==> Entries(idx)[|before| + j] == idx[k][j]
  {
    assert idx[..k + 1][..k] == idx[..k];
    assert idx == idx[..k + 1] + idx[k + 1..];
    EntriesConcat(idx[..k + 1], idx[k + 1..]);
  }

  /** In a sorted list, entries from a position at or after pos onwards do
      not affect the lookup. */
  lemma {:induction false} LookupIgnoresLate(es: seq<Entry>, s: nat, pos: nat)
    requires StrictlyIncreasing(es)
    requires s < |es| && es[s].filePos >= pos
    ensures LastBefore(es, pos) == LastBefore(es[..s], pos)
    decreases |es|
  {
    if s < |es| - 1 {
      assert es[|es| - 1].filePos > es[s].filePos;
      assert es[..|es| - 1][..s] == es[..s];
      LookupIgnoresLate(es[..|es| - 1], s, pos);
    }
  }

  /** A chunk that is empty or starts at or after pos ends the lookup: the
      result is decided by the chunks before it. */
  lemma LookupStopsAtChunk(idx: Index, k: nat, pos: nat)
    requires Valid(idx) && k < |idx|
    requires |idx[k]| == 0 || idx[k][0].filePos >= pos
    ensures LastBefore(Entries(idx), pos) == LastBefore(Entries(idx[..k]), pos)
  {
    ChunkInEntries(idx, k);
    if |idx[k]| == 0 {
      assert k == |idx| - 1;
      assert idx[..k + 1] == idx;
      assert Entries(idx) == Entries(idx[..k]) + [] == Entries(idx[..k]);
    } else {
      LookupIgnoresLate(Entries(idx), |Entries(idx[..k])|, pos);
    }
  }

  /** A chunk whose last entry is before pos supplies that entry's pts. */
  lemma LookupPassesChunk(idx: Index, k: nat, pos: nat)
    requires k < |idx| && |idx[k]| > 0
    requires idx[k][|idx[k]| - 1].filePos < pos
    ensures LastBefore(Entries(idx[..k + 1]), pos) == idx[k][|idx[k]| - 1].pts
  {
    ChunkInEntries(idx, k);
  }

  /** When pos falls inside chunk k, right after entry i, the lookup gives
      entry i's pts. */
  lemma LookupInsideChunk(idx: Index, k: nat, i: nat, pos: nat)
    requires StrictlyIncreasing(Entries(idx)) && k < |idx| && i + 1 < |idx[k]|
    requires idx[k][i].filePos < pos <= idx[k][i + 1].filePos
    ensures LastBefore(Entries(idx), pos) == idx[k][i].pts
  {
    ChunkInEntries(idx, k);
    var all := Entries(idx);
    var before := Entries(idx[..k]);
    assert all[|before| + i + 1] == idx[k][i + 1];
    LookupIgnoresLate(all, |before| + i + 1, pos);
    assert all[..|before| + i + 1] == before + idx[k][..i + 1];
  }

  /** The lookup of read_packet: walk the chunks from the oldest, remembering
      the last pts of every full chunk that ends before pos, and scan the
      chunk that straddles pos backwards from its second-to-last entry. */
  method FindBase(idx: Index, pos: nat) returns (base: int)
    requires Valid(idx)
    ensures base == LastBefore(Entries(idx), pos)
  {
    base := 0;
    var k := 0;
    while k < |idx|
      invariant 0 <= k <= |idx|
      invariant base == LastBefore(Entries(idx[..k]), pos)
      decreases |idx| - k
    {
      var chunk := idx[k];
      var n := |chunk|;
      if n == 0 || chunk[0].filePos >= pos {
        LookupStopsAtChunk(idx, k, pos);
        return;
      }
      if chunk[n - 1].filePos < pos {
        base := chunk[n - 1].pts;
        LookupPassesChunk(idx, k, pos);
        if n < ChunkCapacity {
          // Only the tail chunk can be short.
          assert k == |idx| - 1 && idx[..k + 1] == idx;
          return;
        }
        k := k + 1;
      } else {
        // chunk[0] is before pos and chunk[n - 1] is not: pos is inside the chunk.
        var i := n - 2;
        base := chunk[i].pts;
        while chunk[i].filePos >= pos
          invariant 0 <= i <= n - 2
          invariant base == chunk[i].pts
          invariant chunk[i + 1].filePos >= pos
          decreases i
        {
          i := i - 1;
          base := chunk[i].pts;
        }
        LookupInsideChunk(idx, k, i, pos);
        return;
      }
    }
    assert idx[..k] == idx;
  }
}
