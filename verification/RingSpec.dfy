/**
 * The shared-memory ring as a value: what Append does to it, and what a reader decodes
 * from its bytes. Positions only grow; the byte for position p is buf[p % |buf|].
 */
module RingSpec {
  import opened Common
  import opened Positions
  import opened WalEntry

  datatype Ring = Ring(
    buf: seq<bv8>,
    writePos: nat, readPos: nat, confirmedPos: nat,
    nextSeq: nat, totalEntries: nat, totalBytes: nat, wrapCount: nat)

  const WORD: nat := 0x1_0000_0000_0000_0000

  /** The longest step a walk over cells can take. */
  const LONGEST := EntrySize(0xFFFF)

  /** Aligned cursors, and never more than one buffer between them; the confirmed position may have passed the write position. */
  ghost predicate Bounded(r: Ring) {
    && 0 < |r.buf| < WORD / 2 && |r.buf| % 8 == 0
    && r.writePos % 8 == 0 && r.readPos % 8 == 0 && r.confirmedPos % 8 == 0
    && r.writePos <= r.confirmedPos + |r.buf|
    && r.confirmedPos < r.writePos + LONGEST
  }

  /** The confirmed position is in place, so that its distance to the write position is the room in use. */
  ghost predicate Shape(r: Ring) {
    Bounded(r) && r.confirmedPos <= r.writePos
  }

  // ---------------------------------------------------------------- the producer

  /** A copy of bytes into the buffer at off. */
  function Poke(buf: seq<bv8>, off: nat, bytes: seq<bv8>): (b: seq<bv8>)
    requires off + |bytes| <= |buf|
    ensures |b| == |buf|
  {
    buf[..off] + bytes + buf[off + |bytes|..]
  }

  function SkipHeader(remaining: nat): Header
    requires remaining >= HEADER_SIZE
  {
    Header(0, 0, 0, (remaining - HEADER_SIZE) % 0x1_0000, 0)
  }

  function EntryBytes(seqNo: nat, now: nat, kind: nat, data: seq<bv8>): (b: seq<bv8>)
    ensures |b| == HEADER_SIZE + |data|
  {
    Encode(Header(seqNo, now, kind, |data|, StoredCrc(data))) + data
  }

  /** The rest of the buffer is too short for an entry: mark it when a header fits, and go to the start. */
  function Wrap(r: Ring): (r': Ring)
    requires |r.buf| > 0
    ensures |r'.buf| == |r.buf|
    ensures r'.writePos == r.writePos + (|r.buf| - r.writePos % |r.buf|)
    ensures r'.writePos % |r'.buf| == 0
    ensures r'.confirmedPos == r.confirmedPos && r'.readPos == r.readPos
  {
    var off := r.writePos % |r.buf|;
    var remaining := |r.buf| - off;
    AdvanceToEnd(|r.buf|, r.writePos);
    r.(buf := if remaining >= HEADER_SIZE then Poke(r.buf, off, Encode(SkipHeader(remaining))) else r.buf,
       writePos := r.writePos + remaining,
       nextSeq := r.nextSeq + 1,
       wrapCount := r.wrapCount + 1)
  }

  /** The entry is written at the write position. */
  function Publish(r: Ring, kind: nat, data: seq<bv8>, now: nat): (r': Ring)
    requires |r.buf| > 0
    requires r.writePos % |r.buf| + EntrySize(|data|) <= |r.buf|
    ensures |r'.buf| == |r.buf|
  {
    r.(buf := Poke(r.buf, r.writePos % |r.buf|, EntryBytes(r.nextSeq, now, kind, data)),
       writePos := r.writePos + EntrySize(|data|),
       nextSeq := r.nextSeq + 1,
       totalEntries := r.totalEntries + 1,
       totalBytes := r.totalBytes + EntrySize(|data|))
  }

  /** A difference of positions, in a 64-bit word. */
  function Diff64(a: nat, b: nat): nat {
    (a - b) % WORD
  }

  /** The test for room as Append computes it, in 64-bit words. */
  predicate Full(r: Ring, maxEntry: nat, len: nat) {
    EntrySize(len) > maxEntry || (Diff64(r.writePos, r.confirmedPos) + EntrySize(len)) % WORD > |r.buf|
  }

  /**
   * The test for room, computed in 64-bit words, is the one on the positions, also when the confirmed
   * position has passed the write position: then an entry is accepted if it reaches past it.
   */
  lemma FullExactly(r: Ring, maxEntry: nat, len: nat)
    requires Bounded(r) && len < 0x1_0000
    ensures Full(r, maxEntry, len) <==>
              || EntrySize(len) > maxEntry
              || r.writePos + EntrySize(len) > r.confirmedPos + |r.buf|
              || r.writePos + EntrySize(len) < r.confirmedPos
  {
    var d, e := r.writePos - r.confirmedPos, EntrySize(len);
    SizeBound(len);
    hide EntrySize;
    if d >= 0 {
      Remainder(d, 0);
      Remainder(d + e, 0);
    } else if d + e >= 0 {
      Remainder(d, -1);
      Remainder(d + WORD + e, 1);
    } else {
      Remainder(d, -1);
      Remainder(d + WORD + e, 0);
    }
  }

  lemma Remainder(a: int, q: int)
    requires q * WORD <= a < (q + 1) * WORD
    ensures a % WORD == a - q * WORD
  {
  }

  lemma SizeBound(len: nat)
    requires len < 0x1_0000
    ensures HEADER_SIZE <= EntrySize(len) <= LONGEST < WORD / 4
  {
  }

  predicate Rejects(r: Ring, maxEntry: nat, len: nat)
    requires r.confirmedPos <= r.writePos
  {
    EntrySize(len) > maxEntry || r.writePos - r.confirmedPos + EntrySize(len) > |r.buf|
  }

  /** With the confirmed position in place, the test is on the room in use. */
  lemma FullIsRejects(r: Ring, maxEntry: nat, len: nat)
    requires Shape(r) && len < 0x1_0000
    ensures Full(r, maxEntry, len) == Rejects(r, maxEntry, len)
  {
    FullExactly(r, maxEntry, len);
  }

  predicate NeedsWrap(r: Ring, len: nat)
    requires |r.buf| > 0
  {
    r.writePos % |r.buf| + EntrySize(len) > |r.buf|
  }

  lemma WrapBounded(r: Ring, len: nat)
    requires Bounded(r) && NeedsWrap(r, len)
    requires r.writePos + EntrySize(len) <= r.confirmedPos + |r.buf|
    ensures Bounded(Wrap(r)) && r.writePos < Wrap(r).writePos
  {
    hide Wrap, EntrySize;
    Aligned(|r.buf|, r.writePos);
    Sum8(r.writePos, |r.buf|, r.writePos % |r.buf|);
  }

  /** With the confirmed position in place, a wrap does not start at offset 0. */
  lemma WrapShape(r: Ring, len: nat)
    requires Shape(r) && NeedsWrap(r, len)
    requires r.writePos - r.confirmedPos + EntrySize(len) <= |r.buf|
    ensures Shape(Wrap(r))
    ensures r.writePos % |r.buf| > 0
  {
    hide Wrap, EntrySize;
    WrapBounded(r, len);
  }

  /**
   * Append: the new ring and the sequence number returned, 0 for a failure. Each call it makes to
   * itself starts from a larger write position.
   */
  function Append(r: Ring, maxEntry: nat, kind: nat, data: seq<bv8>, now: nat): (res: (Ring, nat))
    requires Bounded(r) && |data| < 0x1_0000
    ensures |res.0.buf| == |r.buf|
    decreases r.confirmedPos + |r.buf| - r.writePos
  {
    if Full(r, maxEntry, |data|) then
      (r, 0)
    else if NeedsWrap(r, |data|) then
      FullExactly(r, maxEntry, |data|);
      WrapBounded(r, |data|);
      Append(Wrap(r), maxEntry, kind, data, now)
    else
      (Publish(r, kind, data, now), r.nextSeq)
  }

  // ---------------------------------------------------------------- the readers

  /** What a reader finds at a position: a header and the data it announces. */
  datatype Cell = Cell(hdr: Header, data: seq<bv8>)
  {
    function Size(): nat { EntrySize(hdr.dataLen) }

    /** Counted by ConfirmBatch. */
    predicate Live() { hdr.seqNo != 0 && hdr.kind != 0 }

    /** Delivered by ReadNext and ReadUnconfirmed. */
    predicate IsEntry() { Live() && |data| == hdr.dataLen && ValidateCrc(hdr, data) }
  }

  function CellAt(buf: seq<bv8>, off: nat): (c: Option<Cell>)
  {
    if off + HEADER_SIZE > |buf| then None
    else
      var h := Decode(buf[off..off + HEADER_SIZE]);
      if off + EntrySize(h.dataLen) > |buf| then None
      else Some(Cell(h, buf[off + HEADER_SIZE..off + HEADER_SIZE + h.dataLen]))
  }

  /**
   * The cells of [pos, end), decoded from the bytes alone. None when a reader starting at pos
   * would read past the end of the buffer, or would not arrive exactly at end.
   */
  function Parse(buf: seq<bv8>, pos: nat, end: nat): Option<seq<Cell>>
    requires |buf| > 0
    decreases end - pos
  {
    if pos >= end then
      if pos == end then Some([]) else None
    else
      match CellAt(buf, pos % |buf|)
      case None => None
      case Some(c) =>
        match Parse(buf, pos + c.Size(), end)
        case None => None
        case Some(rest) => Some([c] + rest)
  }
}
