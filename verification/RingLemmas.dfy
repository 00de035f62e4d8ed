/** What Append leaves for readers to decode. */
module RingLemmas {
  import opened Common
  import Crc32
  import opened Positions
  import opened WalEntry
  import opened RingSpec

  // ---------------------------------------------------------------- windows of bytes

  function ByteAt(buf: seq<bv8>, pos: nat): bv8
    requires |buf| > 0
  {
    buf[pos % |buf|]
  }

  /** The two buffers hold the same bytes for the positions from pos to end. */
  ghost predicate Agree(a: seq<bv8>, b: seq<bv8>, pos: nat, end: nat) {
    && |a| == |b| > 0
    && forall p: nat :: pos <= p < end ==> ByteAt(a, p) == ByteAt(b, p)
  }

  lemma AgreeSlice(a: seq<bv8>, b: seq<bv8>, pos: nat, end: nat, i: nat, j: nat)
    requires Agree(a, b, pos, end)
    requires i <= j && pos % |a| + j <= |a| && pos + j <= end
    ensures a[pos % |a| + i..pos % |a| + j] == b[pos % |a| + i..pos % |a| + j]
  {
    var off := pos % |a|;
    forall x | off + i <= x < off + j
      ensures a[x] == b[x]
    {
      Advance(|a|, pos, x - off);
      assert ByteAt(a, pos + (x - off)) == ByteAt(b, pos + (x - off));
    }
  }

  lemma CellFrame(a: seq<bv8>, b: seq<bv8>, pos: nat, end: nat, c: Cell)
    requires Agree(a, b, pos, end)
    requires CellAt(a, pos % |a|) == Some(c)
    requires pos + c.Size() <= end
    ensures CellAt(b, pos % |b|) == Some(c)
  {
    hide Decode, EntrySize;
    AgreeSlice(a, b, pos, end, 0, HEADER_SIZE);
    AgreeSlice(a, b, pos, end, HEADER_SIZE, HEADER_SIZE + c.hdr.dataLen);
  }

  /** Decoding depends only on the bytes of the window. */
  lemma {:induction false} ParseFrame(a: seq<bv8>, b: seq<bv8>, pos: nat, end: nat)
    requires Agree(a, b, pos, end)
    requires Parse(a, pos, end).Some?
    ensures Parse(b, pos, end) == Parse(a, pos, end)
    decreases end - pos
  {
    hide CellAt, EntrySize;
    if pos >= end {
    } else {
      var c := CellAt(a, pos % |a|).value;
      ParseBound(a, pos + c.Size(), end);
      CellFrame(a, b, pos, end, c);
      ParseFrame(a, b, pos + c.Size(), end);
    }
  }

  lemma ParseBound(buf: seq<bv8>, pos: nat, end: nat)
    requires |buf| > 0 && Parse(buf, pos, end).Some?
    ensures pos <= end
  {
  }

  /** Decoding a window in two parts, cut where the first part ends. */
  lemma {:induction false} ParseConcat(buf: seq<bv8>, pos: nat, mid: nat, end: nat)
    requires |buf| > 0 && mid <= end
    requires Parse(buf, pos, mid).Some?
    ensures Parse(buf, pos, end) ==
            if Parse(buf, mid, end).None? then None
            else Some(Parse(buf, pos, mid).value + Parse(buf, mid, end).value)
    decreases mid - pos
  {
    hide CellAt, EntrySize;
    ParseBound(buf, pos, mid);
    if pos < mid {
      var c := CellAt(buf, pos % |buf|).value;
      ParseConcat(buf, pos + c.Size(), mid, end);
      ParseBound(buf, pos + c.Size(), mid);
      if Parse(buf, mid, end).Some? {
        var x, y := Parse(buf, pos + c.Size(), mid).value, Parse(buf, mid, end).value;
        assert ([c] + x) + y == [c] + (x + y);
      }
    } else if Parse(buf, mid, end).Some? {
      assert [] + Parse(buf, mid, end).value == Parse(buf, mid, end).value;
    }
  }

  // ---------------------------------------------------------------- no overwriting

  /** The buffers differ only in the len bytes at off. */
  ghost predicate Outside(a: seq<bv8>, b: seq<bv8>, off: nat, len: nat) {
    && |a| == |b|
    && forall x :: 0 <= x < |a| && !(off <= x < off + len) ==> a[x] == b[x]
  }

  /** Changes at the write position leave every position less than a lap behind alone. */
  lemma OutsideFrame(a: seq<bv8>, b: seq<bv8>, pos: nat, len: nat, start: nat)
    requires |a| > 0 && pos % |a| + len <= |a| && Outside(a, b, pos % |a|, len)
    requires pos + len <= start + |a|
    ensures Agree(a, b, start, pos)
  {
    forall p: nat | start <= p < pos
      ensures ByteAt(a, p) == ByteAt(b, p)
    {
      NoAlias(|a|, pos, len, p);
    }
  }

  lemma PokeFrame(buf: seq<bv8>, pos: nat, bytes: seq<bv8>, start: nat)
    requires |buf| > 0 && pos % |buf| + |bytes| <= |buf|
    requires pos + |bytes| <= start + |buf|
    ensures Agree(buf, Poke(buf, pos % |buf|, bytes), start, pos)
  {
    OutsideFrame(buf, Poke(buf, pos % |buf|, bytes), pos, |bytes|, start);
  }

  lemma AgreeTransitive(a: seq<bv8>, b: seq<bv8>, c: seq<bv8>, pos: nat, mid: nat, end: nat)
    requires Agree(a, b, pos, mid) && Agree(b, c, pos, end) && mid <= end
    ensures Agree(a, c, pos, mid)
  {
    forall p: nat | pos <= p < mid
      ensures ByteAt(a, p) == ByteAt(c, p)
    {
      assert ByteAt(a, p) == ByteAt(b, p);
      assert ByteAt(b, p) == ByteAt(c, p);
    }
  }

  lemma WrapFrame(r: Ring, len: nat)
    requires Bounded(r) && NeedsWrap(r, len)
    requires r.writePos - r.confirmedPos + EntrySize(len) <= |r.buf|
    ensures Agree(r.buf, Wrap(r).buf, r.confirmedPos, r.writePos)
  {
    hide Encode, EntrySize;
    var off := r.writePos % |r.buf|;
    var remaining := |r.buf| - off;
    if remaining >= HEADER_SIZE {
      PokeFrame(r.buf, r.writePos, Encode(SkipHeader(remaining)), r.confirmedPos);
    }
  }

  lemma PublishFrame(r: Ring, kind: nat, data: seq<bv8>, now: nat)
    requires Bounded(r) && !NeedsWrap(r, |data|)
    requires r.writePos - r.confirmedPos + EntrySize(|data|) <= |r.buf|
    ensures Agree(r.buf, Publish(r, kind, data, now).buf, r.confirmedPos, r.writePos)
    ensures Bounded(Publish(r, kind, data, now))
  {
    hide EntryBytes, EntrySize;
    PokeFrame(r.buf, r.writePos, EntryBytes(r.nextSeq, now, kind, data), r.confirmedPos);
    Sum8(r.writePos, EntrySize(|data|), 0);
  }

  /**
   * Whatever Append does, no byte between the confirmed and the write position changes, the
   * unconfirmed bytes still fit the buffer, and the readers' cursors stay where they are; also from a
   * ring whose confirmed position has passed the write position.
   */
  lemma AppendKeepsWindow(r: Ring, maxEntry: nat, kind: nat, data: seq<bv8>, now: nat)
    requires Bounded(r) && |data| < 0x1_0000
    ensures var r' := Append(r, maxEntry, kind, data, now).0;
            && Bounded(r') && (Shape(r) ==> Shape(r'))
            && Agree(r.buf, r'.buf, r.confirmedPos, r.writePos)
            && r.writePos <= r'.writePos
            && r'.confirmedPos == r.confirmedPos && r'.readPos == r.readPos
    decreases r.confirmedPos + |r.buf| - r.writePos
  {
    hide EntryBytes, EntrySize, Encode, Wrap, Publish, Full;
    FullExactly(r, maxEntry, |data|);
    if Full(r, maxEntry, |data|) {
    } else if NeedsWrap(r, |data|) {
      WrapBounded(r, |data|);
      WrapFrame(r, |data|);
      AppendKeepsWindow(Wrap(r), maxEntry, kind, data, now);
      AgreeTransitive(r.buf, Wrap(r).buf, Append(r, maxEntry, kind, data, now).0.buf,
                      r.confirmedPos, r.writePos, Wrap(r).writePos);
    } else {
      PublishFrame(r, kind, data, now);
      PublishCursors(r, kind, data, now);
    }
  }

  /** Append on the room in use, with the confirmed position in place. */
  lemma AppendInPlace(r: Ring, maxEntry: nat, kind: nat, data: seq<bv8>, now: nat)
    requires Shape(r) && |data| < 0x1_0000
    ensures !Rejects(r, maxEntry, |data|) && NeedsWrap(r, |data|) ==> Shape(Wrap(r))
    ensures Append(r, maxEntry, kind, data, now) ==
            if Rejects(r, maxEntry, |data|) then (r, 0)
            else if NeedsWrap(r, |data|) then Append(Wrap(r), maxEntry, kind, data, now)
            else (Publish(r, kind, data, now), r.nextSeq)
  {
    hide Publish, Wrap, EntrySize, Full;
    FullIsRejects(r, maxEntry, |data|);
    if !Rejects(r, maxEntry, |data|) && NeedsWrap(r, |data|) {
      WrapShape(r, |data|);
    }
  }

  lemma PublishCursors(r: Ring, kind: nat, data: seq<bv8>, now: nat)
    requires |r.buf| > 0 && !NeedsWrap(r, |data|)
    ensures var r' := Publish(r, kind, data, now);
            && r'.writePos == r.writePos + EntrySize(|data|)
            && r'.confirmedPos == r.confirmedPos && r'.readPos == r.readPos
            && r'.nextSeq == r.nextSeq + 1 && r'.totalEntries == r.totalEntries + 1
            && r'.totalBytes == r.totalBytes + EntrySize(|data|) && r'.wrapCount == r.wrapCount
  {
    hide EntryBytes, EntrySize;
  }

  // ---------------------------------------------------------------- what Append adds

  /** The 64-bit and 16-bit fields an Append may store do not overflow. */
  ghost predicate Representable(seqNo: nat, kind: nat, data: seq<bv8>, now: nat) {
    && seqNo < 0x1_0000_0000_0000_0000
    && now < 0x1_0000_0000_0000_0000
    && kind < 0x1_0000
    && |data| < 0x1_0000
  }

  function EntryCell(seqNo: nat, kind: nat, data: seq<bv8>, now: nat): Cell {
    Cell(Header(seqNo, now, kind, |data|, StoredCrc(data)), data)
  }

  lemma StoredCrcValid(seqNo: nat, kind: nat, data: seq<bv8>, now: nat)
    ensures var c := EntryCell(seqNo, kind, data, now);
            |c.data| == c.hdr.dataLen && ValidateCrc(c.hdr, c.data)
  {
    hide CalcCrc;
  }

  lemma ParseOne(buf: seq<bv8>, pos: nat, c: Cell)
    requires |buf| > 0 && CellAt(buf, pos % |buf|) == Some(c)
    ensures Parse(buf, pos, pos + c.Size()) == Some([c])
  {
    hide CellAt, EntrySize;
    assert Parse(buf, pos + c.Size(), pos + c.Size()) == Some([]);
    assert [c] + [] == [c];
  }

  /** A stored entry is decoded as it was given. */
  lemma StoredCell(buf: seq<bv8>, pos: nat, seqNo: nat, kind: nat, data: seq<bv8>, now: nat)
    requires |buf| > 0 && pos % |buf| + EntrySize(|data|) <= |buf| && Representable(seqNo, kind, data, now)
    requires buf[pos % |buf|..pos % |buf| + HEADER_SIZE + |data|] == EntryBytes(seqNo, now, kind, data)
    ensures Parse(buf, pos, pos + EntrySize(|data|)) == Some([EntryCell(seqNo, kind, data, now)])
  {
    hide Encode, Decode, EntrySize, StoredCrc, Parse;
    var off := pos % |buf|;
    var h := Header(seqNo, now, kind, |data|, StoredCrc(data));
    var stored := buf[off..off + HEADER_SIZE + |data|];
    DecodeEncode(h);
    assert buf[off..off + HEADER_SIZE] == stored[..HEADER_SIZE] == Encode(h);
    assert buf[off + HEADER_SIZE..off + HEADER_SIZE + |data|] == stored[HEADER_SIZE..] == data;
    ParseOne(buf, pos, EntryCell(seqNo, kind, data, now));
  }

  lemma PublishedCell(r: Ring, kind: nat, data: seq<bv8>, now: nat)
    requires Shape(r) && !NeedsWrap(r, |data|) && Representable(r.nextSeq, kind, data, now)
    ensures var r' := Publish(r, kind, data, now);
            Parse(r'.buf, r.writePos, r'.writePos) == Some([EntryCell(r.nextSeq, kind, data, now)])
  {
    hide EntryBytes, EntrySize, Parse, Poke;
    PokeSlice(r.buf, r.writePos % |r.buf|, EntryBytes(r.nextSeq, now, kind, data));
    StoredCell(Publish(r, kind, data, now).buf, r.writePos, r.nextSeq, kind, data, now);
  }

  /** What a wrap adds to the decoded cells: the marker, with whatever was left behind as its data. */
  function SkipCells(r: Ring): seq<Cell>
    requires |r.buf| > 0
  {
    match CellAt(Wrap(r).buf, r.writePos % |r.buf|)
    case None => []
    case Some(c) => [c]
  }

  lemma EntrySizeExact(remaining: nat)
    requires remaining % 8 == 0 && remaining >= HEADER_SIZE
    ensures EntrySize(remaining - HEADER_SIZE) == remaining
  {
  }

  /** A stored marker is decoded as one cell that no reader delivers. */
  lemma MarkerCell(buf: seq<bv8>, pos: nat)
    requires |buf| > 0 && |buf| % 8 == 0 && pos % 8 == 0
    requires HEADER_SIZE <= |buf| - pos % |buf| < HEADER_SIZE + 0x1_0000
    requires buf[pos % |buf|..pos % |buf| + HEADER_SIZE] == Encode(SkipHeader(|buf| - pos % |buf|))
    ensures CellAt(buf, pos % |buf|).Some?
    ensures var c := CellAt(buf, pos % |buf|).value;
            && c.hdr.seqNo == 0
            && Parse(buf, pos, pos + (|buf| - pos % |buf|)) == Some([c])
  {
    hide Encode, Decode, Parse, EntrySize;
    var off := pos % |buf|;
    var remaining := |buf| - off;
    Aligned(|buf|, pos);
    Sum8(0, |buf|, off);
    EntrySizeExact(remaining);
    var h := SkipHeader(remaining);
    DecodeEncode(h);
    ParseOne(buf, pos, Cell(h, buf[off + HEADER_SIZE..off + HEADER_SIZE + h.dataLen]));
  }

  lemma SkippedCell(r: Ring, len: nat)
    requires Shape(r) && NeedsWrap(r, len) && len < 0x1_0000
    requires |r.buf| - r.writePos % |r.buf| >= HEADER_SIZE
    ensures |SkipCells(r)| == 1 && SkipCells(r)[0].hdr.seqNo == 0
    ensures Parse(Wrap(r).buf, r.writePos, Wrap(r).writePos) == Some(SkipCells(r))
  {
    hide Encode, Parse, EntrySize, Poke, CellAt;
    var off := r.writePos % |r.buf|;
    SkipLength(r, len);
    PokeSlice(r.buf, off, Encode(SkipHeader(|r.buf| - off)));
    MarkerCell(Wrap(r).buf, r.writePos);
  }

  lemma PokeSlice(buf: seq<bv8>, off: nat, bytes: seq<bv8>)
    requires off + |bytes| <= |buf|
    ensures Poke(buf, off, bytes)[off..off + |bytes|] == bytes
  {
  }

  /** The length stored in a marker is never truncated, and leads exactly to the end of the buffer. */
  lemma SkipLength(r: Ring, len: nat)
    requires Shape(r) && NeedsWrap(r, len) && len < 0x1_0000
    requires |r.buf| - r.writePos % |r.buf| >= HEADER_SIZE
    ensures var remaining := |r.buf| - r.writePos % |r.buf|;
            && remaining % 8 == 0
            && remaining - HEADER_SIZE < 0x1_0000
  {
    hide EntrySize;
    Aligned(|r.buf|, r.writePos);
    Sum8(0, |r.buf|, r.writePos % |r.buf|);
  }

  /** An unmarked wrap cannot be decoded: the header there crosses the end of the buffer. */
  lemma UnmarkedCell(buf: seq<bv8>, pos: nat, end: nat)
    requires |buf| > 0 && pos < end && |buf| - pos % |buf| < HEADER_SIZE
    ensures Parse(buf, pos, end).None?
  {
  }

  ghost predicate Wraps(r: Ring, maxEntry: nat, len: nat)
    requires Shape(r)
  {
    !Rejects(r, maxEntry, len) && NeedsWrap(r, len)
  }

  /** The wrap leaves no room for a marker. */
  ghost predicate WrapsUnmarked(r: Ring, maxEntry: nat, len: nat)
    requires Shape(r)
  {
    Wraps(r, maxEntry, len) && |r.buf| - r.writePos % |r.buf| < HEADER_SIZE
  }

  /** At the start of the buffer Append does not wrap again. */
  lemma AppendAtStart(r: Ring, maxEntry: nat, kind: nat, data: seq<bv8>, now: nat)
    requires Shape(r) && r.writePos % |r.buf| == 0 && |data| < 0x1_0000
    ensures Append(r, maxEntry, kind, data, now) ==
            if Rejects(r, maxEntry, |data|) then (r, 0) else (Publish(r, kind, data, now), r.nextSeq)
  {
    hide Publish, Wrap, EntrySize, Append;
    AppendInPlace(r, maxEntry, kind, data, now);
  }

  /** One entry joins the cells decoded from any start in the window. */
  lemma PublishParses(r: Ring, kind: nat, data: seq<bv8>, now: nat, start: nat)
    requires Shape(r) && !NeedsWrap(r, |data|) && Representable(r.nextSeq, kind, data, now)
    requires r.writePos - r.confirmedPos + EntrySize(|data|) <= |r.buf|
    requires r.confirmedPos <= start <= r.writePos && Parse(r.buf, start, r.writePos).Some?
    ensures var r' := Publish(r, kind, data, now);
            Parse(r'.buf, start, r'.writePos) ==
            Some(Parse(r.buf, start, r.writePos).value + [EntryCell(r.nextSeq, kind, data, now)])
  {
    hide EntrySize, Parse, EntryCell, Agree, Publish;
    var r' := Publish(r, kind, data, now);
    PublishCursors(r, kind, data, now);
    PublishFrame(r, kind, data, now);
    AgreeNarrow(r.buf, r'.buf, r.confirmedPos, start, r.writePos);
    ParseFrame(r.buf, r'.buf, start, r.writePos);
    PublishedCell(r, kind, data, now);
    ParseConcat(r'.buf, start, r.writePos, r'.writePos);
  }

  lemma AgreeNarrow(a: seq<bv8>, b: seq<bv8>, pos: nat, mid: nat, end: nat)
    requires Agree(a, b, pos, end) && pos <= mid
    ensures Agree(a, b, mid, end)
  {
  }

  /** After the wrap step: one more cell when it was marked, nothing decodable when it was not. */
  lemma WrapParses(r: Ring, len: nat, start: nat)
    requires Shape(r) && NeedsWrap(r, len) && len < 0x1_0000
    requires r.writePos - r.confirmedPos + EntrySize(len) <= |r.buf|
    requires r.confirmedPos <= start <= r.writePos && Parse(r.buf, start, r.writePos).Some?
    ensures if |r.buf| - r.writePos % |r.buf| < HEADER_SIZE then
              forall buf, end :: |buf| == |r.buf| && end > r.writePos && Agree(r.buf, buf, r.confirmedPos, r.writePos)
                ==> Parse(buf, start, end).None?
            else
              Parse(Wrap(r).buf, start, Wrap(r).writePos) ==
              Some(Parse(r.buf, start, r.writePos).value + SkipCells(r))
  {
    hide EntrySize, Parse, Agree, Wrap, SkipCells;
    if |r.buf| - r.writePos % |r.buf| < HEADER_SIZE {
      forall buf, end | |buf| == |r.buf| && end > r.writePos && Agree(r.buf, buf, r.confirmedPos, r.writePos)
        ensures Parse(buf, start, end).None?
      {
        AgreeNarrow(r.buf, buf, r.confirmedPos, start, r.writePos);
        ParseFrame(r.buf, buf, start, r.writePos);
        UnmarkedCell(buf, r.writePos, end);
        ParseConcat(buf, start, r.writePos, end);
      }
    } else {
      WrapFrame(r, len);
      AgreeNarrow(r.buf, Wrap(r).buf, r.confirmedPos, start, r.writePos);
      ParseFrame(r.buf, Wrap(r).buf, start, r.writePos);
      SkippedCell(r, len);
      ParseConcat(Wrap(r).buf, start, r.writePos, Wrap(r).writePos);
    }
  }

  /**
   * Append as readers see it. Starting anywhere in the window, they decode what they decoded
   * before, a skip cell if Append wrapped, and the new entry if it was stored. The window can be
   * decoded after an Append exactly when the Append did not wrap without room for a marker.
   */
  lemma AppendParses(r: Ring, maxEntry: nat, kind: nat, data: seq<bv8>, now: nat, start: nat)
    requires Shape(r) && Representable(r.nextSeq + 1, kind, data, now)
    requires r.confirmedPos <= start <= r.writePos && Parse(r.buf, start, r.writePos).Some?
    ensures var (r', seqNo) := Append(r, maxEntry, kind, data, now);
            && (Parse(r'.buf, start, r'.writePos).Some? <==> !WrapsUnmarked(r, maxEntry, |data|))
            && (!WrapsUnmarked(r, maxEntry, |data|) ==>
                  Parse(r'.buf, start, r'.writePos).value ==
                     Parse(r.buf, start, r.writePos).value
                     + (if Wraps(r, maxEntry, |data|) then SkipCells(r) else [])
                     + (if r'.totalEntries == r.totalEntries then [] else [EntryCell(seqNo, kind, data, now)]))
  {
    hide Publish, Wrap, EntrySize, Parse, EntryCell, Agree, SkipCells, Append;
    AppendInPlace(r, maxEntry, kind, data, now);
    var (r', seqNo) := Append(r, maxEntry, kind, data, now);
    var cells := Parse(r.buf, start, r.writePos).value;
    if Rejects(r, maxEntry, |data|) {
      assert cells + [] + [] == cells;
    } else if NeedsWrap(r, |data|) {
      var w := Wrap(r);
      WrapShape(r, |data|);
      WrapParses(r, |data|, start);
      WrapTotals(r);
      AppendAtStart(w, maxEntry, kind, data, now);
      AppendKeepsWindow(r, maxEntry, kind, data, now);
      if |r.buf| - r.writePos % |r.buf| < HEADER_SIZE {
        AgreeLengths(r.buf, r'.buf, r.confirmedPos, r.writePos);
        AppendKeepsWindow(w, maxEntry, kind, data, now);
      } else if Rejects(w, maxEntry, |data|) {
        assert cells + SkipCells(r) + [] == cells + SkipCells(r);
      } else {
        PublishParses(w, kind, data, now, start);
        PublishCursors(w, kind, data, now);
      }
    } else {
      PublishParses(r, kind, data, now, start);
      PublishCursors(r, kind, data, now);
      assert cells + [] == cells;
    }
  }

  lemma AgreeLengths(a: seq<bv8>, b: seq<bv8>, pos: nat, end: nat)
    requires Agree(a, b, pos, end)
    ensures |a| == |b|
  {
  }

  lemma WrapTotals(r: Ring)
    requires |r.buf| > 0
    ensures Wrap(r).totalEntries == r.totalEntries && Wrap(r).totalBytes == r.totalBytes
    ensures Wrap(r).nextSeq == r.nextSeq + 1 && Wrap(r).wrapCount == r.wrapCount + 1
  {
    hide Encode;
  }

  // ---------------------------------------------------------------- accounting

  /** Every sequence number went to an entry or to a wrap. */
  ghost predicate Accounted(r: Ring) {
    r.nextSeq == 1 + r.totalEntries + r.wrapCount
  }

  /**
   * A returned number is new and the last one taken; a failure stores nothing. A wrap costs one
   * number even when the retry then finds the buffer full.
   */
  lemma AppendAccounts(r: Ring, maxEntry: nat, kind: nat, data: seq<bv8>, now: nat)
    requires Shape(r) && Accounted(r) && |data| < 0x1_0000
    ensures var (r', seqNo) := Append(r, maxEntry, kind, data, now);
            && Accounted(r')
            && (seqNo == 0 <==> r'.totalEntries == r.totalEntries)
            && (seqNo != 0 ==> r'.totalEntries == r.totalEntries + 1 && r.nextSeq <= seqNo == r'.nextSeq - 1)
            && r'.wrapCount == r.wrapCount + (if Wraps(r, maxEntry, |data|) then 1 else 0)
            && r'.totalBytes == r.totalBytes + (if seqNo == 0 then 0 else EntrySize(|data|))
  {
    hide Publish, Wrap, EntrySize, Append;
    AppendInPlace(r, maxEntry, kind, data, now);
    if Rejects(r, maxEntry, |data|) {
    } else if NeedsWrap(r, |data|) {
      var w := Wrap(r);
      WrapShape(r, |data|);
      WrapTotals(r);
      AppendAtStart(w, maxEntry, kind, data, now);
      if !Rejects(w, maxEntry, |data|) {
        PublishCursors(w, kind, data, now);
      }
    } else {
      PublishCursors(r, kind, data, now);
    }
  }

  // ---------------------------------------------------------------- every outcome of Append

  /** At off the buffer holds a header with these fields, and the data behind it. */
  ghost predicate StoredAt(buf: seq<bv8>, off: nat, seqNo: nat, now: nat, kind: nat, data: seq<bv8>) {
    && off + 24 + |data| <= |buf|
    && Decode(buf[off..off + 24]) == Header(seqNo, now, kind, |data|, if data == [] then 0 else Crc32.Checksum(data))
    && buf[off + 24..off + 24 + |data|] == data
  }

  /** The cursors and counters after an Append that moved the write position by moved. */
  ghost predicate Moved(r: Ring, r': Ring, moved: nat, numbers: nat, entries: nat, bytes: nat, wraps: nat) {
    && r'.writePos == r.writePos + moved && r'.readPos == r.readPos && r'.confirmedPos == r.confirmedPos
    && r'.nextSeq == r.nextSeq + numbers && r'.totalEntries == r.totalEntries + entries
    && r'.totalBytes == r.totalBytes + bytes && r'.wrapCount == r.wrapCount + wraps
  }

  lemma SizeExactly(len: nat)
    ensures EntrySize(len) == (24 + len + 7) / 8 * 8
  {
  }

  lemma PublishExactly(r: Ring, kind: nat, data: seq<bv8>, now: nat)
    requires |r.buf| > 0 && !NeedsWrap(r, |data|) && Representable(r.nextSeq, kind, data, now)
    ensures var r', off := Publish(r, kind, data, now), r.writePos % |r.buf|;
            && Moved(r, r', EntrySize(|data|), 1, 1, EntrySize(|data|), 0)
            && StoredAt(r'.buf, off, r.nextSeq, now, kind, data)
            && Outside(r.buf, r'.buf, off, 24 + |data|)
  {
    hide Encode, Decode, EntrySize, Crc32.Checksum;
    var off := r.writePos % |r.buf|;
    var bytes := EntryBytes(r.nextSeq, now, kind, data);
    var b := Poke(r.buf, off, bytes);
    DecodeEncode(Header(r.nextSeq, now, kind, |data|, StoredCrc(data)));
    PokeSlice(r.buf, off, bytes);
    assert b[off..off + 24] == b[off..off + |bytes|][..24] == bytes[..24];
    assert b[off + 24..off + 24 + |data|] == b[off..off + |bytes|][24..] == bytes[24..];
  }

  lemma WrapExactly(r: Ring, len: nat)
    requires Shape(r) && NeedsWrap(r, len) && len < 0x1_0000
    ensures var w, off := Wrap(r), r.writePos % |r.buf|;
            var rest := |r.buf| - off;
            && Moved(r, w, rest, 1, 0, 0, 1)
            && Outside(r.buf, w.buf, off, 24)
            && if rest < 24 then w.buf == r.buf else Decode(w.buf[off..off + 24]) == Header(0, 0, 0, rest - 24, 0)
  {
    hide Encode, Decode, EntrySize;
    var off := r.writePos % |r.buf|;
    var rest := |r.buf| - off;
    if rest >= 24 {
      SkipLength(r, len);
      DecodeEncode(SkipHeader(rest));
      PokeSlice(r.buf, off, Encode(SkipHeader(rest)));
    }
  }

  lemma MarkerKept(a: seq<bv8>, b: seq<bv8>, c: seq<bv8>, off: nat, len: nat)
    requires Outside(a, b, off, 24) && Outside(b, c, 0, len) && len <= off
    ensures off + 24 <= |c| ==> c[off..off + 24] == b[off..off + 24]
    ensures forall x :: len <= x < |a| && !(off <= x < off + 24) ==> c[x] == a[x]
  {
    assert off + 24 <= |c| ==> c[off..off + 24] == b[off..off + 24];
  }

  /** What an Append that wraps leaves. */
  ghost predicate Wrapped(r: Ring, r': Ring, seqNo: nat, kind: nat, data: seq<bv8>, now: nat, size: nat)
    requires |r.buf| == |r'.buf| > 0
  {
    var used, off := r.writePos - r.confirmedPos, r.writePos % |r.buf|;
    var rest := |r.buf| - off;
    && (rest >= 24 ==> Decode(r'.buf[off..off + 24]) == Header(0, 0, 0, rest - 24, 0))
    && if used + rest + size > |r.buf| then
         seqNo == 0 && Moved(r, r', rest, 1, 0, 0, 1) && Outside(r.buf, r'.buf, off, 24)
       else
         && seqNo == r.nextSeq + 1 && Moved(r, r', rest + size, 2, 1, size, 1)
         && StoredAt(r'.buf, 0, seqNo, now, kind, data)
         && (forall x :: 24 + |data| <= x < |r.buf| && !(off <= x < off + 24) ==> r'.buf[x] == r.buf[x])
  }

  lemma WrapAndPublish(r: Ring, maxEntry: nat, kind: nat, data: seq<bv8>, now: nat)
    requires Shape(r) && Representable(r.nextSeq + 1, kind, data, now)
    requires !Rejects(r, maxEntry, |data|) && NeedsWrap(r, |data|)
    ensures var (r', seqNo) := Append(r, maxEntry, kind, data, now);
            Wrapped(r, r', seqNo, kind, data, now, EntrySize(|data|))
  {
    hide Publish, Wrap, EntrySize, Append, StoredAt, Decode, Outside;
    var w, off := Wrap(r), r.writePos % |r.buf|;
    AppendInPlace(r, maxEntry, kind, data, now);
    WrapExactly(r, |data|);
    WrapShape(r, |data|);
    AppendAtStart(w, maxEntry, kind, data, now);
    if !Rejects(w, maxEntry, |data|) {
      PublishExactly(w, kind, data, now);
      MarkerKept(r.buf, w.buf, Publish(w, kind, data, now).buf, off, 24 + |data|);
    }
  }

  /**
   * Every outcome of Append on numbers and bytes: rejected; stored at the write position; past the end,
   * which leaves a marker if 24 bytes are left there, and then stored at offset 0 or rejected.
   */
  lemma AppendExactly(r: Ring, maxEntry: nat, kind: nat, data: seq<bv8>, now: nat)
    requires Shape(r) && Representable(r.nextSeq + 1, kind, data, now)
    ensures var (r', seqNo) := Append(r, maxEntry, kind, data, now);
            var size, used, off := (24 + |data| + 7) / 8 * 8, r.writePos - r.confirmedPos, r.writePos % |r.buf|;
            var rest := |r.buf| - off;
            if size > maxEntry || used + size > |r.buf| then
              r' == r && seqNo == 0
            else if size <= rest then
              && seqNo == r.nextSeq && Moved(r, r', size, 1, 1, size, 0)
              && StoredAt(r'.buf, off, seqNo, now, kind, data) && Outside(r.buf, r'.buf, off, 24 + |data|)
            else
              Wrapped(r, r', seqNo, kind, data, now, size)
  {
    hide Publish, Wrap, EntrySize, Append, StoredAt, Moved, Outside, Wrapped;
    SizeExactly(|data|);
    AppendInPlace(r, maxEntry, kind, data, now);
    if Rejects(r, maxEntry, |data|) {
    } else if NeedsWrap(r, |data|) {
      WrapAndPublish(r, maxEntry, kind, data, now);
    } else {
      PublishExactly(r, kind, data, now);
    }
  }

  /**
   * A ring of 64 bytes holding nothing unconfirmed, 16 bytes before its end: the next entry wraps
   * without a marker, is stored, and cannot be reached by a reader.
   */
  lemma UnmarkedWrapExample(now: nat)
    requires now < 0x1_0000_0000_0000_0000
    ensures var r := Ring(seq(64, _ => 0), 48, 48, 48, 3, 2, 48, 0);
            && Shape(r) && Accounted(r) && Parse(r.buf, 48, 48) == Some([])
            && var (r', seqNo) := Append(r, 64, 1, [], now);
               seqNo == 4 && Parse(r'.buf, 48, r'.writePos).None?
  {
    hide Publish, Wrap, CellAt, Append;
    var r := Ring(seq(64, _ => 0), 48, 48, 48, 3, 2, 48, 0);
    assert EntrySize(0) == 24;
    AppendParses(r, 64, 1, [], now, 48);
    AppendAccounts(r, 64, 1, [], now);
    WrapShape(r, 0);
    WrapTotals(r);
    AppendInPlace(r, 64, 1, [], now);
    AppendAtStart(Wrap(r), 64, 1, [], now);
  }
}
