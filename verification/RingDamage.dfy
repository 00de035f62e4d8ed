/** Damage to the stored data of an entry: no reader delivers it, and every other entry is still found. */
module RingDamage {
  import opened Common
  import opened Positions
  import Crc32
  import opened WalEntry
  import opened RingSpec
  import opened RingLemmas
  import opened RingReaders
  import ShmRing

  /**
   * The buffers differ, and only in the data of an entry at off that carries len bytes, inside the
   * four bytes from its byte at on.
   */
  ghost predicate Hit(a: seq<bv8>, b: seq<bv8>, off: nat, len: nat, at: nat) {
    && |a| == |b| && a != b && at <= len
    && forall x :: 0 <= x < |a| && !(off + 24 + at <= x < off + 24 + at + 4 && x < off + 24 + len) ==> a[x] == b[x]
  }

  /** The cell a reader finds where c was. */
  function Found(c: Cell, b: seq<bv8>, off: nat): Cell
    requires off + HEADER_SIZE + c.hdr.dataLen <= |b|
  {
    Cell(c.hdr, b[off + HEADER_SIZE..off + HEADER_SIZE + c.hdr.dataLen])
  }

  lemma FoundThere(a: seq<bv8>, b: seq<bv8>, off: nat, c: Cell, at: nat)
    requires CellAt(a, off) == Some(c) && Hit(a, b, off, |c.data|, at)
    ensures |a| == |b| && off + c.Size() <= |a| && Outside(a, b, off, c.Size())
    ensures CellAt(b, off) == Some(Found(c, b, off))
  {
    hide Decode;
    assert a[off..off + HEADER_SIZE] == b[off..off + HEADER_SIZE];
  }

  /** The checksum of the data found no longer fits. */
  lemma FoundBroken(a: seq<bv8>, b: seq<bv8>, off: nat, c: Cell, at: nat)
    requires CellAt(a, off) == Some(c) && Hit(a, b, off, |c.data|, at) && Sealed(c)
    ensures off + c.Size() <= |b| && !Sealed(Found(c, b, off))
  {
    hide Decode, Crc32.Checksum;
    var d := Found(c, b, off);
    var x :| 0 <= x < |a| && a[x] != b[x];
    assert c.data[x - off - HEADER_SIZE] != d.data[x - off - HEADER_SIZE];
    Crc32.DetectsWindow(c.data, d.data, at);
  }

  lemma HeadCell(buf: seq<bv8>, p: nat, end: nat)
    requires |buf| > 0 && Parse(buf, p, end).Some? && Parse(buf, p, end).value != []
    ensures var cells := Parse(buf, p, end).value;
            && CellAt(buf, p % |buf|) == Some(cells[0])
            && p + cells[0].Size() <= end
            && Parse(buf, p + cells[0].Size(), end) == Some(cells[1..])
  {
    hide CellAt, EntrySize;
    ParseBound(buf, p + Parse(buf, p, end).value[0].Size(), end);
  }

  lemma Shorten(a: seq<bv8>, b: seq<bv8>, pos: nat, end: nat, mid: nat)
    requires Agree(a, b, pos, end) && mid <= end
    ensures Agree(a, b, pos, mid)
  {
  }

  /** In a window no longer than the buffer, a change inside one cell is seen nowhere else. */
  lemma AroundCell(a: seq<bv8>, b: seq<bv8>, pos: nat, p: nat, size: nat, end: nat)
    requires |a| > 0 && pos <= p && p + size <= end <= pos + |a|
    requires p % |a| + size <= |a| && Outside(a, b, p % |a|, size)
    ensures Agree(a, b, pos, p) && Agree(a, b, p + size, end)
  {
    hide Outside;
    OutsideFrame(a, b, p, size, pos);
    var lap := p + |a|;
    assert lap == |a| * (p / |a| + 1) + p % |a|;
    ModOfSum(|a|, p / |a| + 1, p % |a|);
    OutsideFrame(a, b, lap, size, p + size);
    Shorten(a, b, p + size, lap, end);
  }

  lemma Assembled(b: seq<bv8>, pos: nat, p: nat, end: nat, front: seq<Cell>, d: Cell, back: seq<Cell>)
    requires |b| > 0 && Parse(b, pos, p) == Some(front) && CellAt(b, p % |b|) == Some(d)
    requires p + d.Size() <= end && Parse(b, p + d.Size(), end) == Some(back)
    ensures Parse(b, pos, end) == Some(front + [d] + back)
  {
    hide Parse, CellAt, EntrySize;
    ParseOne(b, p, d);
    ParseConcat(b, pos, p, p + d.Size());
    ParseConcat(b, pos, p + d.Size(), end);
  }

  lemma DamagedCell(a: seq<bv8>, b: seq<bv8>, pos: nat, p: nat, end: nat,
                    front: seq<Cell>, c: Cell, back: seq<Cell>, at: nat) returns (d: Cell)
    requires |a| > 0 && pos <= p && p + c.Size() <= end <= pos + |a| && Sealed(c)
    requires Parse(a, pos, p) == Some(front) && CellAt(a, p % |a|) == Some(c)
    requires Parse(a, p + c.Size(), end) == Some(back) && Hit(a, b, p % |a|, |c.data|, at)
    ensures |a| == |b| && Parse(b, pos, end) == Some(front + [d] + back)
    ensures d.hdr == c.hdr && !Sealed(d)
  {
    hide CellAt, EntrySize, Sealed, Hit, Outside, Agree, Parse;
    var off := p % |a|;
    FoundThere(a, b, off, c, at);
    FoundBroken(a, b, off, c, at);
    d := Found(c, b, off);
    AroundCell(a, b, pos, p, c.Size(), end);
    ParseFrame(a, b, pos, p);
    ParseFrame(a, b, p + c.Size(), end);
    Assembled(b, pos, p, end, front, d, back);
  }

  /** The chains differ in cell j alone: it kept its header and lost its seal. */
  ghost predicate Unsealed(cells: seq<Cell>, after: seq<Cell>, j: nat) {
    && j < |cells| == |after|
    && after == cells[..j] + [after[j]] + cells[j + 1..]
    && after[j].hdr == cells[j].hdr && !Sealed(after[j])
  }

  /** The damage is to the data of cell j of the chain from pos on, which was sealed. */
  ghost predicate Struck(a: seq<bv8>, b: seq<bv8>, pos: nat, cells: seq<Cell>, j: nat, at: nat) {
    && |a| > 0 && j < |cells| && Sealed(cells[j])
    && Hit(a, b, (pos + Length(cells[..j])) % |a|, |cells[j].data|, at)
  }

  /** What is decoded from the damaged bytes: every cell but the one hit, which has lost its seal. */
  lemma DamagedParse(a: seq<bv8>, b: seq<bv8>, pos: nat, end: nat, j: nat, at: nat)
    requires |a| > 0 && Parse(a, pos, end).Some? && end <= pos + |a|
    requires Struck(a, b, pos, Parse(a, pos, end).value, j, at)
    ensures |b| > 0 && Parse(b, pos, end).Some?
    ensures Unsealed(Parse(a, pos, end).value, Parse(b, pos, end).value, j)
  {
    hide CellAt, EntrySize, Sealed, Hit, Parse, Length, Unsealed;
    var cells := Parse(a, pos, end).value;
    var p := pos + Length(cells[..j]);
    CellInPlace(a, pos, end, j);
    var d := DamagedCell(a, b, pos, p, end, cells[..j], cells[j], cells[j + 1..], at);
    OneReplaced(cells, d, j);
  }

  lemma OneReplaced(cells: seq<Cell>, d: Cell, j: nat)
    requires j < |cells| && d.hdr == cells[j].hdr && !Sealed(d)
    ensures Unsealed(cells, cells[..j] + [d] + cells[j + 1..], j)
  {
    hide Sealed;
  }

  lemma CellInPlace(buf: seq<bv8>, pos: nat, end: nat, j: nat)
    requires |buf| > 0 && Parse(buf, pos, end).Some? && j < |Parse(buf, pos, end).value|
    ensures var cells := Parse(buf, pos, end).value;
            var p := pos + Length(cells[..j]);
            && Parse(buf, pos, p) == Some(cells[..j]) && CellAt(buf, p % |buf|) == Some(cells[j])
            && p + cells[j].Size() <= end
            && Parse(buf, p + cells[j].Size(), end) == Some(cells[j + 1..])
  {
    hide CellAt, EntrySize, Parse, Length;
    var cells := Parse(buf, pos, end).value;
    ParseDrop(buf, pos, end, j);
    assert cells[j..][0] == cells[j] && cells[j..][1..] == cells[j + 1..];
    HeadCell(buf, pos + Length(cells[..j]), end);
  }

  lemma {:induction false} SealedConcat(a: seq<Cell>, b: seq<Cell>)
    ensures SealedOf(a + b) == SealedOf(a) + SealedOf(b)
  {
    hide Sealed;
    if b == [] {
      assert a + b == a;
    } else {
      var n := |b| - 1;
      SealedConcat(a, b[..n]);
      assert (a + b)[..|a| + n] == a + b[..n];
    }
  }

  lemma SealedOne(c: Cell)
    ensures SealedOf([c]) == if Sealed(c) then [c] else []
  {
    hide Sealed;
    assert [c][..0] == [];
  }

  /** The entries left after the damage: those before and those behind the one hit. */
  lemma OthersLeft(cells: seq<Cell>, after: seq<Cell>, j: nat)
    requires Unsealed(cells, after, j)
    ensures SealedOf(after) == SealedOf(cells[..j]) + SealedOf(cells[j + 1..])
    ensures Sealed(cells[j]) ==> SealedOf(cells) == SealedOf(cells[..j]) + [cells[j]] + SealedOf(cells[j + 1..])
  {
    hide Sealed, SealedOf;
    SealedConcat(cells[..j] + [after[j]], cells[j + 1..]);
    SealedConcat(cells[..j], [after[j]]);
    SealedOne(after[j]);
    assert cells == cells[..j] + [cells[j]] + cells[j + 1..];
    SealedConcat(cells[..j] + [cells[j]], cells[j + 1..]);
    SealedConcat(cells[..j], [cells[j]]);
    SealedOne(cells[j]);
  }

  lemma LastInPlace(buf: seq<bv8>, pos: nat, end: nat, size: nat)
    requires |buf| > 0 && Parse(buf, pos, end).Some?
    requires var cells := Parse(buf, pos, end).value; cells != [] && cells[|cells| - 1].Size() == size
    ensures var cells := Parse(buf, pos, end).value; pos + Length(cells[..|cells| - 1]) == end - size
  {
    hide CellAt, EntrySize, Parse, Length;
    var cells := Parse(buf, pos, end).value;
    var n := |cells| - 1;
    CellInPlace(buf, pos, end, n);
    assert cells[n + 1..] == [];
    NothingBetween(buf, pos + Length(cells[..n]) + size, end);
  }

  lemma NothingBetween(buf: seq<bv8>, pos: nat, end: nat)
    requires |buf| > 0 && Parse(buf, pos, end) == Some([])
    ensures pos == end
  {
  }

  /** Damage to the last cell of a chain leaves the entries before it. */
  lemma LastDamaged(a: seq<bv8>, b: seq<bv8>, pos: nat, end: nat, front: seq<Cell>, c: Cell, at: nat)
    requires |a| > 0 && Parse(a, pos, end) == Some(front + [c]) && end <= pos + |a| && c.Size() <= end
    requires Sealed(c) && Hit(a, b, (end - c.Size()) % |a|, |c.data|, at)
    ensures |b| > 0 && Parse(b, pos, end).Some?
    ensures SealedOf(Parse(b, pos, end).value) == SealedOf(front)
  {
    hide CellAt, EntrySize, Parse, Length, Hit, Unsealed, SealedOf, Sealed;
    var cells, n := front + [c], |front|;
    LastInPlace(a, pos, end, c.Size());
    assert cells[..n] == front && cells[n + 1..] == [];
    DamagedParse(a, b, pos, end, n, at);
    OthersLeft(cells, Parse(b, pos, end).value, n);
    NoneOfNothing();
  }

  lemma NoneOfNothing()
    ensures SealedOf([]) == []
  {
  }

  lemma MarkerUnsealed(r: Ring, len: nat)
    requires Shape(r) && NeedsWrap(r, len) && len < 0x1_0000
    requires |r.buf| - r.writePos % |r.buf| >= HEADER_SIZE
    ensures SealedOf(SkipCells(r)) == []
  {
    hide SkipCells, EntrySize;
    SkippedCell(r, len);
    SealedOne(SkipCells(r)[0]);
    assert SkipCells(r) == [SkipCells(r)[0]];
  }

  /**
   * After an Append that stored an entry, damage to up to four consecutive bytes of the data it stored:
   * a reader starting anywhere in the window finds the entries it found before the Append.
   */
  lemma AppendedDamaged(r: Ring, maxEntry: nat, kind: nat, data: seq<bv8>, now: nat, start: nat, b: seq<bv8>, at: nat)
    requires Shape(r) && Accounted(r) && Representable(r.nextSeq + 1, kind, data, now) && kind != 0
    requires r.confirmedPos <= start <= r.writePos && Parse(r.buf, start, r.writePos).Some?
    requires !WrapsUnmarked(r, maxEntry, |data|)
    requires var (r', seqNo) := Append(r, maxEntry, kind, data, now);
             && seqNo != 0 && EntrySize(|data|) <= r'.writePos
             && Hit(r'.buf, b, (r'.writePos - EntrySize(|data|)) % |r.buf|, |data|, at)
    ensures var r' := Append(r, maxEntry, kind, data, now).0;
            && |b| > 0 && Parse(b, start, r'.writePos).Some?
            && SealedOf(Parse(b, start, r'.writePos).value) == SealedOf(Parse(r.buf, start, r.writePos).value)
  {
    hide Append, Parse, EntrySize, Hit, SealedOf, Sealed, SkipCells, Agree;
    var (r', seqNo) := Append(r, maxEntry, kind, data, now);
    var cells, c := Parse(r.buf, start, r.writePos).value, EntryCell(seqNo, kind, data, now);
    var skip := if Wraps(r, maxEntry, |data|) then SkipCells(r) else [];
    AppendParses(r, maxEntry, kind, data, now, start);
    AppendAccounts(r, maxEntry, kind, data, now);
    AppendKeepsWindow(r, maxEntry, kind, data, now);
    EntryIsSealed(seqNo, kind, data, now);
    LastDamaged(r'.buf, b, start, r'.writePos, cells + skip, c, at);
    SealedConcat(cells, skip);
    NoneOfNothing();
    if Wraps(r, maxEntry, |data|) {
      MarkerUnsealed(r, |data|);
    }
  }

  lemma EntryIsSealed(seqNo: nat, kind: nat, data: seq<bv8>, now: nat)
    requires seqNo != 0 && kind != 0
    ensures Sealed(EntryCell(seqNo, kind, data, now))
  {
    hide Crc32.Checksum;
  }

  // ---------------------------------------------------------------- the readers on a damaged ring

  /** Up to four new bytes, not the old ones, for the data of c from its byte at on. */
  ghost predicate Damages(c: Cell, at: nat, bytes: seq<bv8>) {
    && Sealed(c) && |bytes| <= 4 && at + |bytes| <= |c.data| && c.data[at..at + |bytes|] != bytes
  }

  /** A slice of a slice. */
  lemma SlicePart(buf: seq<bv8>, from: nat, to: nat, i: nat, j: nat)
    requires from <= to <= |buf| && i <= j <= to - from
    ensures buf[from..to][i..j] == buf[from + i..from + j]
  {
    var part, whole := buf[from..to][i..j], buf[from + i..from + j];
    assert |part| == |whole|;
    assert forall k :: 0 <= k < |whole| ==> part[k] == buf[from..to][i + k] == buf[from + i + k] == whole[k];
  }

  lemma PokeOutside(buf: seq<bv8>, off: nat, bytes: seq<bv8>)
    requires off + |bytes| <= |buf|
    ensures Outside(buf, Poke(buf, off, bytes), off, |bytes|)
  {
  }

  lemma CopyHits(buf: seq<bv8>, off: nat, c: Cell, at: nat, bytes: seq<bv8>)
    requires CellAt(buf, off) == Some(c) && Damages(c, at, bytes)
    ensures off + 24 + at + |bytes| <= |buf|
    ensures Hit(buf, Poke(buf, off + 24 + at, bytes), off, |c.data|, at)
  {
    hide Decode, Sealed, Poke;
    var first := off + 24 + at;
    var b := Poke(buf, first, bytes);
    SlicePart(buf, off + 24, off + 24 + |c.data|, at, at + |bytes|);
    PokeSlice(buf, first, bytes);
    assert b[first..first + |bytes|] != buf[first..first + |bytes|];
    PokeOutside(buf, first, bytes);
  }

  /** The bytes of the entry at place are damaged: from pos on, a reader finds the other entries. */
  method Damage(ring: ShmRing.ShmRing, ghost pos: nat, ghost j: nat, place: nat, at: nat, bytes: seq<bv8>)
    requires ring.Readable(pos) && ring.writePos <= pos + ring.buffer.Length
    requires var cells := ring.Cells(pos);
             j < |cells| && place == pos + Length(cells[..j]) && Damages(cells[j], at, bytes)
    modifies ring.buffer
    ensures ring.Readable(pos)
    ensures Unsealed(old(ring.Cells(pos)), ring.Cells(pos), j)
    ensures SealedOf(ring.Cells(pos)) == old(SealedOf(ring.Cells(pos)[..j]) + SealedOf(ring.Cells(pos)[j + 1..]))
  {
    hide CellAt, EntrySize, Parse, Length, Hit, Unsealed, SealedOf;
    ghost var a, cells := ring.buffer[..], ring.Cells(pos);
    CellInPlace(a, pos, ring.writePos, j);
    CopyHits(a, place % ring.buffer.Length, cells[j], at, bytes);
    ring.CopyIn(place % ring.buffer.Length + 24 + at, bytes);
    DamagedParse(a, ring.buffer[..], pos, ring.writePos, j, at);
    OthersLeft(cells, ring.Cells(pos), j);
  }

  /** ReadNext passes over a damaged entry and delivers the first of the others. */
  method ReadNextDamaged(ring: ShmRing.ShmRing, ghost j: nat, place: nat, at: nat, bytes: seq<bv8>, maxLen: nat)
    returns (ok: bool, entry: Header, data: seq<bv8>)
    requires ring.Readable(ring.readPos) && ring.writePos <= ring.readPos + ring.buffer.Length
    requires var cells := ring.Cells(ring.readPos);
             j < |cells| && place == ring.readPos + Length(cells[..j]) && Damages(cells[j], at, bytes)
    modifies ring`readPos, ring.buffer
    ensures var cells := old(ring.Cells(ring.readPos));
            var es := SealedOf(cells[..j]) + SealedOf(cells[j + 1..]);
            && (ok <==> es != [])
            && (ok ==> entry == es[0].hdr
                       && data == es[0].data[..if maxLen < |es[0].data| then maxLen else |es[0].data|])
            && ring.Readable(ring.readPos)
            && (ok ==> SealedOf(ring.Cells(ring.readPos)) == es[1..])
            && (!ok ==> ring.readPos == ring.writePos)
  {
    hide CellAt, EntrySize, Parse, Length, Unsealed, SealedOf, Damages, Sealed, Through;
    Damage(ring, ring.readPos, j, place, at, bytes);
    ok, entry, data := ring.ReadNext(maxLen);
  }

  /** ReadUnconfirmed leaves a damaged entry out. */
  method ReadUnconfirmedDamaged(ring: ShmRing.ShmRing, ghost j: nat, place: nat, at: nat, bytes: seq<bv8>,
                                maxCount: nat)
    returns (entries: seq<Cell>)
    requires ring.Readable(ring.confirmedPos) && ring.writePos <= ring.confirmedPos + ring.buffer.Length
    requires var cells := ring.Cells(ring.confirmedPos);
             j < |cells| && place == ring.confirmedPos + Length(cells[..j]) && Damages(cells[j], at, bytes)
    modifies ring.buffer
    ensures var cells := old(ring.Cells(ring.confirmedPos));
            var es := SealedOf(cells[..j]) + SealedOf(cells[j + 1..]);
            entries == es[..if maxCount < |es| then maxCount else |es|]
  {
    hide CellAt, EntrySize, Parse, Length, Unsealed, SealedOf, Damages, Sealed;
    Damage(ring, ring.confirmedPos, j, place, at, bytes);
    entries := ring.ReadUnconfirmed(maxCount);
  }

  /** One byte appended to a ring of 64 bytes that has room for it. */
  lemma ByteAppended(r: Ring, b: bv8, now: nat)
    requires Shape(r) && Accounted(r) && |r.buf| == 64 && r.confirmedPos == 0
    requires r.writePos in {0, 32} && r.nextSeq in {1, 2}
    requires Parse(r.buf, r.writePos, r.writePos) == Some([]) && now < 0x1_0000_0000_0000_0000
    ensures var (r', seqNo) := Append(r, 64, 1, [b], now);
            && seqNo == r.nextSeq && r'.writePos == r.writePos + 32 && r'.nextSeq == r.nextSeq + 1
            && r'.confirmedPos == 0 && r'.readPos == r.readPos && Shape(r') && Accounted(r')
            && Parse(r'.buf, r.writePos, r'.writePos) == Some([EntryCell(seqNo, 1, [b], now)])
  {
    hide Publish, Wrap, CellAt, Append, EntryCell, Parse;
    assert EntrySize(1) == 32;
    AppendInPlace(r, 64, 1, [b], now);
    AppendParses(r, 64, 1, [b], now, r.writePos);
    AppendAccounts(r, 64, 1, [b], now);
    AppendKeepsWindow(r, 64, 1, [b], now);
    PublishCursors(r, 1, [b], now);
    var c := EntryCell(r.nextSeq, 1, [b], now);
    assert [] + [] + [c] == [c];
  }

  /**
   * A byte 5 is stored and damaged to 4: neither reader delivers it. A byte 7 stored afterwards is what
   * ReadNext delivers.
   */
  method DamagedByte(now: nat) returns (stored: nat, unconfirmed: seq<Cell>, ok: bool, next: bool, data: seq<bv8>)
    requires now < 0x1_0000_0000_0000_0000
    ensures stored == 1 && unconfirmed == [] && !ok && next && data == [7]
  {
    hide CellAt, EntrySize, Parse, Append, Through, Sealed, SealedOf, Unsealed, Length, EntryCell;
    var ring := new ShmRing.ShmRing(64, 64);
    ParseNothing(ring.buffer[..], 0);
    ByteAppended(ring.Model(), 5, now);
    stored := ring.Append(1, [5], now);
    AloneSealed(1, 5, now);
    Damage(ring, 0, 0, 0, 0, [4]);
    unconfirmed := ring.ReadUnconfirmed(8);
    var entry;
    ok, entry, data := ring.ReadNext(8);
    ParseNothing(ring.buffer[..], 32);
    ByteAppended(ring.Model(), 7, now);
    var second := ring.Append(1, [7], now);
    AloneSealed(2, 7, now);
    next, entry, data := ring.ReadNext(8);
  }

  lemma ParseNothing(buf: seq<bv8>, pos: nat)
    requires |buf| > 0
    ensures Parse(buf, pos, pos) == Some([])
  {
  }

  lemma AloneSealed(seqNo: nat, b: bv8, now: nat)
    requires seqNo != 0
    ensures var c := EntryCell(seqNo, 1, [b], now);
            && c.data == [b] && SealedOf([c]) == [c] && Length([c][..0]) == 0
            && SealedOf([c][..0]) == SealedOf([c][1..]) == []
            && (b == 5 ==> Damages(c, 0, [4]))
  {
    hide Crc32.Checksum, EntrySize, SealedOf;
    var c := EntryCell(seqNo, 1, [b], now);
    EntryIsSealed(seqNo, 1, [b], now);
    SealedOne(c);
    NoneOfNothing();
    assert [c][..0] == [] && [c][1..] == [];
    assert c.data[..1] == [b] && c.data[..1][0] == b;
  }
}
