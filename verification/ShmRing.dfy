/** The ring with its byte buffer and cursors, operation by operation. */
module ShmRing {
  import opened Common
  import Crc32
  import opened WalEntry
  import opened RingSpec
  import opened RingLemmas
  import opened RingReaders

  class ShmRing {
    const maxEntrySize: nat
    const buffer: array<bv8>
    var writePos: nat
    var readPos: nat
    var confirmedPos: nat
    var nextSeq: nat
    var totalEntries: nat
    var totalBytes: nat
    var wrapCount: nat

    ghost function Model(): Ring
      reads this, buffer
    {
      Ring(buffer[..], writePos, readPos, confirmedPos, nextSeq, totalEntries, totalBytes, wrapCount)
    }

    /** A reader starting at pos can decode everything up to the write position. */
    ghost predicate Readable(pos: nat)
      reads this, buffer
    {
      buffer.Length > 0 && Parse(buffer[..], pos, writePos).Some?
    }

    ghost function Cells(pos: nat): seq<Cell>
      requires Readable(pos)
      reads this, buffer
    {
      Parse(buffer[..], pos, writePos).value
    }

    constructor (bufferSize: nat, maxEntrySize: nat)
      requires bufferSize > 0 && bufferSize % 8 == 0
      ensures this.maxEntrySize == maxEntrySize && fresh(buffer)
      ensures Model() == Ring(seq(bufferSize, _ => 0), 0, 0, 0, 1, 0, 0, 0)
    {
      this.maxEntrySize := maxEntrySize;
      buffer := new bv8[bufferSize](_ => 0);
      writePos, readPos, confirmedPos, nextSeq := 0, 0, 0, 1;
      totalEntries, totalBytes, wrapCount := 0, 0, 0;
      new;
      assert buffer[..] == seq(bufferSize, _ => 0);
    }

    method Reset()
      modifies this, buffer
      ensures Model() == Ring(seq(buffer.Length, _ => 0), 0, 0, 0, 1, 0, 0, 0)
    {
      writePos, readPos, confirmedPos, nextSeq := 0, 0, 0, 1;
      totalEntries, totalBytes, wrapCount := 0, 0, 0;
      forall i | 0 <= i < buffer.Length {
        buffer[i] := 0;
      }
      assert buffer[..] == seq(buffer.Length, _ => 0);
    }

    method CopyIn(off: nat, bytes: seq<bv8>)
      requires off + |bytes| <= buffer.Length
      modifies buffer
      ensures buffer[..] == Poke(old(buffer[..]), off, bytes)
    {
      for i := 0 to |bytes|
        invariant buffer[..off] == old(buffer[..off])
        invariant buffer[off..off + i] == bytes[..i]
        invariant buffer[off + i..] == old(buffer[off + i..])
      {
        buffer[off + i] := bytes[i];
      }
      assert buffer[..] == buffer[..off] + buffer[off..off + |bytes|] + buffer[off + |bytes|..];
    }

    method Append(kind: nat, data: seq<bv8>, now: nat) returns (seqNo: nat)
      requires Bounded(Model()) && |data| < 0x1_0000
      modifies this, buffer
      ensures (Model(), seqNo) == RingSpec.Append(old(Model()), maxEntrySize, kind, data, now)
      decreases confirmedPos + buffer.Length - writePos
    {
      hide Encode, EntrySize, RingSpec.Append;
      AppendOnce(Model(), maxEntrySize, kind, data, now);
      FullExactly(Model(), maxEntrySize, |data|);
      var entrySize := EntrySize(|data|);
      if entrySize > maxEntrySize {
        return 0;
      }
      var used := Diff64(writePos, confirmedPos);
      if (used + entrySize) % WORD > buffer.Length {
        return 0;
      }
      var off := writePos % buffer.Length;
      ghost var before := Model();
      seqNo := nextSeq;
      nextSeq := nextSeq + 1;
      if off + entrySize > buffer.Length {
        WrapBounded(before, |data|);
        var remaining := buffer.Length - off;
        if remaining >= HEADER_SIZE {
          CopyIn(off, Encode(SkipHeader(remaining)));
        }
        writePos := writePos + remaining;
        wrapCount := wrapCount + 1;
        assert Model() == Wrap(before);
        seqNo := Append(kind, data, now);
        return;
      }
      WriteEntry(off, seqNo, kind, data, now);
      writePos := writePos + entrySize;
      totalEntries := totalEntries + 1;
      totalBytes := totalBytes + entrySize;
      assert Model() == Publish(before, kind, data, now);
    }

    /** The cases of the ring function. */
    lemma AppendOnce(r: Ring, maxEntry: nat, kind: nat, data: seq<bv8>, now: nat)
      requires Bounded(r) && |data| < 0x1_0000
      ensures Full(r, maxEntry, |data|) ==> RingSpec.Append(r, maxEntry, kind, data, now) == (r, 0)
      ensures !Full(r, maxEntry, |data|) && !NeedsWrap(r, |data|) ==>
                RingSpec.Append(r, maxEntry, kind, data, now) == (Publish(r, kind, data, now), r.nextSeq)
      ensures !Full(r, maxEntry, |data|) && NeedsWrap(r, |data|) ==>
                && Bounded(Wrap(r))
                && RingSpec.Append(r, maxEntry, kind, data, now) == RingSpec.Append(Wrap(r), maxEntry, kind, data, now)
    {
      hide EntrySize, Full, Publish, Wrap;
      FullExactly(r, maxEntry, |data|);
      if !Full(r, maxEntry, |data|) && NeedsWrap(r, |data|) {
        WrapBounded(r, |data|);
      }
    }

    /** Header fields, then the data, then the checksum of the data as it stands in the buffer. */
    method WriteEntry(off: nat, seqNo: nat, kind: nat, data: seq<bv8>, now: nat)
      requires off + HEADER_SIZE + |data| <= buffer.Length
      modifies buffer
      ensures buffer[..] == Poke(old(buffer[..]), off, EntryBytes(seqNo, now, kind, data))
    {
      hide Crc32.Checksum;
      var fields := Encode(Header(seqNo, now, kind, |data|, 0))[..20];
      CopyIn(off, fields);
      ghost var b1 := buffer[..];
      CopyIn(off + HEADER_SIZE, data);
      ghost var b2 := buffer[..];
      assert buffer[off + HEADER_SIZE..off + HEADER_SIZE + |data|] == data;
      var crc: bv32 := 0;
      if |data| > 0 {
        crc := Crc32.Calc(buffer[off + HEADER_SIZE..off + HEADER_SIZE + |data|]);
      }
      CopyIn(off + 20, CrcBytes(crc));
      StoredInParts(old(buffer[..]), off, seqNo, kind, data, now);
    }

    lemma StoredInParts(buf: seq<bv8>, off: nat, seqNo: nat, kind: nat, data: seq<bv8>, now: nat)
      requires off + HEADER_SIZE + |data| <= |buf|
      ensures var fields := Encode(Header(seqNo, now, kind, |data|, 0))[..20];
              var b1 := Poke(buf, off, fields);
              var b2 := Poke(b1, off + HEADER_SIZE, data);
              Poke(b2, off + 20, CrcBytes(StoredCrc(data))) ==
              Poke(buf, off, EntryBytes(seqNo, now, kind, data))
    {
      hide StoredCrc, CrcBytes;
      var crc := StoredCrc(data);
      var fields := Encode(Header(seqNo, now, kind, |data|, 0))[..20];
      assert Encode(Header(seqNo, now, kind, |data|, crc)) == fields + CrcBytes(crc);
    }

    /** The header and data a reader finds at pos. */
    method Look(pos: nat) returns (c: Cell)
      requires Readable(pos) && pos < writePos
      ensures Cells(pos) != [] && c == Cells(pos)[0]
      ensures |c.data| == c.hdr.dataLen
      ensures Parse(buffer[..], pos + c.Size(), writePos) == Some(Cells(pos)[1..])
      ensures pos + c.Size() <= writePos && c.Size() > 0
    {
      hide EntrySize;
      var off := pos % buffer.Length;
      var hdr := Decode(buffer[off..off + HEADER_SIZE]);
      assert buffer[off..off + HEADER_SIZE] == buffer[..][off..off + HEADER_SIZE];
      c := Cell(hdr, buffer[off + HEADER_SIZE..off + HEADER_SIZE + hdr.dataLen]);
      assert buffer[off + HEADER_SIZE..off + HEADER_SIZE + hdr.dataLen]
          == buffer[..][off + HEADER_SIZE..off + HEADER_SIZE + hdr.dataLen];
      SizePositive(c);
      ParseBound(buffer[..], pos + c.Size(), writePos);
    }

    /**
     * Delivers the first cell from the read position on that has a number, a type and the checksum of
     * its data, and cuts the data to the caller's room; every cell passed over lacks one of these. The
     * cells behind it remain.
     */
    method ReadNext(maxLen: nat) returns (ok: bool, entry: Header, data: seq<bv8>)
      requires Readable(readPos)
      modifies this`readPos
      ensures var cells := old(Cells(readPos));
              var n, es := Through(cells), SealedOf(cells);
              && readPos == old(readPos) + Length(cells[..n])
              && Readable(readPos)
              && (forall i :: 0 <= i < n - 1 ==> !Sealed(cells[i]))
              && (!ok ==> forall i :: 0 <= i < |cells| ==> !Sealed(cells[i]))
              && (ok <==> es != [])
              && (ok ==> entry == es[0].hdr && SealedOf(Cells(readPos)) == es[1..]
                         && data == es[0].data[..if maxLen < |es[0].data| then maxLen else |es[0].data|])
              && (ok ==> n > 0 && Sealed(cells[n - 1])
                         && var c := cells[n - 1];
                            entry == c.hdr && data == c.data[..if maxLen < |c.data| then maxLen else |c.data|])
              && (!ok ==> readPos == writePos)
    {
      hide EntrySize, ValidateCrc, Parse, Entries, Through, Length, Sealed, SealedOf;
      ghost var cells := Cells(readPos);
      ok, entry, data := NextEntry(maxLen);
      EntriesSealed(cells);
      EntriesSealed(Cells(readPos));
      ThroughSealed(cells);
      ThroughFirst(cells);
      SealedMembers(cells);
      if !ok {
        NoneSealed(cells);
      }
    }

    lemma NoneSealed(cells: seq<Cell>)
      requires SealedOf(cells) == []
      ensures forall i :: 0 <= i < |cells| ==> !Sealed(cells[i])
    {
      hide Sealed, SealedOf;
      SealedMembers(cells);
      forall i | 0 <= i < |cells| ensures !Sealed(cells[i]) {
        assert cells[i] in cells;
      }
    }

    /** The recursion of ReadNext. */
    method NextEntry(maxLen: nat) returns (ok: bool, entry: Header, data: seq<bv8>)
      requires Readable(readPos)
      modifies this`readPos
      ensures var cells := old(Cells(readPos));
              var es := Entries(cells);
              && readPos == old(readPos) + Length(cells[..Through(cells)])
              && Readable(readPos)
              && (ok <==> es != [])
              && (ok ==> entry == es[0].hdr && Entries(Cells(readPos)) == es[1..]
                         && data == es[0].data[..if maxLen < |es[0].data| then maxLen else |es[0].data|])
              && (!ok ==> readPos == writePos)
      decreases writePos - readPos
    {
      hide EntrySize, ValidateCrc, Parse, Entries, Through, Length;
      ghost var cells := Cells(readPos);
      entry, data := Header(0, 0, 0, 0, 0), [];
      ok := false;
      if readPos >= writePos {
        ParseEnd(buffer[..], readPos, writePos);
        NothingLeft();
        return;
      }
      var c := Look(readPos);
      if c.hdr.seqNo == 0 || c.hdr.kind == 0 {
        PassedOne(cells);
        readPos := readPos + c.Size();
        ok, entry, data := NextEntry(maxLen);
        return;
      }
      if !ValidateCrc(c.hdr, c.data) {
        PassedOne(cells);
        readPos := readPos + c.Size();
        ok, entry, data := NextEntry(maxLen);
        return;
      }
      DeliveredOne(cells);
      entry := c.hdr;
      data := c.data[..if |c.data| < maxLen then |c.data| else maxLen];
      readPos := readPos + c.Size();
      ok := true;
    }

    lemma NothingLeft()
      ensures Entries([]) == [] && Through([]) == 0 && Length([]) == 0
    {
    }

    lemma PassedOne(cells: seq<Cell>)
      requires cells != [] && !cells[0].IsEntry()
      ensures Entries(cells) == Entries(cells[1..])
      ensures Length(cells[..Through(cells)]) == cells[0].Size() + Length(cells[1..][..Through(cells[1..])])
    {
      hide EntrySize, ValidateCrc;
      var n := Through(cells[1..]);
      assert cells[..n + 1][1..] == cells[1..][..n];
    }

    lemma DeliveredOne(cells: seq<Cell>)
      requires cells != [] && cells[0].IsEntry()
      ensures Entries(cells) == [cells[0]] + Entries(cells[1..])
      ensures Length(cells[..Through(cells)]) == cells[0].Size()
    {
      hide EntrySize, ValidateCrc;
      assert cells[..1][1..] == [];
    }

    /** The first cells of the unconfirmed window that have a number, a type and the checksum of their data. */
    method ReadUnconfirmed(maxCount: nat) returns (entries: seq<Cell>)
      requires Readable(confirmedPos)
      ensures var es := SealedOf(Cells(confirmedPos));
              entries == es[..if maxCount < |es| then maxCount else |es|]
      ensures forall c :: c in entries ==>
                && c in Cells(confirmedPos) && c.hdr.seqNo != 0 && c.hdr.kind != 0 && |c.data| == c.hdr.dataLen
                && c.hdr.crc == if c.data == [] then 0 else Crc32.Checksum(c.data)
    {
      hide EntrySize, Entries, Parse, SealedOf, Crc32.Checksum;
      entries := FirstEntries(maxCount);
      EntriesSealed(Cells(confirmedPos));
      SealedMembers(Cells(confirmedPos));
      forall c | c in entries ensures c in Cells(confirmedPos) && Sealed(c) {
        assert c in SealedOf(Cells(confirmedPos));
      }
    }

    /** The loop of ReadUnconfirmed. */
    method FirstEntries(maxCount: nat) returns (entries: seq<Cell>)
      requires Readable(confirmedPos)
      ensures var es := Entries(Cells(confirmedPos));
              entries == es[..if maxCount < |es| then maxCount else |es|]
    {
      hide EntrySize, ValidateCrc, CellAt;
      entries := [];
      var pos := confirmedPos;
      ghost var cells, i := Cells(confirmedPos), 0;
      assert cells[0..] == cells;
      while pos < writePos && |entries| < maxCount
        invariant 0 <= i <= |cells| && Readable(pos) && Cells(pos) == cells[i..]
        invariant entries == Entries(cells[..i]) && |entries| <= maxCount
        decreases writePos - pos
      {
        var c := Look(pos);
        assert cells[..i + 1] == cells[..i] + [c];
        EntriesConcat(cells[..i], [c]);
        EntriesOne(c);
        if c.hdr.seqNo == 0 || c.hdr.kind == 0 {
        } else if !ValidateCrc(c.hdr, c.data) {
        } else {
          entries := entries + [c];
        }
        pos := pos + c.Size();
        i := i + 1;
      }
      ParseBound(buffer[..], pos, writePos);
      assert cells == cells[..i] + cells[i..];
      EntriesConcat(cells[..i], cells[i..]);
    }

    /**
     * Moves the confirmed position past the entry with number s. Readers of unconfirmed entries
     * then find exactly the entries numbered above s; a number not in the window changes nothing.
     */
    method Confirm(s: nat)
      requires Readable(confirmedPos)
      modifies this`confirmedPos
      ensures var cells := old(Cells(confirmedPos));
              var n := Confirmed(cells, s);
              && confirmedPos == old(confirmedPos) + Length(cells[..n])
              && confirmedPos <= writePos
              && Readable(confirmedPos) && Cells(confirmedPos) == cells[n..]
              && (s >= 1 && Ordered(cells, nextSeq) ==>
                    Entries(Cells(confirmedPos)) ==
                    if Occurs(cells, s) then After(Entries(cells), s) else Entries(cells))
    {
      hide EntrySize, Parse, Entries, After, Confirmed, Length, Ordered;
      var pos := confirmedPos;
      ghost var cells, i := Cells(confirmedPos), 0;
      assert cells[0..] == cells && cells[..0] == [];
      ConfirmOutcome(cells, s);
      assert UndecidedBefore(cells, 0, s);
      while pos < writePos
        invariant 0 <= i <= |cells| && Readable(pos) && Cells(pos) == cells[i..]
        invariant pos == confirmedPos + Length(cells[..i])
        invariant UndecidedBefore(cells, i, s)
        invariant confirmedPos == old(confirmedPos)
        decreases writePos - pos
      {
        var c := Look(pos);
        assert cells[i..][1..] == cells[i + 1..];
        LengthStep(cells, i);
        ConfirmedStep(cells, i, s);
        if c.hdr.seqNo == s {
          confirmedPos := pos + c.Size();
          return;
        }
        if c.hdr.seqNo > s {
          return;
        }
        pos := pos + c.Size();
        i := i + 1;
      }
      ParseEnd(buffer[..], pos, writePos);
      ConfirmedNothing(s);
    }

    lemma ConfirmOutcome(cells: seq<Cell>, s: nat)
      requires Readable(confirmedPos) && cells == Cells(confirmedPos)
      ensures Length(cells[..0]) == 0 && cells[0..] == cells && confirmedPos <= writePos
      ensures s >= 1 && Ordered(cells, nextSeq) ==>
                Entries(cells[Confirmed(cells, s)..]) ==
                if Occurs(cells, s) then After(Entries(cells), s) else Entries(cells)
    {
      hide EntrySize, Entries, After, Confirmed, Ordered;
      ParseBound(buffer[..], confirmedPos, writePos);
      if s >= 1 && Ordered(cells, nextSeq) {
        ConfirmLeaves(cells, s, nextSeq);
      }
    }

    lemma ConfirmedNothing(s: nat)
      ensures Confirmed([], s) == 0
    {
    }

    lemma ParseEnd(buf: seq<bv8>, pos: nat, end: nat)
      requires |buf| > 0 && Parse(buf, pos, end).Some? && pos >= end
      ensures pos == end && Parse(buf, pos, end) == Some([])
    {
    }

    lemma LengthStep(cells: seq<Cell>, i: nat)
      requires i < |cells|
      ensures Length(cells[..i + 1]) == Length(cells[..i]) + cells[i].Size()
    {
      hide EntrySize;
      assert cells[..i + 1] == cells[..i] + [cells[i]];
      LengthConcat(cells[..i], [cells[i]]);
      assert [cells[i]][1..] == [];
    }

    /** Moves the confirmed position past the first k entries. */
    method ConfirmBatch(k: nat)
      requires Readable(confirmedPos)
      modifies this`confirmedPos
      ensures var cells := old(Cells(confirmedPos));
              var n := Batch(cells, k);
              && confirmedPos == old(confirmedPos) + Length(cells[..n])
              && confirmedPos <= writePos
              && Readable(confirmedPos) && Cells(confirmedPos) == cells[n..]
              && (Sound(cells) ==>
                    var es := Entries(cells);
                    Entries(Cells(confirmedPos)) == es[if k < |es| then k else |es|..])
    {
      hide EntrySize, Parse, Entries, Batch, Length, Sound;
      ghost var cells, i := Cells(confirmedPos), 0;
      assert cells[0..] == cells && cells[..0] == [];
      BatchOutcome(cells, k);
      if k == 0 {
        return;
      }
      var pos := confirmedPos;
      var confirmed := 0;
      while pos < writePos && confirmed < k
        invariant 0 <= i <= |cells| && Readable(pos) && Cells(pos) == cells[i..]
        invariant pos == confirmedPos + Length(cells[..i]) && pos <= writePos
        invariant confirmed <= k && confirmedPos == old(confirmedPos)
        invariant Batch(cells, k) == i + Batch(cells[i..], k - confirmed)
        decreases writePos - pos
      {
        var c := Look(pos);
        assert cells[i..][1..] == cells[i + 1..];
        LengthStep(cells, i);
        BatchStep(cells, i, k - confirmed);
        if c.hdr.seqNo != 0 && c.hdr.kind != 0 {
          confirmed := confirmed + 1;
        }
        pos := pos + c.Size();
        i := i + 1;
      }
      if pos >= writePos {
        ParseEnd(buffer[..], pos, writePos);
      }
      BatchNothing(cells[i..], k - confirmed);
      confirmedPos := pos;
    }

    lemma BatchOutcome(cells: seq<Cell>, k: nat)
      requires Readable(confirmedPos) && cells == Cells(confirmedPos)
      ensures Length(cells[..0]) == 0 && cells[0..] == cells && confirmedPos <= writePos
      ensures Batch(cells, 0) == 0
      ensures Sound(cells) ==>
                var es := Entries(cells);
                Entries(cells[Batch(cells, k)..]) == es[if k < |es| then k else |es|..]
    {
      hide EntrySize, Entries, Sound;
      ParseBound(buffer[..], confirmedPos, writePos);
      if Sound(cells) {
        BatchDrops(cells, k);
      }
    }

    lemma BatchNothing(cells: seq<Cell>, k: nat)
      requires cells == [] || k == 0
      ensures Batch(cells, k) == 0
    {
    }
  }
}
