/** The operations of the ring as runs of the protocol, and runs in which it goes wrong. */
module RingSteps {
  import opened Common
  import Positions
  import opened WalEntry
  import opened RingSpec
  import opened RingLemmas
  import opened RingReaders
  import opened RingProtocol
  import opened RingSafety
  import opened RingRuns

  /** The run leads from s to t. */
  ghost predicate Leads(run: seq<System>, s: System, t: System) {
    Steps(run) && run != [] && run[0] == s && run[|run| - 1] == t
  }

  lemma Join(a: seq<System>, b: seq<System>, s: System, t: System, u: System) returns (run: seq<System>)
    requires Leads(a, s, t) && Leads(b, t, u)
    ensures Leads(run, s, u)
  {
    hide Next;
    run := a + b[1..];
    forall i | 0 <= i < |run| - 1 ensures Next(run[i], run[i + 1]) {
      if i < |a| - 1 {
        assert Next(a[i], a[i + 1]);
      } else {
        assert run[i] == b[i - (|a| - 1)] && run[i + 1] == b[i + 1 - (|a| - 1)];
        assert Next(b[i - (|a| - 1)], b[i + 1 - (|a| - 1)]);
      }
    }
  }

  lemma Nothing(s: System) returns (run: seq<System>)
    ensures Leads(run, s, s)
  {
    run := [s];
  }

  lemma One(s: System, t: System, step: Step) returns (run: seq<System>)
    requires |s.r.buf| > 0 && NextStep(s, t, step)
    ensures Leads(run, s, t) && run == [s, t]
  {
    hide NextStep;
    assert Next(s, t);
    run := [s, t];
  }

  lemma {:induction false} CoreRun(run: seq<System>, s: System, t: System)
    requires Leads(run, s, t) && CoreInv(s)
    ensures CoreInv(t)
  {
    hide CoreInv, NextStep;
    var n := |run| - 1;
    if n == 0 {
    } else {
      CoreRun(run[..n], s, run[n - 1]);
      assert Next(run[n - 1], t);
      var step :| NextStep(run[n - 1], t, step);
      CoreKept(run[n - 1], t, step);
    }
  }

  // ---------------------------------------------------------------- Append

  lemma PokeOutside(buf: seq<bv8>, off: nat, bytes: seq<bv8>, len: nat)
    requires off + |bytes| <= |buf| && |bytes| <= len
    ensures Outside(buf, Poke(buf, off, bytes), off, len)
  {
  }

  /** The state in which the entry of the writing producer is published. */
  function Published(s: System): System
    requires |s.r.buf| > 0 && s.producer.Writing? && !NeedsWrap(s.r, |s.producer.data|)
  {
    var Writing(kind, data, now, seqNo) := s.producer;
    s.(r := Publish(s.r.(nextSeq := seqNo), kind, data, now), producer := Idle,
       appended := s.appended + [EntryCell(seqNo, kind, data, now)], returned := s.returned + [seqNo])
  }

  /** Storing all the bytes, publishing them and counting, from Writing on. */
  lemma WritingAsSteps(s: System) returns (run: seq<System>)
    requires CoreInv(s) && s.producer.Writing?
    ensures Leads(run, s, Published(s))
  {
    hide Parse, EntrySize, EntryBytes, Entries, Logged, Handed, EntryCell, Representable, Leads;
    var Writing(kind, data, now, seqNo) := s.producer;
    var bytes := EntryBytes(seqNo, now, kind, data);
    var off := Offset(s.r);
    var t := s.(r := s.r.(buf := Poke(s.r.buf, off, bytes)));
    PokeSlice(s.r.buf, off, bytes);
    PokeOutside(s.r.buf, off, bytes, EntrySize(|data|));
    hide Poke, Outside;
    var first := One(s, t, Scribble);
    var tail := StoredAsSteps(s, t);
    run := Join(first, tail, s, t, Published(s));
  }

  /** With all bytes in place, the entry is published and counted. */
  lemma StoredAsSteps(s: System, t: System) returns (run: seq<System>)
    requires |s.r.buf| > 0 && s.producer.Writing? && ProducerInv(s.r, s.producer)
    requires var bytes := EntryBytes(s.producer.seqNo, s.producer.now, s.producer.kind, s.producer.data);
             t == s.(r := s.r.(buf := Poke(s.r.buf, Offset(s.r), bytes)))
    ensures Leads(run, t, Published(s))
  {
    hide Poke, EntryBytes, EntrySize, EntryCell, Representable, Leads, Parse, Entries, Full, Outside, Wanted, CellOf,
         Encode;
    var Writing(kind, data, now, seqNo) := s.producer;
    PokeSlice(s.r.buf, Offset(s.r), EntryBytes(seqNo, now, kind, data));
    var u := t.(r := t.r.(writePos := s.r.writePos + EntrySize(|data|)), producer := Counting(EntrySize(|data|), seqNo),
                appended := s.appended + [EntryCell(seqNo, kind, data, now)]);
    var first := One(t, u, EntryDone);
    var tail := One(u, Published(s), EntryCounted);
    run := Join(first, tail, t, u, Published(s));
  }

  lemma MarkerAsStep(s: System) returns (s': System, run: seq<System>)
    requires CoreInv(s) && s.producer.Marking? && |s.r.buf| - Offset(s.r) >= HEADER_SIZE
    ensures Leads(run, s, s') && CoreInv(s') && s' == s.(r := s.r.(buf := s'.r.buf))
    ensures s'.r.buf == Poke(s.r.buf, Offset(s.r), Encode(SkipHeader(|s.r.buf| - Offset(s.r))))
  {
    hide Parse, EntrySize, EntryBytes, Entries, Encode, ProducerInv, Poke, Outside, Logged, Handed;
    var off := Offset(s.r);
    var bytes := Encode(SkipHeader(|s.r.buf| - off));
    s' := s.(r := s.r.(buf := Poke(s.r.buf, off, bytes)));
    PokeOutside(s.r.buf, off, bytes, HEADER_SIZE);
    run := One(s, s', Scribble);
    CoreKept(s, s', Scribble);
  }

  /** The state in which the wrap of the marking producer is published and counted. */
  function WrapDone(s: System): System
    requires |s.r.buf| > 0 && s.producer.Marking? && s.r.nextSeq > 0
  {
    s.(r := Wrap(s.r.(nextSeq := s.r.nextSeq - 1)),
       producer := Retrying(s.producer.kind, s.producer.data, s.producer.now),
       unmarked := s.unmarked || |s.r.buf| - Offset(s.r) < HEADER_SIZE)
  }

  /** Storing the marker, when there is room for one, publishing the wrap and counting it. */
  lemma WrapAsSteps(s: System) returns (run: seq<System>)
    requires CoreInv(s) && s.producer.Marking? && s.r.nextSeq > 0
    ensures Leads(run, s, WrapDone(s)) && CoreInv(WrapDone(s))
  {
    hide Parse, EntrySize, EntryBytes, Entries, Encode, Logged, Handed, Representable, Outside, NeedsWrap,
         ProducerInv, WrapDone, Leads;
    var remaining := |s.r.buf| - Offset(s.r);
    if remaining >= HEADER_SIZE {
      var t, first := MarkerAsStep(s);
      PokeSlice(s.r.buf, Offset(s.r), Encode(SkipHeader(remaining)));
      var tail := WrapPublished(s, t);
      run := Join(first, tail, s, t, WrapDone(s));
    } else {
      run := WrapPublished(s, s);
    }
    hide CoreInv;
    CoreRun(run, s, WrapDone(s));
  }

  /** With the marker in place, where there is room for one, the wrap can be published and counted. */
  lemma WrapPublished(s: System, t: System) returns (run: seq<System>)
    requires |s.r.buf| > 0 && s.producer.Marking? && s.r.nextSeq > 0 && t == s.(r := s.r.(buf := t.r.buf))
    requires var off := Offset(s.r); var remaining := |s.r.buf| - off;
             t.r.buf == if remaining >= HEADER_SIZE then Poke(s.r.buf, off, Encode(SkipHeader(remaining))) else s.r.buf
    ensures Leads(run, t, WrapDone(s))
  {
    hide Encode, Poke, EntrySize, Parse, EntryBytes, Outside, Representable, Full, Entries, Wanted, CellOf,
         NeedsWrap, Leads, Take, SkipHeader, WrapDone;
    var off := Offset(s.r);
    var remaining := |s.r.buf| - off;
    if remaining >= HEADER_SIZE {
      PokeSlice(s.r.buf, off, Encode(SkipHeader(remaining)));
    }
    var w := t.(r := t.r.(writePos := s.r.writePos + remaining),
                producer := Wrapped(s.producer.kind, s.producer.data, s.producer.now),
                unmarked := s.unmarked || remaining < HEADER_SIZE);
    var first := One(t, w, MarkerDone);
    var tail := WrapCountedAsStep(s, t, w);
    run := Join(first, tail, t, w, WrapDone(s));
  }

  lemma WrapCountedAsStep(s: System, t: System, w: System) returns (run: seq<System>)
    requires |s.r.buf| > 0 && s.producer.Marking? && s.r.nextSeq > 0 && t == s.(r := s.r.(buf := t.r.buf))
    requires var off := Offset(s.r); var remaining := |s.r.buf| - off;
             && t.r.buf == (if remaining >= HEADER_SIZE then Poke(s.r.buf, off, Encode(SkipHeader(remaining))) else s.r.buf)
             && w == t.(r := t.r.(writePos := s.r.writePos + remaining),
                        producer := Wrapped(s.producer.kind, s.producer.data, s.producer.now),
                        unmarked := s.unmarked || remaining < HEADER_SIZE)
    ensures Leads(run, w, WrapDone(s))
  {
    hide Encode, Poke, EntrySize, Parse, EntryBytes, Outside, Representable, Full, Entries, Wanted, CellOf,
         NeedsWrap, Leads, Take, SkipHeader;
    run := One(w, WrapDone(s), WrapCounted);
  }

  /** The place taken ends more than one buffer behind the read position. */
  ghost predicate Laps(r: Ring, len: nat)
    requires |r.buf| > 0
  {
    PlaceEnd(r, len) > r.readPos + |r.buf|
  }

  /** The state in which a number is taken and the place is picked. */
  ghost function Taken(s: System, kind: nat, data: seq<bv8>, now: nat): System
    requires |s.r.buf| > 0
  {
    s.(r := s.r.(nextSeq := s.r.nextSeq + 1),
       producer := if NeedsWrap(s.r, |data|) then Marking(kind, data, now) else Writing(kind, data, now, s.r.nextSeq),
       lapped := s.lapped || Laps(s.r, |data|))
  }

  /** What an undisturbed Append leaves. */
  ghost function Appended(s: System, kind: nat, data: seq<bv8>, now: nat): System
    requires Shape(s.r) && |data| < 0x1_0000
  {
    var (r', seqNo) := Append(s.r, s.maxEntry, kind, data, now);
    s.(r := r', producer := Idle,
       appended := s.appended + (if seqNo == 0 then [] else [EntryCell(seqNo, kind, data, now)]),
       returned := s.returned + (if seqNo == 0 then [] else [seqNo]),
       unmarked := s.unmarked || WrapsUnmarked(s.r, s.maxEntry, |data|),
       lapped := || s.lapped
                 || (!Rejects(s.r, s.maxEntry, |data|) && Laps(s.r, |data|))
                 || (Wraps(s.r, s.maxEntry, |data|) && !Rejects(Wrap(s.r), s.maxEntry, |data|) && Laps(Wrap(s.r), |data|)))
  }

  /** The state after an Append that does not wrap, or after the retry behind a wrap. */
  ghost function Placed(s: System, kind: nat, data: seq<bv8>, now: nat): System
    requires Shape(s.r) && (Rejects(s.r, s.maxEntry, |data|) || !NeedsWrap(s.r, |data|))
  {
    if Rejects(s.r, s.maxEntry, |data|) then s.(producer := Idle)
    else s.(r := Publish(s.r, kind, data, now), producer := Idle,
            appended := s.appended + [EntryCell(s.r.nextSeq, kind, data, now)],
            returned := s.returned + [s.r.nextSeq],
            lapped := s.lapped || Laps(s.r, |data|))
  }

  /** The second half, from the first position on or after a wrap: rejected, or written without a wrap. */
  lemma PlacedAsSteps(s: System, kind: nat, data: seq<bv8>, now: nat, step: Step) returns (run: seq<System>)
    requires CoreInv(s) && Shape(s.r) && Representable(s.r.nextSeq + 1, kind, data, now) && s.r.nextSeq > 0
    requires (s.producer == Idle && step == Begin(kind, data, now)) || (s.producer == Retrying(kind, data, now) && step == Retry)
    requires Rejects(s.r, s.maxEntry, |data|) || !NeedsWrap(s.r, |data|)
    ensures Leads(run, s, Placed(s, kind, data, now))
  {
    hide Parse, EntrySize, EntryBytes, Entries, Encode, Publish, Logged, Handed, EntryCell, Full, Rejects,
         ProducerInv, PlaceEnd, Leads;
    FullIsRejects(s.r, s.maxEntry, |data|);
    if Rejects(s.r, s.maxEntry, |data|) {
      run := One(s, s.(producer := Idle), step);
    } else {
      var t := Taken(s, kind, data, now);
      var first := One(s, t, step);
      CoreKept(s, t, step);
      var tail := WritingAsSteps(t);
      assert t.r.(nextSeq := s.r.nextSeq) == s.r;
      run := Join(first, tail, s, t, Published(t));
    }
  }

  /** An undisturbed Append takes the protocol from a quiescent state to the state its contract names. */
  lemma AppendAsSteps(s: System, kind: nat, data: seq<bv8>, now: nat) returns (run: seq<System>)
    requires CoreInv(s) && !s.overrun && s.producer == Idle
    requires Representable(s.r.nextSeq + 2, kind, data, now)
    ensures Shape(s.r) && |data| < 0x1_0000
    ensures Leads(run, s, Appended(s, kind, data, now))
  {
    hide Parse, EntrySize, EntryBytes, Entries, Encode, Publish, Logged, Handed, EntryCell, Full, Rejects,
         ProducerInv, Wrap, WORD, Append, Laps, Leads;
    AppendInPlace(s.r, s.maxEntry, kind, data, now);
    ShapeOf(s);
    FirstNumber(s);
    if Rejects(s.r, s.maxEntry, |data|) || !NeedsWrap(s.r, |data|) {
      run := PlacedAsSteps(s, kind, data, now, Begin(kind, data, now));
      if Rejects(s.r, s.maxEntry, |data|) {
        assert s.appended + [] == s.appended && s.returned + [] == s.returned;
      }
    } else {
      run := WrappedAppend(s, kind, data, now);
    }
  }

  lemma FirstNumber(s: System)
    requires CoreInv(s)
    ensures s.r.nextSeq > 0
  {
  }

  lemma AfterWrap(s: System, kind: nat, data: seq<bv8>, now: nat)
    requires CoreInv(s) && Shape(s.r) && |data| < 0x1_0000 && !Rejects(s.r, s.maxEntry, |data|) && NeedsWrap(s.r, |data|)
    ensures Shape(Wrap(s.r)) && Wrap(s.r).nextSeq == s.r.nextSeq + 1
    ensures Rejects(Wrap(s.r), s.maxEntry, |data|) || !NeedsWrap(Wrap(s.r), |data|)
    ensures Append(s.r, s.maxEntry, kind, data, now) ==
            if Rejects(Wrap(s.r), s.maxEntry, |data|) then (Wrap(s.r), 0)
            else (Publish(Wrap(s.r), kind, data, now), s.r.nextSeq + 1)
  {
    hide EntrySize, Wrap, Publish, Append, Logged, Handed, ProducerInv;
    WrapShape(s.r, |data|);
    WrapTotals(s.r);
    AppendInPlace(s.r, s.maxEntry, kind, data, now);
    AppendAtStart(Wrap(s.r), s.maxEntry, kind, data, now);
  }

  lemma WrappedAppend(s: System, kind: nat, data: seq<bv8>, now: nat) returns (run: seq<System>)
    requires CoreInv(s) && Shape(s.r) && !s.overrun && s.producer == Idle && s.r.nextSeq > 0
    requires Representable(s.r.nextSeq + 2, kind, data, now)
    requires !Rejects(s.r, s.maxEntry, |data|) && NeedsWrap(s.r, |data|)
    ensures Leads(run, s, Appended(s, kind, data, now))
  {
    hide Parse, EntrySize, EntryBytes, Entries, Encode, Publish, Logged, Handed, EntryCell, Full, Rejects,
         ProducerInv, Wrap, Append, NeedsWrap, PlaceEnd, Leads;
    AfterWrap(s, kind, data, now);
    FullIsRejects(s.r, s.maxEntry, |data|);
    var t := Taken(s, kind, data, now);
    var first := One(s, t, Begin(kind, data, now));
    CoreKept(s, t, Begin(kind, data, now));
    var middle := WrapAsSteps(t);
    var w := WrapDone(t);
    assert t.r.(nextSeq := t.r.nextSeq - 1) == s.r;
    var tail := PlacedAsSteps(w, kind, data, now, Retry);
    if Rejects(Wrap(s.r), s.maxEntry, |data|) {
      assert s.appended + [] == s.appended && s.returned + [] == s.returned;
    }
    var front := Join(first, middle, s, t, w);
    run := Join(front, tail, s, w, Placed(w, kind, data, now));
  }

  // ---------------------------------------------------------------- readers

  /** The state of a consumer that has copied k bytes of the cell at the read position. */
  function Copied(s: System, k: nat): System
    requires |s.r.buf| > 0 && s.r.readPos % |s.r.buf| + k <= |s.r.buf|
  {
    var off := s.r.readPos % |s.r.buf|;
    s.(consumer := Reading(s.r.writePos, s.r.buf[off..off + k]))
  }

  /** The bytes of a cell, copied one after the other. */
  lemma {:induction false} BytesAsSteps(s: System, c: Cell, k: nat) returns (run: seq<System>)
    requires |s.r.buf| > 0 && CellAt(s.r.buf, s.r.readPos % |s.r.buf|) == Some(c)
    requires s.consumer == Ready && s.r.readPos < s.r.writePos && k <= HEADER_SIZE + c.hdr.dataLen
    ensures s.r.readPos % |s.r.buf| + HEADER_SIZE + c.hdr.dataLen <= |s.r.buf|
    ensures Leads(run, s, Copied(s, k))
  {
    hide Decode, EntrySize, Next, Leads;
    RoomOfCell(s.r.buf, s.r.readPos % |s.r.buf|, c);
    if k == 0 {
      assert s.r.buf[s.r.readPos % |s.r.buf|..s.r.readPos % |s.r.buf|] == [];
      run := One(s, Copied(s, 0), StartRead);
    } else {
      var front := BytesAsSteps(s, c, k - 1);
      var last := NextByte(s, c, k - 1);
      run := Join(front, last, s, Copied(s, k - 1), Copied(s, k));
    }
  }

  lemma RoomOfCell(buf: seq<bv8>, off: nat, c: Cell)
    requires CellAt(buf, off) == Some(c)
    ensures off + HEADER_SIZE + c.hdr.dataLen <= off + c.Size() <= |buf|
    ensures c.hdr == Decode(buf[off..off + HEADER_SIZE]) && c.data == buf[off + HEADER_SIZE..off + HEADER_SIZE + c.hdr.dataLen]
  {
  }

  lemma NextByte(s: System, c: Cell, k: nat) returns (run: seq<System>)
    requires |s.r.buf| > 0 && CellAt(s.r.buf, s.r.readPos % |s.r.buf|) == Some(c)
    requires s.r.readPos % |s.r.buf| + HEADER_SIZE + c.hdr.dataLen <= |s.r.buf| && k < HEADER_SIZE + c.hdr.dataLen
    ensures Leads(run, Copied(s, k), Copied(s, k + 1))
  {
    hide Decode, EntrySize, CellAt, Wanted;
    var off := s.r.readPos % |s.r.buf|;
    WantedOf(s.r.buf, off, c, k);
    assert s.r.buf[off..off + k] + [s.r.buf[off + k]] == s.r.buf[off..off + k + 1];
    run := One(Copied(s, k), Copied(s, k + 1), ReadByte);
  }

  /** How many bytes the consumer wants is known as soon as the header is there. */
  lemma WantedOf(buf: seq<bv8>, off: nat, c: Cell, k: nat)
    requires CellAt(buf, off) == Some(c) && k <= HEADER_SIZE + c.hdr.dataLen
    requires off + HEADER_SIZE + c.hdr.dataLen <= |buf|
    ensures Wanted(buf[off..off + k]) == if k < HEADER_SIZE then HEADER_SIZE else HEADER_SIZE + c.hdr.dataLen
  {
    hide Decode, EntrySize;
    if k >= HEADER_SIZE {
      assert buf[off..off + k][..HEADER_SIZE] == buf[off..off + HEADER_SIZE];
    }
  }

  /** The state after the cell at the read position was read. */
  function Passed(s: System, c: Cell): System {
    s.(r := s.r.(readPos := s.r.readPos + c.Size()), delivered := s.delivered + Entries([c]))
  }

  lemma FinishAsStep(s: System, c: Cell) returns (run: seq<System>)
    requires |s.r.buf| > 0 && CellAt(s.r.buf, s.r.readPos % |s.r.buf|) == Some(c) && s.consumer == Ready
    requires s.r.readPos % |s.r.buf| + HEADER_SIZE + c.hdr.dataLen <= |s.r.buf|
    ensures Leads(run, Copied(s, HEADER_SIZE + c.hdr.dataLen), Passed(s, c))
  {
    hide Decode, EntrySize, Entries, CellAt, Leads, Full, NeedsWrap, Representable, EntryBytes, Outside, Parse,
         Encode, Wanted, Take;
    var off, n := s.r.readPos % |s.r.buf|, HEADER_SIZE + c.hdr.dataLen;
    RoomOfCell(s.r.buf, off, c);
    WantedOf(s.r.buf, off, c, n);
    var got := s.r.buf[off..off + n];
    assert got[..HEADER_SIZE] == s.r.buf[off..off + HEADER_SIZE];
    assert got[HEADER_SIZE..] == c.data;
    run := One(Copied(s, n), Passed(s, c), FinishRead);
  }

  /** One cell read, delivered if it is an entry. */
  lemma CellAsSteps(s: System, c: Cell) returns (run: seq<System>)
    requires |s.r.buf| > 0 && CellAt(s.r.buf, s.r.readPos % |s.r.buf|) == Some(c)
    requires s.consumer == Ready && s.r.readPos < s.r.writePos
    ensures Leads(run, s, Passed(s, c))
  {
    hide Decode, EntrySize, Entries, CellAt, Next, Leads;
    var off, n := s.r.readPos % |s.r.buf|, HEADER_SIZE + c.hdr.dataLen;
    RoomOfCell(s.r.buf, off, c);
    var front := BytesAsSteps(s, c, n);
    var last := FinishAsStep(s, c);
    run := Join(front, last, s, Copied(s, n), Passed(s, c));
  }

  /** The state after the cells through the first entry were read. */
  function ReadOn(s: System): System
    requires |s.r.buf| > 0 && Parse(s.r.buf, s.r.readPos, s.r.writePos).Some?
  {
    var cells := Parse(s.r.buf, s.r.readPos, s.r.writePos).value;
    var passed := cells[..Through(cells)];
    s.(r := s.r.(readPos := s.r.readPos + Length(passed)), delivered := s.delivered + Entries(passed))
  }

  /**
   * An undisturbed ReadNext: cells are read through the first entry, or to the write position, as the
   * contract of the method says.
   */
  lemma {:induction false} ReadNextAsSteps(s: System) returns (run: seq<System>)
    requires |s.r.buf| > 0 && s.consumer == Ready && Parse(s.r.buf, s.r.readPos, s.r.writePos).Some?
    ensures Leads(run, s, ReadOn(s))
    decreases s.r.writePos - s.r.readPos
  {
    hide CellAt, EntrySize, Leads, ValidateCrc, Entries, Length, Through;
    NothingPassed();
    var cells := Parse(s.r.buf, s.r.readPos, s.r.writePos).value;
    ParseBound(s.r.buf, s.r.readPos, s.r.writePos);
    if cells == [] {
      run := Nothing(s);
      assert s.delivered + [] == s.delivered;
    } else {
      var c, rest := cells[0], cells[1..];
      var t := Passed(s, c);
      SizePositive(c);
      ParseBound(s.r.buf, t.r.readPos, s.r.writePos);
      var front := CellAsSteps(s, c);
      assert Parse(s.r.buf, t.r.readPos, s.r.writePos) == Some(rest);
      PassingOne(cells);
      if c.IsEntry() {
        run := front;
      } else {
        var tail := ReadNextAsSteps(t);
        Regroup(s.delivered, Entries([c]), Entries(rest[..Through(rest)]));
        run := Join(front, tail, s, t, ReadOn(t));
      }
    }
  }

  /** What passing the first cell contributes. */
  lemma PassingOne(cells: seq<Cell>)
    requires cells != []
    ensures var c, rest := cells[0], cells[1..];
            var n := Through(cells);
            && (c.IsEntry() ==> n == 1 && cells[..n] == [c] && Length([c]) == c.Size())
            && (!c.IsEntry() ==>
                  && n == 1 + Through(rest)
                  && Length(cells[..n]) == c.Size() + Length(rest[..n - 1])
                  && Entries(cells[..n]) == Entries([c]) + Entries(rest[..n - 1]))
  {
    hide EntrySize, ValidateCrc;
    hide *;
    ThroughOne(cells);
    var c, rest, n := cells[0], cells[1..], Through(cells);
    LengthOne(c);
    if c.IsEntry() {
      assert cells[..1] == [c];
    } else {
      assert cells[..n] == [c] + rest[..n - 1];
      EntriesConcat([c], rest[..n - 1]);
      LengthConcat([c], rest[..n - 1]);
    }
  }

  lemma ThroughOne(cells: seq<Cell>)
    requires cells != []
    ensures Through(cells) == if cells[0].IsEntry() then 1 else 1 + Through(cells[1..])
  {
    hide EntrySize, ValidateCrc;
  }

  lemma LengthOne(c: Cell)
    ensures Length([c]) == c.Size()
  {
    hide EntrySize;
    assert [c][1..] == [];
  }

  lemma NothingPassed()
    ensures Through([]) == 0 && Length([]) == 0 && Entries([]) == []
  {
  }

  /** Confirming the first n cells of the window is one step. */
  lemma ConfirmAsStep(s: System, n: nat) returns (s': System, run: seq<System>)
    requires |s.r.buf| > 0 && Parse(s.r.buf, s.r.confirmedPos, s.r.writePos).Some?
    requires n <= |Parse(s.r.buf, s.r.confirmedPos, s.r.writePos).value|
    ensures Leads(run, s, s')
    ensures var cells := Parse(s.r.buf, s.r.confirmedPos, s.r.writePos).value;
            s' == s.(r := s.r.(confirmedPos := s.r.confirmedPos + Length(cells[..n])),
                     confirmed := s.confirmed + Entries(cells[..n]))
  {
    hide Parse, Length, Entries;
    var cells := Parse(s.r.buf, s.r.confirmedPos, s.r.writePos).value;
    var pos := s.r.confirmedPos + Length(Parse(s.r.buf, s.r.confirmedPos, s.r.writePos).value[..n]);
    ParseDrop(s.r.buf, s.r.confirmedPos, s.r.writePos, n);
    s' := s.(r := s.r.(confirmedPos := pos), confirmed := s.confirmed + Entries(cells[..n]));
    run := One(s, s', Confirm(pos));
  }

  /** Undisturbed Confirm and ConfirmBatch are such steps, to the positions their contracts name. */
  lemma ConfirmsAsSteps(s: System, number: nat, count: nat)
    returns (byNumber: System, byCount: System, numbered: seq<System>, counted: seq<System>)
    requires |s.r.buf| > 0 && Parse(s.r.buf, s.r.confirmedPos, s.r.writePos).Some?
    ensures Leads(numbered, s, byNumber) && Leads(counted, s, byCount)
    ensures var cells := Parse(s.r.buf, s.r.confirmedPos, s.r.writePos).value;
            && byNumber.confirmed == s.confirmed + Entries(cells[..Confirmed(cells, number)])
            && byCount.confirmed == s.confirmed + Entries(cells[..Batch(cells, count)])
            && byNumber.r == s.r.(confirmedPos := s.r.confirmedPos + Length(cells[..Confirmed(cells, number)]))
            && byCount.r == s.r.(confirmedPos := s.r.confirmedPos + Length(cells[..Batch(cells, count)]))
  {
    hide Parse, Length, Leads, Confirmed, Batch, Entries;
    var cells := Parse(s.r.buf, s.r.confirmedPos, s.r.writePos).value;
    byNumber, numbered := ConfirmAsStep(s, Confirmed(cells, number));
    byCount, counted := ConfirmAsStep(s, Batch(cells, count));
  }

  // ---------------------------------------------------------------- order of delivery

  lemma FirstCell(buf: seq<bv8>, pos: nat, end: nat, c: Cell)
    requires |buf| > 0 && pos < end && Parse(buf, pos, end) == Some([c])
    ensures CellAt(buf, pos % |buf|) == Some(c)
  {
    hide CellAt, EntrySize;
    assert Parse(buf, pos, end).value[0] == c;
  }

  lemma {:induction false} InvRun(run: seq<System>, s: System, t: System)
    requires Leads(run, s, t) && Inv(s)
    ensures Inv(t)
  {
    hide Inv, NextStep;
    var n := |run| - 1;
    if n == 0 {
    } else {
      InvRun(run[..n], s, run[n - 1]);
      assert Next(run[n - 1], t);
      var step :| NextStep(run[n - 1], t, step);
      Kept(run[n - 1], t, step);
    }
  }

  lemma {:induction false} EntriesAmong(cells: seq<Cell>)
    ensures forall c :: c in Entries(cells) ==> c in cells
  {
    hide ValidateCrc, EntrySize;
    if cells == [] {
    } else {
      EntriesAmong(cells[1..]);
      forall c | c in Entries(cells) ensures c in cells {
        assert c == cells[0] || c in cells[1..];
      }
    }
  }

  /** A cell with a number not used so far is not among the cells appended. */
  lemma NewCell(appended: seq<Cell>, bound: nat, c: Cell)
    requires Logged(appended, bound) && c.hdr.seqNo >= bound
    ensures c !in appended
  {
    hide ValidateCrc;
    assert forall i :: 0 <= i < |appended| ==> appended[i].hdr.seqNo == Numbers(appended)[i];
  }

  /** After an Append whose place leaves the unread bytes alone, the next ReadNext delivers the entry that has waited longest. */
  lemma ReadsWaiting(s: System) returns (e: System, run: seq<System>)
    requires |s.r.buf| > 0 && ReadInv(s) && s.consumer == Ready && |s.delivered| < |Entries(s.appended)|
    ensures Leads(run, s, e) && e.appended == s.appended
    ensures e.delivered == Entries(s.appended)[..|s.delivered| + 1]
  {
    hide Parse, Entries, Through, Length, Leads, Clear, EntrySize, ValidateCrc;
    var cells := Parse(s.r.buf, s.r.readPos, s.r.writePos).value;
    run := ReadNextAsSteps(s);
    e := ReadOn(s);
    var n := Through(cells);
    ThroughFirst(cells);
    assert cells == cells[..n] + cells[n..];
    EntriesConcat(cells[..n], cells[n..]);
    assert Entries(cells) == [Entries(cells)[0]] + Entries(cells)[1..];
    FrontOf(Entries(cells[..n]), Entries(cells)[..1], Entries(cells)[1..]);
  }

  lemma FrontOf<T>(a: seq<T>, b: seq<T>, tail: seq<T>)
    requires a + tail == b + tail
    ensures a == b
  {
    assert |a| == |b|;
    assert a == (a + tail)[..|a|] && b == (b + tail)[..|b|];
  }

  /** An entry stored where the reader stands is delivered before the one that waits. */
  lemma ReadsNewest(s: System, before: seq<Cell>, c: Cell) returns (run: seq<System>)
    requires |s.r.buf| > 0 && s.consumer == Ready && s.r.readPos < s.r.writePos
    requires CellAt(s.r.buf, s.r.readPos % |s.r.buf|) == Some(c) && c.IsEntry()
    requires s.appended == before + [c] && c !in before
    requires s.delivered <= Entries(before) && |s.delivered| < |Entries(before)|
    ensures Leads(run, s, Passed(s, c)) && Disordered(Passed(s, c))
    ensures Passed(s, c).delivered == s.delivered + [c]
  {
    hide CellAt, Entries, Leads, EntrySize, ValidateCrc;
    run := CellAsSteps(s, c);
    EntriesOne(c);
    EntriesAmong(before);
    EntriesConcat(before, [c]);
    var i := |s.delivered|;
    assert Entries(s.appended)[i] == Entries(before)[i] && Entries(before)[i] in before;
    assert Passed(s, c).delivered[i] == c;
  }

  lemma SameOffset(size: nat, pos: nat)
    requires size > 0
    ensures (pos + size) % size == pos % size
  {
    var q, m := pos / size, pos % size;
    assert pos + size == size * (q + 1) + m;
    Positions.ModOfSum(size, q + 1, m);
  }

  /** An Append that is neither rejected nor wraps. */
  ghost predicate Direct(s: System, kind: nat, data: seq<bv8>, now: nat) {
    && CoreInv(s) && Shape(s.r) && s.producer == Idle && s.consumer == Ready
    && Representable(s.r.nextSeq + 1, kind, data, now)
    && !Rejects(s.r, s.maxEntry, |data|) && !NeedsWrap(s.r, |data|)
  }

  /** Its place ends by one buffer behind the read position: the entry that waits is delivered. */
  lemma PlacedClear(s: System, kind: nat, data: seq<bv8>, now: nat) returns (e: System, run: seq<System>)
    requires Inv(s) && !s.unmarked && !s.lapped && Direct(s, kind, data, now) && |s.delivered| < |Entries(s.appended)|
    requires s.r.writePos + EntrySize(|data|) <= s.r.readPos + |s.r.buf|
    ensures Leads(run, s, e) && e.appended == s.appended + [EntryCell(s.r.nextSeq, kind, data, now)]
    ensures |e.delivered| == |s.delivered| + 1 && e.delivered <= Entries(e.appended)
  {
    hide Parse, EntrySize, Entries, Publish, Logged, Handed, EntryCell, Rejects, ProducerInv, Leads, Holds,
         ConsumerInv, Clear, Sound, Ordered;
    FirstNumber(s);
    var front := PlacedAsSteps(s, kind, data, now, Begin(kind, data, now));
    var t := Placed(s, kind, data, now);
    InvRun(front, s, t);
    EntriesConcat(s.appended, [EntryCell(s.r.nextSeq, kind, data, now)]);
    var tail: seq<System>;
    e, tail := ReadsWaiting(t);
    run := Join(front, tail, s, t, e);
  }

  /** Its place starts one buffer behind the read position: the new entry is delivered before the one that waits. */
  lemma PlacedOver(s: System, kind: nat, data: seq<bv8>, now: nat) returns (e: System, run: seq<System>)
    requires Direct(s, kind, data, now) && kind != 0
    requires s.delivered <= Entries(s.appended) && |s.delivered| < |Entries(s.appended)|
    requires s.r.writePos == s.r.readPos + |s.r.buf|
    ensures var c := EntryCell(s.r.nextSeq, kind, data, now);
            Leads(run, s, e) && e.appended == s.appended + [c] && e.delivered == s.delivered + [c] && Disordered(e)
  {
    hide Parse, EntrySize, Entries, Publish, Logged, Handed, EntryCell, Rejects, ProducerInv, Leads, CellAt,
         Disordered;
    FirstNumber(s);
    var front := PlacedAsSteps(s, kind, data, now, Begin(kind, data, now));
    var t := Placed(s, kind, data, now);
    var c := EntryCell(s.r.nextSeq, kind, data, now);
    PlacedFirst(s, kind, data, now);
    TypedEntry(s.r.nextSeq, kind, data, now);
    NewCell(s.appended, s.r.nextSeq, c);
    var tail := ReadsNewest(t, s.appended, c);
    e := Passed(t, c);
    run := Join(front, tail, s, t, e);
  }

  lemma PlacedFirst(s: System, kind: nat, data: seq<bv8>, now: nat)
    requires Direct(s, kind, data, now) && s.r.writePos == s.r.readPos + |s.r.buf|
    ensures var r' := Publish(s.r, kind, data, now);
            && CellAt(r'.buf, s.r.readPos % |s.r.buf|) == Some(EntryCell(s.r.nextSeq, kind, data, now))
            && r'.readPos == s.r.readPos < r'.writePos
    ensures Bound(s) == s.r.nextSeq == EntryCell(s.r.nextSeq, kind, data, now).hdr.seqNo
  {
    hide Parse, EntrySize, Publish, Rejects, ProducerInv, CellAt, Logged, Handed;
    PublishCursors(s.r, kind, data, now);
    PublishedCell(s.r, kind, data, now);
    var r' := Publish(s.r, kind, data, now);
    FirstCell(r'.buf, s.r.writePos, r'.writePos, EntryCell(s.r.nextSeq, kind, data, now));
    SameOffset(|s.r.buf|, s.r.readPos);
  }

  /**
   * While an entry waits, for an Append that does not wrap and whose place ends by one buffer behind
   * the read position or starts there: the next ReadNext keeps the order exactly when the place ends
   * by then. Otherwise the new entry is delivered before the one that waits.
   */
  lemma LapExactly(s: System, kind: nat, data: seq<bv8>, now: nat) returns (e: System, run: seq<System>)
    requires Inv(s) && !s.unmarked && !s.lapped && Direct(s, kind, data, now) && kind != 0
    requires |s.delivered| < |Entries(s.appended)|
    requires s.r.writePos + EntrySize(|data|) <= s.r.readPos + |s.r.buf| || s.r.writePos == s.r.readPos + |s.r.buf|
    ensures Leads(run, s, e) && e.appended == s.appended + [EntryCell(s.r.nextSeq, kind, data, now)]
    ensures |e.delivered| == |s.delivered| + 1
    ensures e.delivered <= Entries(e.appended) <==> s.r.writePos + EntrySize(|data|) <= s.r.readPos + |s.r.buf|
    ensures e.delivered <= Entries(e.appended) <==> !Disordered(e)
  {
    hide Parse, EntrySize, Entries, EntryCell, CoreInv, ChainInv, ConsumerInv, Clear, Direct, Leads;
    if s.r.writePos + EntrySize(|data|) <= s.r.readPos + |s.r.buf| {
      e, run := PlacedClear(s, kind, data, now);
    } else {
      e, run := PlacedOver(s, kind, data, now);
    }
  }

  // ---------------------------------------------------------------- runs that go wrong

  /** A reset ring of the given size, before anything happens. */
  function Fresh(size: nat): System {
    System(Ring(seq(size, _ => 0), 0, 0, 0, 1, 0, 0, 0), size, Idle, Ready, [], [], [], [], 0, false, false, false)
  }

  lemma FreshInv(size: nat)
    requires 0 < size < WORD / 2 && size % 8 == 0
    ensures Init(Fresh(size)) && Inv(Fresh(size))
  {
    InitInv(Fresh(size));
  }

  const NOTHING: seq<bv8> := []

  /** After an Append of an entry of type 1 without data that neither wraps nor is rejected. */
  ghost function Plain(s: System, now: nat): System
    requires |s.r.buf| > 0 && !NeedsWrap(s.r, 0)
  {
    s.(r := Publish(s.r, 1, NOTHING, now), producer := Idle,
       appended := s.appended + [EntryCell(s.r.nextSeq, 1, NOTHING, now)], returned := s.returned + [s.r.nextSeq],
       lapped := s.lapped || Laps(s.r, 0))
  }

  lemma PlainAsSteps(s: System, now: nat) returns (run: seq<System>)
    requires CoreInv(s) && !s.overrun && s.producer == Idle && Representable(s.r.nextSeq + 2, 1, NOTHING, now)
    requires !NeedsWrap(s.r, 0) && s.r.writePos + 24 <= s.r.confirmedPos + |s.r.buf| && s.maxEntry >= 24
    ensures Leads(run, s, Plain(s, now)) && CoreInv(Plain(s, now))
    ensures Plain(s, now).r.writePos == s.r.writePos + 24 && Plain(s, now).r.nextSeq == s.r.nextSeq + 1
    ensures Plain(s, now).r.confirmedPos == s.r.confirmedPos && Plain(s, now).r.readPos == s.r.readPos
    ensures Shape(s.r) && EntrySize(|NOTHING|) == 24
  {
    hide Publish, Parse, CellAt, EntryCell, Encode, EntryBytes, Next, Logged, Handed, Leads, Append, Laps;
    ShapeOf(s);
    assert EntrySize(|NOTHING|) == 24;
    PublishCursors(s.r, 1, NOTHING, now);
    AppendInPlace(s.r, s.maxEntry, 1, NOTHING, now);
    hide EntrySize, Publish;
    run := AppendAsSteps(s, 1, NOTHING, now);
    hide CoreInv;
    CoreRun(run, s, Plain(s, now));
  }

  lemma LengthTwo(c: Cell, d: Cell)
    ensures Length([c, d]) == c.Size() + d.Size()
  {
    hide EntrySize, Length;
    LengthConcat([c], [d]);
    LengthOne(c);
    LengthOne(d);
    assert [c] + [d] == [c, d];
  }

  lemma RunTo(run: seq<System>, s: System, e: System)
    requires Init(s) && Leads(run, s, e)
    ensures Run(run) && run[|run| - 1] == e
  {
    hide Init, Next;
  }

  /**
   * A ring of one entry: the first entry is confirmed unread, the second one takes its place, and the
   * consumer receives the second one twice and the first one never.
   */
  lemma ConfirmedUnread(now: nat) returns (run: seq<System>)
    requires now < WORD
    ensures Run(run)
    ensures var e := run[|run| - 1]; var c, d := EntryCell(1, 1, NOTHING, now), EntryCell(2, 1, NOTHING, now);
            !e.unmarked && e.lapped && e.appended == [c, d] && e.delivered == [d, d] && c != d
  {
    hide Publish, Parse, CellAt, Encode, EntryBytes, Leads, CoreInv, Entries, Length, Passed, Init;
    var d := EntryCell(2, 1, NOTHING, now);
    FreshInv(24);
    var s, before := UnreadConfirmed(now);
    SizeOfEmpty(2, now);
    var t := Plain(s, now);
    var last := PlainAsSteps(s, now);
    PublishedCell(s.r, 1, NOTHING, now);
    FirstCell(t.r.buf, 24, 48, d);
    TypedEntry(2, 1, NOTHING, now);
    var e, tail := ReadTwice(t, d);
    var front := Join(before, last, Fresh(24), s, t);
    run := Join(front, tail, Fresh(24), t, e);
    RunTo(run, Fresh(24), e);
  }

  /** One entry in a ring of one entry, confirmed and not read. */
  lemma UnreadConfirmed(now: nat) returns (s: System, run: seq<System>)
    requires now < WORD
    ensures Leads(run, Fresh(24), s) && CoreInv(s) && Shape(s.r)
    ensures s.appended == [EntryCell(1, 1, NOTHING, now)] && s.delivered == [] && s.maxEntry == |s.r.buf| == 24
    ensures s.producer == Idle && s.consumer == Ready && s.r.nextSeq == 2 && !s.unmarked && !s.overrun
    ensures s.r.writePos == s.r.confirmedPos == 24 && s.r.readPos == 0
  {
    hide Publish, Parse, CellAt, Encode, EntryBytes, Leads, CoreInv, Entries, Length, EntryCell;
    var c := EntryCell(1, 1, NOTHING, now);
    FreshInv(24);
    SizeOfEmpty(1, now);
    var t := Plain(Fresh(24), now);
    var first := PlainAsSteps(Fresh(24), now);
    PublishedCell(Fresh(24).r, 1, NOTHING, now);
    LengthOne(c);
    assert [c][..1] == [c];
    var last: seq<System>;
    s, last := ConfirmAsStep(t, 1);
    CoreRun(last, t, s);
    ShapeOf(s);
    run := Join(first, last, Fresh(24), t, s);
  }

  lemma SizeOfEmpty(seqNo: nat, now: nat)
    ensures EntryCell(seqNo, 1, NOTHING, now).Size() == 24 && EntrySize(0) == 24
  {
    hide StoredCrc;
  }

  /** In a ring of one entry, the same bytes are read for two positions. */
  lemma ReadTwice(s: System, d: Cell) returns (e: System, run: seq<System>)
    requires |s.r.buf| == 24 && s.r.readPos == 0 && s.r.writePos == 48 && s.consumer == Ready
    requires CellAt(s.r.buf, 0) == Some(d) && d.Size() == 24 && d.IsEntry() && s.delivered == []
    ensures Leads(run, s, e) && e == s.(r := s.r.(readPos := 48), delivered := [d, d])
  {
    hide CellAt, EntrySize, ValidateCrc, Leads, Entries;
    EntriesOne(d);
    var t := Passed(s, d);
    e := Passed(t, d);
    var first := CellAsSteps(s, d);
    assert [] + [d] == [d] && [d] + [d] == [d, d];
    var second := CellAsSteps(t, d);
    run := Join(first, second, s, t, e);
  }

  /**
   * A ring of 64 bytes: two entries, both confirmed, and a third one that wraps without a marker.
   * A confirmation that starts at the gap can end behind the write position.
   */
  lemma ConfirmedPastWrite(now: nat) returns (run: seq<System>, e: System)
    requires now < WORD
    ensures Run(run) && Run(run + [e])
    ensures var s := run[|run| - 1];
            && s.unmarked && s.r.confirmedPos == 48 && s.r.writePos == 88
            && s.r.confirmedPos <= s.r.writePos && e.overrun
            && e.r == s.r.(confirmedPos := 96)
  {
    hide Publish, Parse, CellAt, EntryCell, Encode, EntryBytes, Leads, CoreInv, Wrap, Append, Init, NextStep;
    var s, before := TwoConfirmed(now);
    ShapeOf(s);
    var t := Appended(s, 1, NOTHING, now);
    var last := AppendAsSteps(s, 1, NOTHING, now);
    WrapOfLast(s, now);
    run := Join(before, last, Fresh(64), s, t);
    FreshInv(64);
    RunTo(run, Fresh(64), t);
    e := DriftedOn(t);
    OneMore(run, e, Drift(96));
  }

  lemma DriftedOn(t: System) returns (e: System)
    requires |t.r.buf| > 0 && t.unmarked && t.r.confirmedPos == 48 && t.r.writePos == 88
    ensures NextStep(t, e, Drift(96)) && e.overrun && e.r == t.r.(confirmedPos := 96)
  {
    e := t.(r := t.r.(confirmedPos := 96), overrun := true);
    SizeBound(0);
  }

  lemma OneMore(run: seq<System>, e: System, step: Step)
    requires Run(run) && |run[|run| - 1].r.buf| > 0 && NextStep(run[|run| - 1], e, step)
    ensures Run(run + [e])
  {
    hide NextStep, Init;
    assert Next(run[|run| - 1], e);
  }

  /** Two entries in a ring of 64 bytes, confirmed. */
  lemma TwoConfirmed(now: nat) returns (s: System, run: seq<System>)
    requires now < WORD
    ensures Leads(run, Fresh(64), s) && CoreInv(s) && !s.overrun && s.producer == Idle
    ensures s.maxEntry == |s.r.buf| == 64 && s.r.confirmedPos == s.r.writePos == 48 && s.r.nextSeq == 3
  {
    hide Publish, Parse, CellAt, EntryCell, Encode, EntryBytes, Leads, CoreInv, Length, Entries;
    var c, d := EntryCell(1, 1, NOTHING, now), EntryCell(2, 1, NOTHING, now);
    var t, front := TwoPlain(now);
    SizeOfEmpty(1, now);
    SizeOfEmpty(2, now);
    LengthTwo(c, d);
    assert [c, d][..2] == [c, d];
    var last: seq<System>;
    s, last := ConfirmAsStep(t, 2);
    CoreRun(last, t, s);
    run := Join(front, last, Fresh(64), t, s);
  }

  lemma TwoPlain(now: nat) returns (s: System, run: seq<System>)
    requires now < WORD
    ensures Leads(run, Fresh(64), s) && CoreInv(s) && !s.overrun && s.producer == Idle
    ensures s.maxEntry == |s.r.buf| == 64 && s.r.confirmedPos == 0 && s.r.writePos == 48 && s.r.nextSeq == 3
    ensures Parse(s.r.buf, 0, 48) == Some([EntryCell(1, 1, NOTHING, now), EntryCell(2, 1, NOTHING, now)])
  {
    hide Publish, Parse, CellAt, EntryCell, Encode, EntryBytes, Leads, CoreInv;
    var t, first := OnePlain(now);
    s := Plain(t, now);
    var last := PlainAsSteps(t, now);
    PublishParses(t.r, 1, NOTHING, now, 0);
    assert [EntryCell(1, 1, NOTHING, now)] + [EntryCell(2, 1, NOTHING, now)]
        == [EntryCell(1, 1, NOTHING, now), EntryCell(2, 1, NOTHING, now)];
    hide *;
    run := Join(first, last, Fresh(64), t, s);
  }

  lemma OnePlain(now: nat) returns (s: System, run: seq<System>)
    requires now < WORD
    ensures Leads(run, Fresh(64), s) && CoreInv(s) && Shape(s.r) && !s.overrun && s.producer == Idle
    ensures s.maxEntry == |s.r.buf| == 64 && s.r.confirmedPos == 0 && s.r.writePos == 24 && s.r.nextSeq == 2
    ensures Parse(s.r.buf, 0, 24) == Some([EntryCell(1, 1, NOTHING, now)])
  {
    hide Publish, Parse, CellAt, EntryCell, Encode, EntryBytes, Leads, CoreInv;
    FreshInv(64);
    SizeOfEmpty(1, now);
    s := Plain(Fresh(64), now);
    run := PlainAsSteps(Fresh(64), now);
    PublishedCell(Fresh(64).r, 1, NOTHING, now);
    ShapeOf(s);
  }

  /** The wrap leaves 16 bytes, and the entry lies at the start of the buffer. */
  lemma WrapOfLast(s: System, now: nat)
    requires CoreInv(s) && Shape(s.r) && s.maxEntry == 64 && |s.r.buf| == 64
    requires s.r.confirmedPos == s.r.writePos == 48
    ensures var e := Appended(s, 1, NOTHING, now);
            e.unmarked && |e.r.buf| == 64 && e.r.writePos == 88 && e.r.confirmedPos == 48
  {
    hide Publish, EntryCell, CoreInv, Wrap, Append;
    SizeOfEmpty(1, now);
    AfterWrap(s, 1, NOTHING, now);
    PublishCursors(Wrap(s.r), 1, NOTHING, now);
  }
}
