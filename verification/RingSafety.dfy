/** What every step of the ring protocol keeps. */
module RingSafety {
  import opened Common
  import opened Positions
  import opened WalEntry
  import opened RingSpec
  import opened RingLemmas
  import opened RingReaders
  import opened RingProtocol

  // ---------------------------------------------------------------- without any assumption on wraps

  /** How many bytes from the write position on the producer is storing. */
  function Storing(p: Producer): nat {
    if p.Marking? then HEADER_SIZE else if p.Writing? then EntrySize(|p.data|) else 0
  }

  /** What the producer stores leaves the bytes alone that are less than one buffer behind its end. */
  lemma ScribbleFrame(s: System, s': System, start: nat)
    requires |s.r.buf| > 0 && ScribbleStep(s, s') && ProducerInv(s.r, s.producer)
    requires s.r.writePos + Storing(s.producer) <= start + |s.r.buf|
    ensures Agree(s.r.buf, s'.r.buf, start, s.r.writePos)
  {
    hide EntrySize, Outside;
    OutsideFrame(s.r.buf, s'.r.buf, s.r.writePos, Storing(s.producer), start);
  }

  lemma StoringFits(s: System)
    requires CoreInv(s) && (s.producer.Marking? || s.producer.Writing?)
    ensures s.r.writePos + Storing(s.producer) <= s.r.confirmedPos + |s.r.buf|
  {
    hide Logged, Handed;
  }

  lemma SameBytes(buf: seq<bv8>, pos: nat, end: nat)
    requires |buf| > 0
    ensures Agree(buf, buf, pos, end)
  {
  }

  /** No step changes an unconfirmed byte. */
  lemma WindowStable(s: System, s': System, step: Step)
    requires CoreInv(s) && NextStep(s, s', step)
    ensures Agree(s.r.buf, s'.r.buf, s.r.confirmedPos, s.r.writePos)
  {
    hide EntryBytes, Encode, Parse, EntrySize, Entries, Logged, Handed, Agree, Outside, Storing, Full, Wanted,
         CellOf, EntryCell;
    if step.Scribble? {
      StoringFits(s);
      ScribbleFrame(s, s', s.r.confirmedPos);
    } else {
      SameBytes(s.r.buf, s.r.confirmedPos, s.r.writePos);
    }
  }

  lemma {:induction false} LengthAligned(cells: seq<Cell>)
    ensures Length(cells) % 8 == 0
  {
    if cells == [] {
    } else {
      LengthAligned(cells[1..]);
      Sum8(cells[0].Size(), Length(cells[1..]), 0);
    }
  }

  lemma AlignedEnd(r: Ring)
    requires Bounded(r)
    ensures (r.writePos + (|r.buf| - Offset(r))) % 8 == 0
    ensures (r.writePos + (|r.buf| - Offset(r))) % |r.buf| == 0
  {
    Aligned(|r.buf|, r.writePos);
    Sum8(r.writePos, |r.buf|, Offset(r));
    AdvanceToEnd(|r.buf|, r.writePos);
  }

  lemma CoreTake(s: System, s': System, kind: nat, data: seq<bv8>, now: nat)
    requires CoreInv(s) && (s.producer.Idle? || s.producer.Retrying?) && Take(s, s', kind, data, now)
    requires Representable(s.r.nextSeq + 1, kind, data, now)
    requires s.r.writePos + EntrySize(|data|) <= s.r.confirmedPos + |s.r.buf|
    ensures CoreInv(s')
  {
    hide EntrySize, Numbers, ValidateCrc;
  }

  lemma CoreTaken(s: System, s': System, step: Step)
    requires CoreInv(s) && NextStep(s, s', step)
    requires step.Begin? || step.Retry?
    ensures CoreInv(s')
  {
    hide EntryBytes, Encode, Decode, Parse, EntrySize, Entries, CellOf, Full, Logged, Handed, Take, Wanted, Outside;
    var data := if step.Begin? then step.data else s.producer.data;
    FullExactly(s.r, s.maxEntry, |data|);
    if Full(s.r, s.maxEntry, |data|) {
      CoreIdle(s, s');
    } else if step.Begin? {
      CoreTake(s, s', step.kind, data, step.now);
    } else {
      CoreTake(s, s', s.producer.kind, data, s.producer.now);
    }
  }

  /** A rejected Append is over. */
  lemma CoreIdle(s: System, s': System)
    requires CoreInv(s) && (s.producer.Idle? || s.producer.Retrying?) && s' == s.(producer := Idle)
    ensures CoreInv(s')
  {
    hide Logged, Numbers, Increasing;
  }

  lemma CoreMarkerDone(s: System, s': System)
    requires CoreInv(s) && MarkerDoneStep(s, s')
    ensures CoreInv(s')
  {
    hide Encode, EntrySize, Increasing, Logged, Numbers;
    AlignedEnd(s.r);
  }

  lemma NumbersConcat(cells: seq<Cell>, c: Cell)
    ensures Numbers(cells + [c]) == Numbers(cells) + [c.hdr.seqNo]
  {
  }

  lemma CoreEntryDone(s: System, s': System)
    requires CoreInv(s) && EntryDoneStep(s, s')
    ensures CoreInv(s')
  {
    hide EntryBytes, EntrySize, StoredCrc, ValidateCrc, Numbers;
    Sum8(s.r.writePos, EntrySize(|s.producer.data|), 0);
    var Writing(kind, data, now, seqNo) := s.producer;
    StoredCrcValid(seqNo, kind, data, now);
    NumbersConcat(s.appended, EntryCell(seqNo, kind, data, now));
  }

  /** Only what the counters and the caller know changes. */
  lemma CoreCounted(s: System, s': System, step: Step)
    requires CoreInv(s) && NextStep(s, s', step)
    requires step.WrapCounted? || step.EntryCounted? || step.ProducerRestart?
    ensures CoreInv(s')
  {
    hide EntrySize, ValidateCrc, Numbers, Full, Entries, Parse, Outside, Wanted, CellOf, EntryBytes, Encode;
  }

  lemma CoreFinishRead(s: System, s': System)
    requires CoreInv(s) && FinishReadStep(s, s')
    ensures CoreInv(s')
  {
    hide EntrySize, Entries, CellOf, Increasing, Logged, Numbers;
    assert CellOf(s.consumer.got).Size() % 8 == 0;
    Sum8(s.r.readPos, CellOf(s.consumer.got).Size(), 0);
  }

  lemma CoreConfirm(s: System, s': System, pos: nat)
    requires CoreInv(s) && ConfirmStep(s, s', pos)
    ensures CoreInv(s')
  {
    hide EntrySize, Parse, Length, Increasing, Logged, Entries, Numbers;
    var cells := Parse(s.r.buf, s.r.confirmedPos, pos).value;
    ParseLength(s.r.buf, s.r.confirmedPos, pos);
    LengthAligned(cells);
    Sum8(s.r.confirmedPos, Length(cells), 0);
  }

  /** The distance of the cursors, exact accounting, growing numbers and their cells are kept by every step. */
  lemma CoreKept(s: System, s': System, step: Step)
    requires CoreInv(s) && NextStep(s, s', step)
    ensures CoreInv(s')
  {
    hide EntryBytes, Encode, Decode, Parse, EntrySize, Entries, Length, CellOf, Increasing, Representable, Full,
         Logged, Numbers, EntryCell, Wanted;
    match step
    case Begin(kind, data, now) => CoreTaken(s, s', step);
    case Scribble =>
    case MarkerDone => CoreMarkerDone(s, s');
    case WrapCounted => CoreCounted(s, s', step);
    case Retry => CoreTaken(s, s', step);
    case EntryDone => CoreEntryDone(s, s');
    case EntryCounted => CoreCounted(s, s', step);
    case ProducerRestart => CoreCounted(s, s', step);
    case StartRead =>
    case ReadByte =>
    case FinishRead => CoreFinishRead(s, s');
    case ConsumerRestart =>
    case Confirm(pos) => CoreConfirm(s, s', pos);
    case Drift(pos) =>
  }

  // ---------------------------------------------------------------- what readers decode from a position on

  /** The bytes from pos on are the same, and so is the log. */
  lemma HoldsFramed(s: System, s': System, pos: nat, done: seq<Cell>)
    requires |s.r.buf| > 0 && Holds(s, pos, done)
    requires Agree(s.r.buf, s'.r.buf, pos, s.r.writePos) && s'.r.writePos == s.r.writePos && s'.appended == s.appended
    ensures Holds(s', pos, done)
    ensures Parse(s'.r.buf, pos, s'.r.writePos) == Parse(s.r.buf, pos, s.r.writePos)
  {
    hide Parse, Entries, Agree;
    ParseFrame(s.r.buf, s'.r.buf, pos, s.r.writePos);
    AgreeLengths(s.r.buf, s'.r.buf, pos, s.r.writePos);
  }

  /** One more cell at the write position. */
  lemma HoldsExtended(s: System, s': System, pos: nat, done: seq<Cell>, c: Cell)
    requires |s.r.buf| > 0 && Holds(s, pos, done) && s'.r.buf == s.r.buf && s.r.writePos <= s'.r.writePos
    requires Parse(s.r.buf, s.r.writePos, s'.r.writePos) == Some([c])
    requires Entries(s'.appended) == Entries(s.appended) + Entries([c])
    ensures Holds(s', pos, done)
    ensures Parse(s'.r.buf, pos, s'.r.writePos) == Some(Parse(s.r.buf, pos, s.r.writePos).value + [c])
  {
    hide Parse, Entries;
    var all := Parse(s.r.buf, pos, s.r.writePos).value;
    ParseConcat(s.r.buf, pos, s.r.writePos, s'.r.writePos);
    EntriesConcat(all, [c]);
    Regroup(done, Entries(all), Entries([c]));
  }

  /** The cells up to mid are dealt with. */
  lemma HoldsPassed(s: System, pos: nat, mid: nat, done: seq<Cell>)
    requires |s.r.buf| > 0 && Holds(s, pos, done) && mid <= s.r.writePos && Parse(s.r.buf, pos, mid).Some?
    ensures Holds(s, mid, done + Entries(Parse(s.r.buf, pos, mid).value))
    ensures Parse(s.r.buf, pos, s.r.writePos).value ==
            Parse(s.r.buf, pos, mid).value + Parse(s.r.buf, mid, s.r.writePos).value
  {
    hide Parse, Entries;
    ParsePrefix(s.r.buf, pos, mid, s.r.writePos);
    var a, b := Parse(s.r.buf, pos, mid).value, Parse(s.r.buf, mid, s.r.writePos).value;
    EntriesConcat(a, b);
    Regroup(done, Entries(a), Entries(b));
  }

  /** What a marker and an entry add to the cells that readers decode. */
  lemma MarkerPublished(s: System, s': System) returns (c: Cell)
    requires CoreInv(s) && !s.overrun && MarkerDoneStep(s, s') && !s'.unmarked
    ensures Parse(s.r.buf, s.r.writePos, s'.r.writePos) == Some([c])
    ensures c.hdr.seqNo == 0 && Entries([c]) == [] && Sound([c])
  {
    hide Parse, EntrySize, Encode, Decode, CellAt, Entries, Logged, Handed, Sound;
    ShapeOf(s);
    SkipLength(s.r, |s.producer.data|);
    MarkerCell(s.r.buf, s.r.writePos);
    c := CellAt(s.r.buf, Offset(s.r)).value;
    MarkerHarmless(c);
  }

  lemma ShapeOf(s: System)
    requires CoreInv(s) && !s.overrun
    ensures Shape(s.r)
  {
  }

  lemma MarkerHarmless(c: Cell)
    requires c.hdr.seqNo == 0
    ensures Entries([c]) == [] && Sound([c])
  {
    hide EntrySize, ValidateCrc;
    assert [c][1..] == [];
  }

  lemma EntryPublished(s: System, s': System) returns (c: Cell)
    requires CoreInv(s) && EntryDoneStep(s, s')
    ensures c == EntryCell(s.producer.seqNo, s.producer.kind, s.producer.data, s.producer.now)
    ensures s'.appended == s.appended + [c] && c.hdr.seqNo == s.producer.seqNo > 0
    ensures Parse(s.r.buf, s.r.writePos, s'.r.writePos) == Some([c])
    ensures Sound([c]) && Entries([c]) == (if s.producer.kind != 0 then [c] else [])
    ensures Entries(s'.appended) == Entries(s.appended) + Entries([c])
  {
    hide Parse, EntrySize, EntryBytes, Entries, StoredCrc, ValidateCrc, Logged, Handed;
    var Writing(kind, data, now, seqNo) := s.producer;
    c := EntryCell(seqNo, kind, data, now);
    StoredCell(s.r.buf, s.r.writePos, seqNo, kind, data, now);
    StoredCrcValid(seqNo, kind, data, now);
    TypedEntry(seqNo, kind, data, now);
    EntriesOne(c);
    EntriesConcat(s.appended, [c]);
  }

  /** Readers deliver a stored entry exactly when its type is not 0. */
  lemma TypedEntry(seqNo: nat, kind: nat, data: seq<bv8>, now: nat)
    requires seqNo > 0
    ensures EntryCell(seqNo, kind, data, now).IsEntry() <==> kind != 0
  {
    hide EntrySize, ValidateCrc, StoredCrc;
    StoredCrcValid(seqNo, kind, data, now);
  }

  // ---------------------------------------------------------------- the unconfirmed window

  lemma SoundConcat(a: seq<Cell>, b: seq<Cell>)
    requires Sound(a) && Sound(b)
    ensures Sound(a + b)
  {
    hide ValidateCrc, EntrySize;
  }

  lemma OrderedConcat(a: seq<Cell>, c: Cell, bound: nat, bound': nat)
    requires Ordered(a, bound) && bound <= bound'
    requires c.hdr.seqNo == 0 || bound <= c.hdr.seqNo < bound'
    requires bound' > 0
    ensures Ordered(a + [c], bound')
  {
    hide EntrySize;
  }

  lemma OrderedWeaken(a: seq<Cell>, bound: nat, bound': nat)
    requires Ordered(a, bound) && bound <= bound'
    ensures Ordered(a, bound')
  {
    hide EntrySize;
  }

  lemma SuffixKept(a: seq<Cell>, n: nat, bound: nat)
    requires n <= |a| && Sound(a) && Ordered(a, bound)
    ensures Sound(a[n..]) && Ordered(a[n..], bound)
  {
    hide ValidateCrc, EntrySize;
  }

  /** The window and the log are as before; numbers may have been taken. */
  lemma ChainSame(s: System, s': System)
    requires |s.r.buf| > 0 && ChainInv(s) && Bound(s) <= Bound(s')
    requires s'.r.buf == s.r.buf && s'.r.writePos == s.r.writePos && s'.r.confirmedPos == s.r.confirmedPos
    requires s'.appended == s.appended && s'.confirmed == s.confirmed
    ensures ChainInv(s')
  {
    hide Parse, Entries, Sound, Ordered, Bound;
    OrderedWeaken(Parse(s.r.buf, s.r.confirmedPos, s.r.writePos).value, Bound(s), Bound(s'));
  }

  /** One more cell at the end of the window. */
  lemma ChainExtended(s: System, s': System, c: Cell)
    requires |s.r.buf| > 0 && ChainInv(s) && s'.r.buf == s.r.buf && s.r.writePos <= s'.r.writePos
    requires s'.r.confirmedPos == s.r.confirmedPos && s'.confirmed == s.confirmed
    requires Parse(s.r.buf, s.r.writePos, s'.r.writePos) == Some([c]) && Sound([c])
    requires Entries(s'.appended) == Entries(s.appended) + Entries([c])
    requires Bound(s) <= Bound(s') && Bound(s') > 0 && (c.hdr.seqNo == 0 || Bound(s) <= c.hdr.seqNo < Bound(s'))
    ensures ChainInv(s')
  {
    hide Parse, Entries, Sound, Ordered, Bound;
    HoldsExtended(s, s', s.r.confirmedPos, s.confirmed, c);
    var all := Parse(s.r.buf, s.r.confirmedPos, s.r.writePos).value;
    SoundConcat(all, [c]);
    OrderedConcat(all, c, Bound(s), Bound(s'));
  }

  lemma ChainConfirmed(s: System, s': System, pos: nat)
    requires |s.r.buf| > 0 && ChainInv(s) && ConfirmStep(s, s', pos)
    ensures ChainInv(s')
  {
    hide Parse, Entries, Sound, Ordered;
    HoldsPassed(s, s.r.confirmedPos, pos, s.confirmed);
    var cells, n := Parse(s.r.buf, s.r.confirmedPos, s.r.writePos).value, |Parse(s.r.buf, s.r.confirmedPos, pos).value|;
    assert cells[n..] == Parse(s.r.buf, pos, s.r.writePos).value;
    SuffixKept(cells, n, Bound(s));
  }

  /** The chain of the unconfirmed window is kept by every step, and no entry leaves it but by a confirmation. */
  lemma ChainKept(s: System, s': System, step: Step)
    requires CoreInv(s) && CoreInv(s') && NextStep(s, s', step) && !s'.unmarked && ChainInv(s)
    ensures ChainInv(s')
  {
    hide Parse, EntrySize, Encode, Decode, EntryBytes, Entries, Sound, Ordered, Wanted, CellOf, Length, Outside,
         Logged, Handed, Full, ChainInv, EntryCell, CellAt, NeedsWrap;
    match step
    case Scribble =>
      WindowStable(s, s', step);
      ChainFramed(s, s');
    case MarkerDone =>
      var c := MarkerPublished(s, s');
      ChainExtended(s, s', c);
    case EntryDone =>
      var c := EntryPublished(s, s');
      ChainExtended(s, s', c);
    case Confirm(pos) => ChainConfirmed(s, s', pos);
    case Drift(pos) =>
    case _ => ChainSame(s, s');
  }

  lemma ChainFramed(s: System, s': System)
    requires |s.r.buf| > 0 && ChainInv(s) && ScribbleStep(s, s')
    requires Agree(s.r.buf, s'.r.buf, s.r.confirmedPos, s.r.writePos)
    ensures |s'.r.buf| > 0 && ChainInv(s')
  {
    hide Parse, Entries, Sound, Ordered, Agree, Outside;
    HoldsFramed(s, s', s.r.confirmedPos, s.confirmed);
    AgreeLengths(s.r.buf, s'.r.buf, s.r.confirmedPos, s.r.writePos);
  }

  // ---------------------------------------------------------------- the reader

  /** The first cell of a window starts with the bytes the reader copied, so the copy stays inside the window. */
  lemma GotInWindow(r: Ring, c: Consumer)
    requires |r.buf| > 0 && c.Reading? && r.readPos <= r.writePos
    requires ConsumerInv(r, c) && Parse(r.buf, r.readPos, r.writePos).Some?
    ensures Parse(r.buf, r.readPos, r.writePos).value != []
    ensures var cell := Parse(r.buf, r.readPos, r.writePos).value[0];
            && r.readPos + |c.got| <= r.readPos + cell.Size() <= r.writePos
            && CellAt(r.buf, r.readPos % |r.buf|) == Some(cell)
            && (|c.got| >= HEADER_SIZE && |c.got| == Wanted(c.got) ==> CellOf(c.got) == cell)
  {
    hide Decode, EntrySize;
    var off := r.readPos % |r.buf|;
    var cell := CellAt(r.buf, off).value;
    ParseBound(r.buf, r.readPos + cell.Size(), r.writePos);
    if |c.got| >= HEADER_SIZE {
      assert c.got[..HEADER_SIZE] == r.buf[off..off + HEADER_SIZE];
      assert c.got[HEADER_SIZE..] == r.buf[off + HEADER_SIZE..off + |c.got|];
    }
  }

  /** The reader's position, its copy and the log are as before. */
  lemma ReadSame(s: System, s': System)
    requires |s.r.buf| > 0 && ReadInv(s)
    requires s'.r.buf == s.r.buf && s'.r.writePos == s.r.writePos && s'.r.readPos == s.r.readPos
    requires s'.consumer == s.consumer && s'.appended == s.appended && s'.delivered == s.delivered
    requires Clear(s')
    ensures ReadInv(s')
  {
    hide Parse, Entries, Wanted, Clear;
  }

  /** Bytes are stored outside the unread ones, so the copy is still what the ring holds. */
  lemma ReadFramed(s: System, s': System)
    requires CoreInv(s) && ReadInv(s) && ScribbleStep(s, s')
    ensures |s'.r.buf| > 0 && ReadInv(s')
  {
    hide Parse, EntrySize, Decode, Entries, Agree, Outside, Wanted, Logged, Handed;
    var a, b := s.r.buf, s'.r.buf;
    ScribbleFrame(s, s', s.r.readPos);
    HoldsFramed(s, s', s.r.readPos, s.delivered);
    AgreeLengths(a, b, s.r.readPos, s.r.writePos);
    if s.consumer.Reading? {
      GotInWindow(s.r, s.consumer);
      AgreeSlice(a, b, s.r.readPos, s.r.writePos, 0, |s.consumer.got|);
    }
  }

  lemma ReadExtended(s: System, s': System, c: Cell)
    requires |s.r.buf| > 0 && ReadInv(s) && s'.r.buf == s.r.buf && s.r.writePos <= s'.r.writePos
    requires s'.r.readPos == s.r.readPos && s'.consumer == s.consumer && s'.delivered == s.delivered
    requires Parse(s.r.buf, s.r.writePos, s'.r.writePos) == Some([c])
    requires Entries(s'.appended) == Entries(s.appended) + Entries([c])
    requires !s'.producer.Marking? && !s'.producer.Writing?
    ensures ReadInv(s')
  {
    hide Parse, Entries, Wanted;
    HoldsExtended(s, s', s.r.readPos, s.delivered, c);
  }

  lemma ReadOneByte(s: System, s': System)
    requires |s.r.buf| > 0 && ReadInv(s) && ReadByteStep(s, s')
    ensures ReadInv(s')
  {
    hide Parse, Decode, Entries, EntrySize;
    var got, got' := s.consumer.got, s'.consumer.got;
    if |got| >= HEADER_SIZE {
      assert got'[..HEADER_SIZE] == got[..HEADER_SIZE];
    }
  }

  lemma ReadFinished(s: System, s': System)
    requires |s.r.buf| > 0 && ReadInv(s) && FinishReadStep(s, s')
    ensures ReadInv(s')
  {
    hide Parse, EntrySize, Decode, Entries, CellAt, Wanted, CellOf;
    ParseBound(s.r.buf, s.r.readPos, s.r.writePos);
    GotInWindow(s.r, s.consumer);
    var c := CellOf(s.consumer.got);
    ParseOne(s.r.buf, s.r.readPos, c);
    HoldsPassed(s, s.r.readPos, s.r.readPos + c.Size(), s.delivered);
  }

  /** What is unread stays what was appended and not delivered, while no unread byte is overwritten. */
  lemma ReadKept(s: System, s': System, step: Step)
    requires CoreInv(s) && NextStep(s, s', step) && !s'.unmarked && !s'.lapped && ReadInv(s)
    ensures |s'.r.buf| > 0 && ReadInv(s')
  {
    hide Parse, EntrySize, Encode, Decode, EntryBytes, Entries, Wanted, CellOf, Length, Outside, Logged, Handed,
         Full, ReadInv, EntryCell, ConsumerInv, Representable;
    match step
    case Begin(kind, data, now) => ReadTaken(s, s', step);
    case Retry => ReadTaken(s, s', step);
    case Scribble => ReadFramed(s, s');
    case MarkerDone =>
      var c := MarkerPublished(s, s');
      ReadExtended(s, s', c);
    case EntryDone =>
      var c := EntryPublished(s, s');
      ReadExtended(s, s', c);
    case StartRead => ReadStarted(s, s', step);
    case ConsumerRestart => ReadStarted(s, s', step);
    case ReadByte => ReadOneByte(s, s');
    case FinishRead => ReadFinished(s, s');
    case Confirm(pos) => ReadCounted(s, s', step);
    case Drift(pos) =>
    case _ => ReadCounted(s, s', step);
  }

  lemma ReadTaken(s: System, s': System, step: Step)
    requires CoreInv(s) && NextStep(s, s', step) && !s'.lapped && ReadInv(s)
    requires step.Begin? || step.Retry?
    ensures ReadInv(s')
  {
    hide Parse, EntrySize, Entries, Wanted, Full, NeedsWrap, Representable, CellOf, Encode, EntryBytes, Outside,
         ReadInv, Logged, Handed;
    ReadSame(s, s');
  }

  lemma ReadCounted(s: System, s': System, step: Step)
    requires CoreInv(s) && NextStep(s, s', step) && ReadInv(s)
    requires step.WrapCounted? || step.EntryCounted? || step.ProducerRestart? || step.Confirm?
    ensures ReadInv(s')
  {
    hide Parse, EntrySize, Entries, Wanted, Full, Representable, CellOf, Encode, EntryBytes, Outside, Holds,
         ConsumerInv, Logged, Handed;
    ReadSame(s, s');
  }

  lemma ReadStarted(s: System, s': System, step: Step)
    requires |s.r.buf| > 0 && NextStep(s, s', step) && ReadInv(s)
    requires step.StartRead? || step.ConsumerRestart?
    ensures ReadInv(s')
  {
    hide Parse, EntrySize, Entries, Full, Representable, CellOf, Encode, EntryBytes, Outside, Decode;
  }

  // ---------------------------------------------------------------- both

  /** The invariant is kept by every step. */
  lemma Kept(s: System, s': System, step: Step)
    requires Inv(s) && NextStep(s, s', step)
    ensures Inv(s')
  {
    hide CoreInv, ChainInv, ReadInv, NextStep;
    CoreKept(s, s', step);
    FlagsStay(s, s', step);
    if !s'.unmarked {
      ChainKept(s, s', step);
      if !s'.lapped {
        ReadKept(s, s', step);
      }
    }
  }

  lemma FlagsStay(s: System, s': System, step: Step)
    requires CoreInv(s) && NextStep(s, s', step)
    ensures s.unmarked ==> s'.unmarked
    ensures s.lapped ==> s'.lapped
  {
    hide EntryBytes, Encode, Decode, Parse, EntrySize, Entries, Length, CellOf, Representable, Full, Outside, Wanted,
         Logged, Handed, ProducerInv, EntryCell, NeedsWrap;
  }

  // ---------------------------------------------------------------- recovery

  /** The entries a recovery would find. */
  function Unconfirmed(s: System): seq<Cell>
    requires |s.r.buf| > 0 && Parse(s.r.buf, s.r.confirmedPos, s.r.writePos).Some?
  {
    Entries(Parse(s.r.buf, s.r.confirmedPos, s.r.writePos).value)
  }

  /**
   * Only the publication of an entry changes what a recovery finds, and it adds just that entry,
   * unless its type is 0: a producer that stops before it, or is started again, leaves the log as it was.
   */
  lemma StoppedProducer(s: System, s': System, step: Step)
    requires Inv(s) && NextStep(s, s', step) && !s'.unmarked && !step.Confirm?
    ensures Inv(s')
    ensures step.EntryDone? ==>
              && s.producer.Writing?
              && var c := EntryCell(s.producer.seqNo, s.producer.kind, s.producer.data, s.producer.now);
                 && s'.appended == s.appended + [c]
                 && Unconfirmed(s') == Unconfirmed(s) + (if s.producer.kind != 0 then [c] else [])
    ensures !step.EntryDone? ==> s'.appended == s.appended && Unconfirmed(s') == Unconfirmed(s)
  {
    hide ProducerInv, Logged, Handed, ReadInv, NextStep, Entries, Parse, EntryCell, Sound, Ordered;
    FlagsStay(s, s', step);
    Kept(s, s', step);
    LogGrows(s, s', step);
    var found, found' := Unconfirmed(s), Unconfirmed(s');
    if step.EntryDone? && s.producer.kind != 0 {
      var c := EntryCell(s.producer.seqNo, s.producer.kind, s.producer.data, s.producer.now);
      Regroup(s.confirmed, found, [c]);
      SameFront(s.confirmed, found + [c], found');
    } else {
      SameFront(s.confirmed, found, found');
    }
  }

  lemma SameFront<T>(front: seq<T>, a: seq<T>, b: seq<T>)
    requires front + a == front + b
    ensures a == b
  {
    assert a == (front + a)[|front|..] && b == (front + b)[|front|..];
  }

  lemma LogGrows(s: System, s': System, step: Step)
    requires CoreInv(s) && NextStep(s, s', step)
    ensures !step.Confirm? ==> s'.confirmed == s.confirmed
    ensures !step.EntryDone? ==> s'.appended == s.appended
    ensures step.EntryDone? ==>
              && s.producer.Writing?
              && var c := EntryCell(s.producer.seqNo, s.producer.kind, s.producer.data, s.producer.now);
                 && s'.appended == s.appended + [c]
                 && Entries(s'.appended) == Entries(s.appended) + (if s.producer.kind != 0 then [c] else [])
  {
    hide EntryBytes, Encode, Decode, Parse, EntrySize, Entries, Length, CellOf, Representable, Full, Outside, Wanted,
         Logged, Handed, EntryCell, NeedsWrap;
    if step.EntryDone? {
      var c := EntryPublished(s, s');
    }
  }
}
