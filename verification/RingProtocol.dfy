/**
 * One producer and one consumer on the ring, step by step. Atomic operations are sequentially
 * consistent; between them the producer may have stored any part of an entry. Either side may stop
 * anywhere, for ever or until its program is started again on the ring as it stands.
 */
module RingProtocol {
  import opened WalEntry
  import opened RingSpec
  import opened RingLemmas
  import opened RingReaders

  datatype Producer =
    | Idle
    | Marking(kind: nat, data: seq<bv8>, now: nat)                 // a wrap was decided, the marker is being stored
    | Wrapped(kind: nat, data: seq<bv8>, now: nat)                 // the wrap is published and not yet counted
    | Retrying(kind: nat, data: seq<bv8>, now: nat)                // Append calls itself
    | Writing(kind: nat, data: seq<bv8>, now: nat, seqNo: nat)     // the entry is being stored
    | Counting(size: nat, seqNo: nat)                              // the entry is published and not yet counted

  datatype Consumer =
    | Ready
    | Reading(end: nat, got: seq<bv8>)                             // end: the write position it loaded

  /**
   * The ring, both programs, and what happened so far: the cells appended, the numbers returned for
   * them, the entries delivered and the entries confirmed; lost, how many numbers a producer had taken
   * and not counted when it stopped; unmarked, whether a wrap had no room for a marker; lapped, whether
   * a place was taken that ends more than one buffer behind the read position; overrun, whether a
   * confirmation passed the write position.
   */
  datatype System = System(
    r: Ring, maxEntry: nat, producer: Producer, consumer: Consumer,
    appended: seq<Cell>, returned: seq<nat>, delivered: seq<Cell>, confirmed: seq<Cell>,
    lost: nat, unmarked: bool, lapped: bool, overrun: bool)

  datatype Step =
    | Begin(kind: nat, data: seq<bv8>, now: nat)
    | Scribble
    | MarkerDone
    | WrapCounted
    | Retry
    | EntryDone
    | EntryCounted
    | ProducerRestart
    | StartRead
    | ReadByte
    | FinishRead
    | ConsumerRestart
    | Confirm(pos: nat)
    | Drift(pos: nat)

  function Offset(r: Ring): nat
    requires |r.buf| > 0
  {
    r.writePos % |r.buf|
  }

  /** Where the bytes end that an Append is about to store: a marker or an entry. */
  function PlaceEnd(r: Ring, len: nat): nat
    requires |r.buf| > 0
  {
    r.writePos + if NeedsWrap(r, len) then HEADER_SIZE else EntrySize(len)
  }

  ghost predicate Init(s: System) {
    && 0 < |s.r.buf| < WORD / 2 && |s.r.buf| % 8 == 0
    && s.r == Ring(s.r.buf, 0, 0, 0, 1, 0, 0, 0)
    && s.producer == Idle && s.consumer == Ready
    && s.appended == [] && s.returned == [] && s.delivered == [] && s.confirmed == []
    && s.lost == 0 && !s.unmarked && !s.lapped && !s.overrun
  }

  // ---------------------------------------------------------------- steps

  /** A number is taken and a place is picked. */
  ghost predicate Take(s: System, s': System, kind: nat, data: seq<bv8>, now: nat)
    requires |s.r.buf| > 0
  {
    s' == s.(r := s.r.(nextSeq := s.r.nextSeq + 1),
             producer := if NeedsWrap(s.r, |data|) then Marking(kind, data, now) else Writing(kind, data, now, s.r.nextSeq),
             lapped := s.lapped || PlaceEnd(s.r, |data|) > s.r.readPos + |s.r.buf|)
  }

  /** The confirmed position is loaded; the call fails, or takes a number and picks its place. */
  ghost predicate BeginStep(s: System, s': System, kind: nat, data: seq<bv8>, now: nat)
    requires |s.r.buf| > 0
  {
    && s.producer == Idle
    && Representable(s.r.nextSeq + 1, kind, data, now)
    && if Full(s.r, s.maxEntry, |data|) then s' == s else Take(s, s', kind, data, now)
  }

  /** Any bytes of the place the producer is storing to change. */
  ghost predicate ScribbleStep(s: System, s': System)
    requires |s.r.buf| > 0
  {
    && s' == s.(r := s.r.(buf := s'.r.buf))
    && ((s.producer.Marking? && |s.r.buf| - Offset(s.r) >= HEADER_SIZE
           && Outside(s.r.buf, s'.r.buf, Offset(s.r), HEADER_SIZE))
        || (s.producer.Writing? && Outside(s.r.buf, s'.r.buf, Offset(s.r), EntrySize(|s.producer.data|))))
  }

  /** With the marker complete, where there is room for one, the wrap is published. */
  ghost predicate MarkerDoneStep(s: System, s': System)
    requires |s.r.buf| > 0
  {
    var off := Offset(s.r);
    var remaining := |s.r.buf| - off;
    && s.producer.Marking?
    && (remaining >= HEADER_SIZE ==> s.r.buf[off..off + HEADER_SIZE] == Encode(SkipHeader(remaining)))
    && s' == s.(r := s.r.(writePos := s.r.writePos + remaining),
                producer := Wrapped(s.producer.kind, s.producer.data, s.producer.now),
                unmarked := s.unmarked || remaining < HEADER_SIZE)
  }

  ghost predicate WrapCountedStep(s: System, s': System) {
    && s.producer.Wrapped?
    && s' == s.(r := s.r.(wrapCount := s.r.wrapCount + 1),
                producer := Retrying(s.producer.kind, s.producer.data, s.producer.now))
  }

  ghost predicate RetryStep(s: System, s': System)
    requires |s.r.buf| > 0
  {
    && s.producer.Retrying?
    && var Retrying(kind, data, now) := s.producer;
    && Representable(s.r.nextSeq + 1, kind, data, now)
    && if Full(s.r, s.maxEntry, |data|) then s' == s.(producer := Idle) else Take(s, s', kind, data, now)
  }

  /** With the entry complete, it is published. */
  ghost predicate EntryDoneStep(s: System, s': System)
    requires |s.r.buf| > 0
  {
    && s.producer.Writing?
    && var Writing(kind, data, now, seqNo) := s.producer;
    && Offset(s.r) + HEADER_SIZE + |data| <= |s.r.buf|
    && s.r.buf[Offset(s.r)..Offset(s.r) + HEADER_SIZE + |data|] == EntryBytes(seqNo, now, kind, data)
    && s' == s.(r := s.r.(writePos := s.r.writePos + EntrySize(|data|)),
                producer := Counting(EntrySize(|data|), seqNo),
                appended := s.appended + [EntryCell(seqNo, kind, data, now)])
  }

  /** The entry is counted and its number returned. */
  ghost predicate EntryCountedStep(s: System, s': System) {
    && s.producer.Counting?
    && s' == s.(r := s.r.(totalEntries := s.r.totalEntries + 1, totalBytes := s.r.totalBytes + s.producer.size),
                producer := Idle,
                returned := s.returned + [s.producer.seqNo])
  }

  /** A number taken and not yet counted. */
  function InFlight(p: Producer): nat {
    if p.Marking? || p.Wrapped? || p.Writing? || p.Counting? then 1 else 0
  }

  /** The producer stopped where it was, and its program is started again. */
  ghost predicate ProducerRestartStep(s: System, s': System) {
    s' == s.(producer := Idle, lost := s.lost + InFlight(s.producer))
  }

  ghost predicate StartReadStep(s: System, s': System) {
    && s.consumer == Ready
    && s' == if s.r.readPos >= s.r.writePos then s else s.(consumer := Reading(s.r.writePos, []))
  }

  /** How many bytes of a cell the reader wants, from what it has of it. */
  function Wanted(got: seq<bv8>): nat {
    if |got| < HEADER_SIZE then HEADER_SIZE else HEADER_SIZE + Decode(got[..HEADER_SIZE]).dataLen
  }

  ghost predicate ReadByteStep(s: System, s': System)
    requires |s.r.buf| > 0
  {
    && s.consumer.Reading?
    && var Reading(end, got) := s.consumer;
    && |got| < Wanted(got)
    && s.r.readPos % |s.r.buf| + |got| < |s.r.buf|
    && s' == s.(consumer := Reading(end, got + [s.r.buf[s.r.readPos % |s.r.buf| + |got|]]))
  }

  function CellOf(got: seq<bv8>): Cell
    requires |got| >= HEADER_SIZE
  {
    Cell(Decode(got[..HEADER_SIZE]), got[HEADER_SIZE..])
  }

  /** The cell is complete: it is delivered, or passed over, and the reader goes on. */
  ghost predicate FinishReadStep(s: System, s': System) {
    && s.consumer.Reading?
    && var got := s.consumer.got;
    && |got| >= HEADER_SIZE && |got| == Wanted(got)
    && s' == s.(r := s.r.(readPos := s.r.readPos + CellOf(got).Size()),
                consumer := Ready,
                delivered := s.delivered + Entries([CellOf(got)]))
  }

  /** The consumer stopped where it was, and its program is started again. */
  ghost predicate ConsumerRestartStep(s: System, s': System) {
    s' == s.(consumer := Ready)
  }

  /** The cells up to a position are confirmed, read or not: the walk over the window met only bytes that decode. */
  ghost predicate ConfirmStep(s: System, s': System, pos: nat)
    requires |s.r.buf| > 0
  {
    && pos <= s.r.writePos && Parse(s.r.buf, s.r.confirmedPos, pos).Some?
    && s' == s.(r := s.r.(confirmedPos := pos),
                confirmed := s.confirmed + Entries(Parse(s.r.buf, s.r.confirmedPos, pos).value))
  }

  /**
   * After an unmarked wrap the walk may meet bytes that were never written as a header. It goes on
   * from any position before the write position by any length, and may end behind the write position.
   */
  ghost predicate DriftStep(s: System, s': System, pos: nat) {
    && s.unmarked
    && s.r.confirmedPos <= pos && pos % 8 == 0
    && s.r.confirmedPos < s.r.writePos && pos < s.r.writePos + LONGEST
    && s' == s.(r := s.r.(confirmedPos := pos), overrun := s.overrun || pos > s.r.writePos)
  }

  ghost predicate NextStep(s: System, s': System, step: Step)
    requires |s.r.buf| > 0
  {
    match step
    case Begin(kind, data, now) => BeginStep(s, s', kind, data, now)
    case Scribble => ScribbleStep(s, s')
    case MarkerDone => MarkerDoneStep(s, s')
    case WrapCounted => WrapCountedStep(s, s')
    case Retry => RetryStep(s, s')
    case EntryDone => EntryDoneStep(s, s')
    case EntryCounted => EntryCountedStep(s, s')
    case ProducerRestart => ProducerRestartStep(s, s')
    case StartRead => StartReadStep(s, s')
    case ReadByte => ReadByteStep(s, s')
    case FinishRead => FinishReadStep(s, s')
    case ConsumerRestart => ConsumerRestartStep(s, s')
    case Confirm(pos) => ConfirmStep(s, s', pos)
    case Drift(pos) => DriftStep(s, s', pos)
  }

  // ---------------------------------------------------------------- invariant

  /** The producer's place is free of unconfirmed bytes. */
  ghost predicate ProducerInv(r: Ring, p: Producer)
    requires |r.buf| > 0
  {
    match p
    case Idle => true
    case Marking(kind, data, now) =>
      && r.writePos + EntrySize(|data|) <= r.confirmedPos + |r.buf|
      && NeedsWrap(r, |data|)
      && Representable(0, kind, data, now)
    case Wrapped(kind, data, now) => true
    case Retrying(kind, data, now) => true
    case Writing(kind, data, now, seqNo) =>
      && r.writePos + EntrySize(|data|) <= r.confirmedPos + |r.buf|
      && !NeedsWrap(r, |data|)
      && Representable(seqNo, kind, data, now)
      && 0 < seqNo == r.nextSeq - 1
    case Counting(size, seqNo) => 0 < seqNo == r.nextSeq - 1
  }

  /** What the consumer copied is what the ring holds. */
  ghost predicate ConsumerInv(r: Ring, c: Consumer)
    requires |r.buf| > 0
  {
    c.Reading? ==>
      && r.readPos < c.end <= r.writePos
      && r.readPos % |r.buf| + |c.got| <= |r.buf|
      && c.got == r.buf[r.readPos % |r.buf|..r.readPos % |r.buf| + |c.got|]
      && |c.got| <= Wanted(c.got)
  }

  /** All numbers of appended cells lie below it. */
  function Bound(s: System): nat {
    if s.producer.Writing? then s.producer.seqNo else s.r.nextSeq
  }

  /** All numbers returned lie below it. */
  function Due(s: System): nat {
    if s.producer.Writing? || s.producer.Counting? then s.producer.seqNo else s.r.nextSeq
  }

  ghost predicate Increasing(xs: seq<nat>, bound: nat) {
    && (forall i :: 0 <= i < |xs| ==> 1 <= xs[i] < bound)
    && (forall i, j :: 0 <= i < j < |xs| ==> xs[i] < xs[j])
  }

  function Numbers(cells: seq<Cell>): seq<nat> {
    seq(|cells|, i requires 0 <= i < |cells| => cells[i].hdr.seqNo)
  }

  /** The cells appended carry growing numbers, their data and valid checksums. */
  ghost predicate Logged(appended: seq<Cell>, bound: nat) {
    && Increasing(Numbers(appended), bound)
    && forall i :: 0 <= i < |appended| ==>
         |appended[i].data| == appended[i].hdr.dataLen && ValidateCrc(appended[i].hdr, appended[i].data)
  }

  /** The numbers returned grow, and each was given to a cell that is published. */
  ghost predicate Handed(s: System) {
    && Increasing(s.returned, Due(s))
    && (forall i :: 0 <= i < |s.returned| ==> s.returned[i] in Numbers(s.appended))
    && (s.producer.Counting? ==> s.producer.seqNo in Numbers(s.appended))
  }

  /** From pos on, readers decode exactly the entries appended after those already dealt with. */
  ghost predicate Holds(s: System, pos: nat, done: seq<Cell>)
    requires |s.r.buf| > 0
  {
    && Parse(s.r.buf, pos, s.r.writePos).Some?
    && Entries(s.appended) == done + Entries(Parse(s.r.buf, pos, s.r.writePos).value)
  }

  /** The unconfirmed bytes are one chain of markers and valid entries, numbered in order; no entry is missing. */
  ghost predicate ChainInv(s: System)
    requires |s.r.buf| > 0
  {
    && Holds(s, s.r.confirmedPos, s.confirmed)
    && Sound(Parse(s.r.buf, s.r.confirmedPos, s.r.writePos).value)
    && Ordered(Parse(s.r.buf, s.r.confirmedPos, s.r.writePos).value, Bound(s))
  }

  /** The place the producer is storing to is free of unread bytes. */
  ghost predicate Clear(s: System)
    requires |s.r.buf| > 0
  {
    && (s.producer.Marking? ==> s.r.writePos + HEADER_SIZE <= s.r.readPos + |s.r.buf|)
    && (s.producer.Writing? ==> s.r.writePos + EntrySize(|s.producer.data|) <= s.r.readPos + |s.r.buf|)
  }

  /** The chain has a boundary at the read position, and what follows is what was not delivered. */
  ghost predicate ReadInv(s: System)
    requires |s.r.buf| > 0
  {
    && Holds(s, s.r.readPos, s.delivered)
    && ConsumerInv(s.r, s.consumer)
    && Clear(s)
  }

  /** Facts of every run. */
  ghost predicate CoreInv(s: System) {
    && Bounded(s.r)
    && (!s.overrun ==> s.r.confirmedPos <= s.r.writePos)
    && (s.overrun ==> s.unmarked)
    && ProducerInv(s.r, s.producer)
    && s.r.nextSeq == 1 + s.r.totalEntries + s.r.wrapCount + InFlight(s.producer) + s.lost
    && Logged(s.appended, Bound(s))
    && Handed(s)
  }

  /** The chain holds while every wrap had room for a marker, the rest while no unread byte was overwritten either. */
  ghost predicate Inv(s: System) {
    && CoreInv(s)
    && (!s.unmarked ==> ChainInv(s))
    && (!s.unmarked && !s.lapped ==> ReadInv(s))
  }
}
