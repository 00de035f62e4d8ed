/** Whole runs of the ring protocol. */
module RingRuns {
  import opened Common
  import opened WalEntry
  import opened RingSpec
  import opened RingLemmas
  import opened RingReaders
  import opened RingProtocol
  import opened RingSafety

  ghost predicate Next(s: System, s': System) {
    |s.r.buf| > 0 && exists step :: NextStep(s, s', step)
  }

  ghost predicate Steps(run: seq<System>) {
    forall i :: 0 <= i < |run| - 1 ==> Next(run[i], run[i + 1])
  }

  /** A run from a reset ring, stopped anywhere. */
  ghost predicate Run(run: seq<System>) {
    |run| > 0 && Init(run[0]) && Steps(run)
  }

  lemma InitInv(s: System)
    requires Init(s)
    ensures Inv(s)
  {
    hide CellAt;
    assert Parse(s.r.buf, 0, 0) == Some([]);
    assert Entries(s.appended) == s.delivered + Entries([]) == s.confirmed + Entries([]);
  }

  lemma {:induction false} Reached(run: seq<System>, i: nat)
    requires Run(run) && i < |run|
    ensures Inv(run[i])
  {
    hide Inv, Init, NextStep;
    if i == 0 {
      InitInv(run[0]);
    } else {
      Reached(run, i - 1);
      assert Next(run[i - 1], run[i]);
      var step :| NextStep(run[i - 1], run[i], step);
      Kept(run[i - 1], run[i], step);
    }
  }

  /**
   * Unconfirmed bytes never exceed the buffer and are never overwritten, whatever the sizes of the
   * entries, the wraps, the order of steps and the path of the confirmed position.
   */
  lemma NeverOverwritten(run: seq<System>, i: nat)
    requires Run(run) && i + 1 < |run|
    ensures run[i].r.writePos <= run[i].r.confirmedPos + |run[i].r.buf|
    ensures Agree(run[i].r.buf, run[i + 1].r.buf, run[i].r.confirmedPos, run[i].r.writePos)
  {
    hide NextStep, ProducerInv, ChainInv, ReadInv, Logged, Handed;
    Reached(run, i);
    assert Next(run[i], run[i + 1]);
    var step :| NextStep(run[i], run[i + 1], step);
    WindowStable(run[i], run[i + 1], step);
  }

  /** Every confirmation walked over cells that decode. */
  ghost predicate Guarded(run: seq<System>) {
    forall i :: 0 <= i < |run| - 1 ==> NextGuarded(run[i], run[i + 1])
  }

  ghost predicate NextGuarded(s: System, s': System) {
    |s.r.buf| > 0 && exists step :: NextStep(s, s', step) && !step.Drift?
  }

  lemma OverrunStep(s: System, s': System, step: Step)
    requires CoreInv(s) && NextStep(s, s', step)
    ensures s.overrun ==> s'.overrun
    ensures !s.overrun ==> (s'.overrun <==> !InPlace(s'))
    ensures !step.Drift? ==> s'.overrun == s.overrun
  {
    hide EntryBytes, Encode, Decode, Parse, EntrySize, Entries, Length, CellOf, Representable, Full, ProducerInv,
         Outside, Logged, Handed, EntryCell, Wanted, NeedsWrap;
    CoreKept(s, s', step);
  }

  ghost predicate InPlace(s: System) {
    s.r.confirmedPos <= s.r.writePos
  }

  lemma RunStep(run: seq<System>, i: nat) returns (step: Step)
    requires Run(run) && i + 1 < |run|
    ensures CoreInv(run[i]) && NextStep(run[i], run[i + 1], step)
    ensures Guarded(run) ==> !step.Drift?
  {
    hide Init, NextStep, ChainInv, ReadInv, CoreInv;
    Reached(run, i);
    assert Next(run[i], run[i + 1]);
    step :| NextStep(run[i], run[i + 1], step);
    if Guarded(run) {
      assert NextGuarded(run[i], run[i + 1]);
      step :| NextStep(run[i], run[i + 1], step) && !step.Drift?;
    }
  }

  /**
   * The confirmed position stays behind the write position in all states of a run exactly when no
   * confirmation has passed the write position.
   */
  lemma {:induction false} OccupancyExactly(run: seq<System>)
    requires Run(run)
    ensures (forall i :: 0 <= i < |run| ==> InPlace(run[i])) <==> !run[|run| - 1].overrun
  {
    hide Next, Init, InPlace, Guarded;
    var n := |run| - 1;
    if n == 0 {
      StartsInPlace(run[0]);
    } else {
      assert forall i :: 0 <= i < n ==> run[..n][i] == run[i];
      OccupancyExactly(run[..n]);
      OverrunLast(run);
    }
  }

  /** The last step of a run. */
  lemma OverrunLast(run: seq<System>)
    requires Run(run) && |run| > 1
    ensures var s, s' := run[|run| - 2], run[|run| - 1];
            && (s.overrun ==> s'.overrun)
            && (!s.overrun ==> (s'.overrun <==> !InPlace(s')))
            && (Guarded(run) ==> s'.overrun == s.overrun)
  {
    hide Run, Guarded, NextStep, CoreInv, InPlace;
    var step := RunStep(run, |run| - 2);
    OverrunStep(run[|run| - 2], run[|run| - 1], step);
  }

  /** None passes it when every confirmation walks over cells that decode, nor while every wrap had room for a marker. */
  lemma GuardedInPlace(run: seq<System>)
    requires Run(run)
    ensures Guarded(run) || !run[|run| - 1].unmarked ==> forall i :: 0 <= i < |run| ==> InPlace(run[i])
  {
    var n: nat := |run| - 1;
    hide *;
    OccupancyExactly(run);
    CoreReached(run, n);
    NoOverrun(run);
  }

  lemma {:induction false} NoOverrun(run: seq<System>)
    requires Run(run)
    ensures Guarded(run) ==> !run[|run| - 1].overrun
  {
    hide Next, Init, NextGuarded;
    var n := |run| - 1;
    if n == 0 {
      StartsInPlace(run[0]);
    } else if Guarded(run) {
      GuardedFront(run);
      NoOverrun(run[..n]);
      OverrunLast(run);
    }
  }

  lemma GuardedFront(run: seq<System>)
    requires Run(run) && Guarded(run) && |run| > 1
    ensures Run(run[..|run| - 1]) && Guarded(run[..|run| - 1])
  {
    hide Next, NextGuarded, Init;
  }

  lemma CoreReached(run: seq<System>, i: nat)
    requires Run(run) && i < |run|
    ensures run[i].overrun ==> run[i].unmarked
  {
    hide Run, ChainInv, ReadInv, Logged, Handed, ProducerInv;
    Reached(run, i);
  }

  lemma StartsInPlace(s: System)
    requires Init(s)
    ensures InPlace(s) && !s.overrun && !s.lapped
  {
  }

  /**
   * Between calls of Append, each number taken went to an entry, a wrap or a call during which the
   * producer stopped. The numbers of the cells appended grow, and their data and checksums are intact;
   * the numbers returned grow, and each is that of a cell appended.
   */
  lemma NumbersAccounted(run: seq<System>)
    requires Run(run)
    ensures var s := run[|run| - 1];
            && (s.producer == Idle ==> s.r.nextSeq == 1 + s.r.totalEntries + s.r.wrapCount + s.lost)
            && Logged(s.appended, s.r.nextSeq)
            && Increasing(s.returned, s.r.nextSeq)
            && (forall i :: 0 <= i < |s.returned| ==> s.returned[i] in Numbers(s.appended))
  {
    hide Steps, Init, ChainInv, ReadInv, EntrySize, ValidateCrc, Numbers;
    Reached(run, |run| - 1);
  }

  /**
   * While every wrap had room for a marker, the unconfirmed bytes decode as one chain that ends at
   * the write position: markers, and entries with valid checksums and growing numbers.
   */
  lemma WindowParses(run: seq<System>)
    requires Run(run) && !run[|run| - 1].unmarked
    ensures var s := run[|run| - 1];
            && |s.r.buf| > 0 && Parse(s.r.buf, s.r.confirmedPos, s.r.writePos).Some?
            && Sound(Parse(s.r.buf, s.r.confirmedPos, s.r.writePos).value)
            && Ordered(Parse(s.r.buf, s.r.confirmedPos, s.r.writePos).value, s.r.nextSeq)
  {
    hide Steps, Init, ReadInv, Ordered, Sound, CellAt, Logged, Handed, Parse, Entries;
    var s := run[|run| - 1];
    Reached(run, |run| - 1);
    OrderedWeaken(Parse(s.r.buf, s.r.confirmedPos, s.r.writePos).value, Bound(s), s.r.nextSeq);
  }

  /** Among cells appended with their numbers, the entries are those whose type is not 0. */
  lemma {:induction false} TypedOnly(appended: seq<Cell>)
    requires forall i :: 0 <= i < |appended| ==>
               && appended[i].hdr.seqNo > 0
               && |appended[i].data| == appended[i].hdr.dataLen && ValidateCrc(appended[i].hdr, appended[i].data)
    ensures (forall i :: 0 <= i < |appended| ==> appended[i].hdr.kind != 0) <==> Entries(appended) == appended
  {
    hide ValidateCrc, EntrySize;
    if appended == [] {
    } else {
      var rest := appended[1..];
      TypedOnly(rest);
      EntriesFewer(rest);
      assert appended[0].IsEntry() <==> appended[0].hdr.kind != 0;
      if appended[0].hdr.kind != 0 {
        assert Entries(appended)[1..] == Entries(rest);
        assert forall i :: 1 <= i < |appended| ==> appended[i] == rest[i - 1];
      }
    }
  }

  lemma LoggedCells(appended: seq<Cell>, bound: nat)
    requires Logged(appended, bound)
    ensures forall i :: 0 <= i < |appended| ==>
              && appended[i].hdr.seqNo > 0
              && |appended[i].data| == appended[i].hdr.dataLen && ValidateCrc(appended[i].hdr, appended[i].data)
  {
    hide ValidateCrc;
    assert forall i :: 0 <= i < |appended| ==> appended[i].hdr.seqNo == Numbers(appended)[i];
  }

  lemma {:induction false} EntriesFewer(cells: seq<Cell>)
    ensures |Entries(cells)| <= |cells|
  {
    hide ValidateCrc, EntrySize;
    if cells == [] {
    } else {
      EntriesFewer(cells[1..]);
    }
  }

  /**
   * While every wrap had room for a marker and no place was taken more than one buffer behind the read
   * position, the consumer has received exactly the first entries appended, in order, once each and
   * with their bytes; when it has caught up, all of them. They are all that was appended exactly when
   * no type is 0.
   */
  lemma FirstInFirstOut(run: seq<System>)
    requires Run(run) && !run[|run| - 1].unmarked && !run[|run| - 1].lapped
    ensures var s := run[|run| - 1];
            && s.delivered <= Entries(s.appended)
            && (s.r.readPos == s.r.writePos ==> s.delivered == Entries(s.appended))
            && ((forall i :: 0 <= i < |s.appended| ==> s.appended[i].hdr.kind != 0) <==> Entries(s.appended) == s.appended)
  {
    hide Steps, Init, ProducerInv, ConsumerInv, ChainInv, CellAt, Entries, Logged, Handed, Clear, Parse;
    Reached(run, |run| - 1);
    var s := run[|run| - 1];
    LoggedCells(s.appended, Bound(s));
    TypedOnly(s.appended);
    if s.r.readPos == s.r.writePos {
      ParseNothing(s.r.buf, s.r.readPos);
    }
  }

  /** A step of a ring in which nothing is confirmed unread takes no place behind the read position. */
  lemma LapStep(s: System, s': System, step: Step)
    requires CoreInv(s) && NextStep(s, s', step) && s.r.confirmedPos <= s.r.readPos
    ensures s'.lapped == s.lapped
  {
    hide EntryBytes, Encode, Decode, Parse, EntrySize, Entries, Length, CellOf, Full, Outside, Logged, Handed,
         EntryCell, Wanted;
    if step.Begin? || step.Retry? {
      var data := if step.Begin? then step.data else s.producer.data;
      FullExactly(s.r, s.maxEntry, |data|);
      SizeBound(|data|);
    }
  }

  /** Nothing is confirmed before it is read. */
  ghost predicate ReadFirst(run: seq<System>) {
    forall i :: 0 <= i < |run| ==> run[i].r.confirmedPos <= run[i].r.readPos
  }

  /** Confirming only what was read is enough for the order of delivery. */
  lemma {:induction false} ReadFirstInOrder(run: seq<System>)
    requires Run(run) && ReadFirst(run)
    ensures !run[|run| - 1].lapped
    ensures !run[|run| - 1].unmarked ==> run[|run| - 1].delivered <= Entries(run[|run| - 1].appended)
  {
    hide Entries, NextStep, CoreInv, Init, Next;
    var n := |run| - 1;
    if n == 0 {
      StartsInPlace(run[0]);
    } else {
      ReadFirstInOrder(run[..n]);
      var step := RunStep(run, n - 1);
      LapStep(run[n - 1], run[n], step);
    }
    if !run[n].unmarked {
      FirstInFirstOut(run);
    }
  }

  /** Some entry was delivered in the place of another one. */
  ghost predicate Disordered(s: System) {
    exists i :: 0 <= i < |s.delivered| && i < |Entries(s.appended)| && s.delivered[i] != Entries(s.appended)[i]
  }

  /** A wrong order is never repaired. */
  lemma DisorderStays(s: System, s': System, step: Step)
    requires CoreInv(s) && NextStep(s, s', step) && Disordered(s)
    ensures Disordered(s') && !(s'.delivered <= Entries(s'.appended))
  {
    hide CoreInv, NextStep, Entries, EntryCell;
    var i :| 0 <= i < |s.delivered| && i < |Entries(s.appended)| && s.delivered[i] != Entries(s.appended)[i];
    LogGrows(s, s', step);
    DeliveredGrows(s, s', step);
    assert s'.delivered[i] == s.delivered[i] && Entries(s'.appended)[i] == Entries(s.appended)[i];
  }

  lemma DeliveredGrows(s: System, s': System, step: Step)
    requires CoreInv(s) && NextStep(s, s', step)
    ensures s.delivered <= s'.delivered
  {
    hide EntryBytes, Encode, Decode, Parse, EntrySize, Entries, Length, CellOf, Full, Outside, Logged, Handed,
         EntryCell, Wanted, ProducerInv, NeedsWrap;
  }

  lemma ParseNothing(buf: seq<bv8>, pos: nat)
    requires |buf| > 0
    ensures Parse(buf, pos, pos) == Some([]) && Entries([]) == []
  {
  }

  /**
   * While every wrap had room for a marker, a recovery finds exactly the entries appended that no
   * confirmation has passed, each once and in order: what was confirmed is the beginning of what was
   * appended, and what is found is all the rest, whatever was read and wherever either side stopped.
   */
  lemma RecoveryFinds(run: seq<System>)
    requires Run(run) && !run[|run| - 1].unmarked
    ensures var s := run[|run| - 1];
            && |s.r.buf| > 0 && Parse(s.r.buf, s.r.confirmedPos, s.r.writePos).Some?
            && Entries(s.appended) == s.confirmed + Unconfirmed(s)
            && s.confirmed <= Entries(s.appended)
            && Unconfirmed(s) == Entries(s.appended)[|s.confirmed|..]
  {
    hide Steps, Init, ReadInv, Ordered, Sound, Logged, Handed, Parse, Entries;
    Reached(run, |run| - 1);
  }
}
