/** What every step of the checkpoint protocol keeps, and what a Read can return. */
module CheckpointSafety {
  import opened Common
  import opened Checkpoint

  lemma InitInv(s: System, words: nat)
    requires Init(s, words)
    ensures Inv(s, words)
  {
  }

  /** The slot that is not being written does not change when one more Write completes. */
  lemma SeqAfterNext(p: nat, c: nat)
    requires p < 2
    ensures SeqAfter(p, c + 1) == SeqAfter(p, c) + (if p == (c + 1) % 2 then 2 else 0)
    ensures SeqAfter(p, c) % 2 == 0
    ensures p == c % 2 && c > 0 ==> WriteNo(p, SeqAfter(p, c)) == c
    ensures p != c % 2 ==> WriteNo(p, SeqAfter(p, c)) == c - 1
    ensures p == c % 2 && c == 0 ==> SeqAfter(p, c) == 0
  {
  }

  ghost predicate MemoryInv(s: System, words: nat) {
    |s.shared.slots| == 2 && WriterInv(s, words) && SlotInv(s, words, 0) && SlotInv(s, words, 1)
  }

  lemma BeginKeeps(s: System, s': System, words: nat, step: Step)
    requires MemoryInv(s, words) && WriterStep(s, s', words, step) && step.Begin?
    ensures MemoryInv(s', words)
  {
    hide SeqAfter;
  }

  lemma OpenKeeps(s: System, s': System, words: nat, step: Step)
    requires MemoryInv(s, words) && WriterStep(s, s', words, step) && step.Open?
    ensures MemoryInv(s', words)
  {
    hide SeqAfter;
    SeqAfterNext(s.writer.slot, s.published);
  }

  lemma CopyInKeeps(s: System, s': System, words: nat, step: Step)
    requires MemoryInv(s, words) && WriterStep(s, s', words, step) && step.CopyIn?
    ensures MemoryInv(s', words)
  {
    hide SeqAfter;
    SeqAfterNext(s.writer.slot, s.published);
  }

  lemma CloseKeeps(s: System, s': System, words: nat, step: Step)
    requires MemoryInv(s, words) && WriterStep(s, s', words, step) && step.Close?
    ensures MemoryInv(s', words)
  {
    hide SeqAfter;
    SeqAfterNext(0, s.published);
    SeqAfterNext(1, s.published);
    SeqAfterNext(s.writer.slot, s.published + 1);
    assert s.shared.slots[s.writer.slot].data == s.writer.state;
  }

  lemma PublishKeeps(s: System, s': System, words: nat, step: Step)
    requires MemoryInv(s, words) && WriterStep(s, s', words, step) && step.Publish?
    ensures MemoryInv(s', words)
  {
    hide SeqAfter;
  }

  lemma WriterKeepsMemory(s: System, s': System, words: nat, step: Step)
    requires Inv(s, words) && WriterStep(s, s', words, step)
    ensures MemoryInv(s', words)
  {
    hide ReaderInv, WriterInv, SlotInv;
    assert MemoryInv(s, words);
    hide MemoryInv;
    match step
    case Begin(_) => BeginKeeps(s, s', words, step);
    case Open => OpenKeeps(s, s', words, step);
    case CopyIn(_) => CopyInKeeps(s, s', words, step);
    case Close => CloseKeeps(s, s', words, step);
    case Publish => PublishKeeps(s, s', words, step);
  }

  /** Counters only grow, and a slot under a copied seq stays as it was. */
  lemma WriterMonotone(s: System, s': System, words: nat, step: Step)
    requires Inv(s, words) && WriterStep(s, s', words, step)
    ensures |s'.shared.slots| == 2 && s.published <= s'.published && Completed(s) <= Completed(s')
    ensures s.log <= s'.log
    ensures forall p :: 0 <= p < 2 ==> s.shared.slots[p].seqNo <= s'.shared.slots[p].seqNo
    ensures s'.readers == s.readers
  {
    hide ReaderInv, SlotInv, SeqAfter;
  }

  lemma WriterKeepsReader(s: System, s': System, words: nat, step: Step, r: Reader)
    requires Inv(s, words) && WriterStep(s, s', words, step) && ReaderInv(s, words, r)
    ensures |s'.shared.slots| == 2 && ReaderInv(s', words, r)
  {
    hide SeqAfter, WriterStep, WriterInv, SlotInv;
    WriterMonotone(s, s', words, step);
  }

  /** A slot loaded after n published Writes is not being written until the next one is published. */
  lemma LoadedSlotStable(s: System, words: nat, loaded: nat)
    requires Inv(s, words) && loaded == s.published
    ensures s.shared.slots[loaded % 2].seqNo == SeqAfter(loaded % 2, loaded)
    ensures s.shared.slots[loaded % 2].seqNo % 2 == 0
    ensures loaded > 0 ==> s.shared.slots[loaded % 2].seqNo == loaded + loaded % 2
    ensures loaded == 0 ==> s.shared.slots[loaded % 2].seqNo == 0
  {
    hide ReaderInv;
    SeqAfterNext(loaded % 2, loaded);
  }

  lemma EvenSeq(s: System, words: nat, p: nat)
    requires Inv(s, words) && p < 2 && s.shared.slots[p].seqNo % 2 == 0 && s.shared.slots[p].seqNo > 0
    ensures 1 <= WriteNo(p, s.shared.slots[p].seqNo) <= Completed(s)
    ensures s.published - 1 <= WriteNo(p, s.shared.slots[p].seqNo)
    ensures p == s.published % 2 ==> s.published <= WriteNo(p, s.shared.slots[p].seqNo)
  {
    hide ReaderInv, SeqAfter;
    SeqAfterNext(p, s.published);
    SeqAfterNext(p, s.published + 1);
  }

  /** A failed attempt on the slot that was active shows that the writer has published since; on the other one, twice. */
  lemma FailureShowsProgress(s: System, words: nat, r: Reader)
    requires Inv(s, words) && ReaderInv(s, words, r)
    requires (r.Trying? && s.shared.slots[r.slot].seqNo % 2 == 1)
          || (r.Reading? && s.shared.slots[r.slot].seqNo != r.seq1)
    ensures r.first ==> s.published > r.loaded
    ensures !r.first && r.loaded > 0 ==> s.published >= r.loaded + 2
  {
    hide WriterInv, SlotInv;
    LoadedSlotStable(s, words, s.published);
  }

  lemma ReaderKeepsInv(s: System, r: Reader, r': Reader, words: nat, step: Step)
    requires Inv(s, words) && ReaderInv(s, words, r) && ReaderMoves(s, r, r', words, step)
    ensures ReaderInv(s, words, r')
  {
    hide SeqAfter;
    match step
    case Call(_) =>
    case LoadActive(_) =>
    case LoadSeq1(_) => Seq1KeepsInv(s, r, r', words, step);
    case CopyOut(_, i) => CopyOutKeepsInv(s, r, r', words, step);
    case LoadSeq2(_) => Seq2KeepsInv(s, r, r', words, step);
  }

  lemma Seq1KeepsInv(s: System, r: Reader, r': Reader, words: nat, step: Step)
    requires Inv(s, words) && ReaderInv(s, words, r) && ReaderMoves(s, r, r', words, step) && step.LoadSeq1?
    ensures ReaderInv(s, words, r')
  {
    hide SeqAfter, WriterInv;
    var seq1 := s.shared.slots[r.slot].seqNo;
    if seq1 % 2 == 1 {
      FailureShowsProgress(s, words, r);
    } else if seq1 == 0 {
      LoadedSlotStable(s, words, s.published);
    } else {
      EvenSeq(s, words, r.slot);
    }
  }

  lemma CopyOutKeepsInv(s: System, r: Reader, r': Reader, words: nat, step: Step)
    requires Inv(s, words) && ReaderInv(s, words, r) && ReaderMoves(s, r, r', words, step) && step.CopyOut?
    ensures ReaderInv(s, words, r')
  {
    hide SeqAfter;
  }

  lemma Seq2KeepsInv(s: System, r: Reader, r': Reader, words: nat, step: Step)
    requires Inv(s, words) && ReaderInv(s, words, r) && ReaderMoves(s, r, r', words, step) && step.LoadSeq2?
    ensures ReaderInv(s, words, r')
  {
    hide SeqAfter, SlotInv;
    if s.shared.slots[r.slot].seqNo == r.seq1 {
      assert r'.out.value == s.log[r'.write - 1];
    } else {
      FailureShowsProgress(s, words, r);
    }
  }

  /** The invariant is kept by every step of the writer and of any reader. */
  lemma Kept(s: System, s': System, words: nat, step: Step)
    requires Inv(s, words) && NextStep(s, s', words, step)
    ensures Inv(s', words)
  {
    hide ReaderInv, WriterInv, SlotInv, SeqAfter, ReaderMoves;
    if WriterStep(s, s', words, step) {
      WriterKeepsMemory(s, s', words, step);
      WriterMonotone(s, s', words, step);
      forall t | t in s'.readers
        ensures ReaderInv(s', words, s'.readers[t])
      {
        WriterKeepsReader(s, s', words, step, s.readers[t]);
      }
    } else {
      var r, r' := ReaderOf(s, step.t), ReaderOf(s', step.t);
      AwayInv(s, words);
      ReaderKeepsInv(s, r, r', words, step);
      SameMemory(s, s', words);
      forall t | t in s'.readers
        ensures ReaderInv(s', words, s'.readers[t])
      {
        SameMemoryReader(s, s', words, s'.readers[t]);
      }
    }
  }

  lemma AwayInv(s: System, words: nat)
    requires |s.shared.slots| == 2
    ensures ReaderInv(s, words, Away)
  {
  }

  lemma SameMemory(s: System, s': System, words: nat)
    requires Inv(s, words) && s' == s.(readers := s'.readers)
    ensures WriterInv(s', words) && SlotInv(s', words, 0) && SlotInv(s', words, 1)
  {
    hide ReaderInv, SeqAfter;
  }

  lemma SameMemoryReader(s: System, s': System, words: nat, r: Reader)
    requires |s.shared.slots| == 2 && s' == s.(readers := s'.readers)
    ensures ReaderInv(s, words, r) <==> ReaderInv(s', words, r)
  {
  }

  // ---------------------------------------------------------------- whole runs

  ghost predicate Next(s: System, s': System, words: nat) {
    |s.shared.slots| == 2 && exists step :: NextStep(s, s', words, step)
  }

  /** Any interleaving from Reset, stopped anywhere. */
  ghost predicate Run(run: seq<System>, words: nat) {
    && |run| > 0 && Init(run[0], words)
    && forall i :: 0 <= i < |run| - 1 ==> Next(run[i], run[i + 1], words)
  }

  lemma {:induction false} Reached(run: seq<System>, words: nat, i: nat)
    requires Run(run, words) && i < |run|
    ensures Inv(run[i], words)
  {
    hide Inv, Init, NextStep;
    if i == 0 {
      InitInv(run[0], words);
    } else {
      Reached(run, words, i - 1);
      assert Next(run[i - 1], run[i], words);
      var step :| NextStep(run[i - 1], run[i], words, step);
      Kept(run[i - 1], run[i], words, step);
    }
  }

  /**
   * A Read that succeeds returns, word for word, the argument of one Write, at least as new as the
   * last one published when the Read began and at most one newer than the last published at its end.
   */
  lemma ReadReturnsOneWrite(run: seq<System>, words: nat, i: nat, t: nat)
    requires Run(run, words) && i < |run|
    requires t in run[i].readers && run[i].readers[t].Returned? && run[i].readers[t].out.Some?
    ensures var r := run[i].readers[t];
            && 1 <= r.write <= |run[i].log|
            && r.start <= r.write <= r.end + 1
            && r.out.value == run[i].log[r.write - 1]
  {
    hide Run, WriterInv, SlotInv;
    Reached(run, words, i);
    assert ReaderInv(run[i], words, run[i].readers[t]);
  }

  /**
   * A Read during which no Write is published, because the writer stopped between any two of its
   * steps or was slow, succeeds once anything was published, and returns the last published Write.
   */
  lemma ReadOfStoppedWriter(run: seq<System>, words: nat, i: nat, t: nat)
    requires Run(run, words) && i < |run|
    requires t in run[i].readers && run[i].readers[t].Returned?
    requires var r := run[i].readers[t]; 1 <= r.start == r.end
    ensures var r := run[i].readers[t];
            r.start <= |run[i].log| && r.out == Some(run[i].log[r.start - 1])
  {
    hide Run, WriterInv, SlotInv;
    Reached(run, words, i);
    assert ReaderInv(run[i], words, run[i].readers[t]);
  }

  /** A Read that fails although something was published before it loaded active has seen at least two publications. */
  lemma FailedRead(run: seq<System>, words: nat, i: nat, t: nat)
    requires Run(run, words) && i < |run|
    requires t in run[i].readers && run[i].readers[t].Returned? && run[i].readers[t].out.None?
    ensures var r := run[i].readers[t];
            r.loaded == 0 || (r.start <= r.loaded && r.loaded + 2 <= r.end <= run[i].published)
  {
    hide Run, WriterInv, SlotInv;
    Reached(run, words, i);
    assert ReaderInv(run[i], words, run[i].readers[t]);
  }

  /** After n published Writes, whatever the writer is doing, active is n mod 2 and the version 2 * ((n + 1) / 2). */
  lemma VersionCounts(run: seq<System>, words: nat, i: nat)
    requires Run(run, words) && i < |run|
    ensures var sh, n := run[i].shared, run[i].published;
            sh.active == n % 2 && |sh.slots| == 2 && sh.slots[sh.active].seqNo == 2 * ((n + 1) / 2)
  {
    hide Run, ReaderInv;
    Reached(run, words, i);
    LoadedSlotStable(run[i], words, run[i].published);
  }

  // ---------------------------------------------------------------- every Read ends

  /** How many attempts are left, including the current one. */
  function AttemptsLeft(first: bool, retry: nat): int {
    RETRIES - retry + (if first then RETRIES else 0)
  }

  /** A bound on the steps a reader still takes, whatever the writer does. */
  function Rank(r: Reader, words: nat): int {
    Attempts(r) * (words + 2) - GotCount(r)
  }

  lemma {:induction false} FewKeys(keys: set<nat>, words: nat)
    requires forall i :: i in keys ==> i < words
    ensures |keys| <= words
  {
    if words == 0 {
      assert keys == {};
    } else {
      var rest := keys - {words - 1};
      FewKeys(rest, words - 1);
      assert keys <= rest + {words - 1};
      assert |keys| <= |rest| + 1;
    }
  }

  function GotCount(r: Reader): nat {
    if r.Reading? then 1 + |r.got| else 0
  }

  lemma GotBound(s: System, r: Reader, words: nat)
    requires |s.shared.slots| == 2 && ReaderInv(s, words, r)
    ensures GotCount(r) <= words + 1
    ensures 0 <= Attempts(r) && (Attempts(r) == 0 ==> GotCount(r) == 0)
  {
    if r.Reading? {
      FewKeys(r.got.Keys, words);
      assert |r.got| == |r.got.Keys|;
    }
  }

  lemma OneMoreKey(m: map<nat, int>, i: nat, v: int)
    requires i !in m
    ensures |m[i := v]| == |m| + 1
  {
    assert m[i := v].Keys == m.Keys + {i};
    assert |m[i := v]| == |m[i := v].Keys| && |m| == |m.Keys|;
  }

  /** A step starts a new attempt, or gets on with the current one. */
  lemma AttemptsDrop(s: System, r: Reader, r': Reader, words: nat, step: Step)
    requires Inv(s, words) && ReaderInv(s, words, r) && ReaderMoves(s, r, r', words, step) && !step.Call?
    ensures Attempts(r') <= Attempts(r) && Attempts(r) > 0
    ensures Attempts(r') == Attempts(r) ==> GotCount(r') == GotCount(r) + 1
  {
    hide WriterInv, SlotInv;
    if r.Reading? && r'.Reading? {
      OneMoreKey(r.got, step.i, s.shared.slots[r.slot].data[step.i]);
    }
  }

  lemma InvSlots(s: System, words: nat)
    requires Inv(s, words)
    ensures |s.shared.slots| == 2
  {
    hide WriterInv, SlotInv, ReaderInv;
  }

  lemma RankDrops(s: System, r: Reader, r': Reader, words: nat, step: Step)
    requires Inv(s, words) && ReaderInv(s, words, r) && ReaderMoves(s, r, r', words, step) && !step.Call?
    ensures 0 <= Rank(r', words) < Rank(r, words)
  {
    hide Inv, ReaderInv, ReaderMoves, Attempts, GotCount;
    AttemptsDrop(s, r, r', words, step);
    ReaderKeepsInv(s, r, r', words, step);
    InvSlots(s, words);
    GotBound(s, r, words);
    GotBound(s, r', words);
    Fewer(Attempts(r'), Attempts(r), words);
    Fewer(0, Attempts(r'), words);
  }

  function Attempts(r: Reader): int {
    match r
    case Called(_) => 7
    case Trying(_, _, first, _, retry) => AttemptsLeft(first, retry)
    case Reading(_, _, first, _, retry, _, _) => AttemptsLeft(first, retry)
    case _ => 0
  }

  lemma Fewer(a: int, b: int, words: nat)
    ensures a < b ==> a * (words + 2) + words + 2 <= b * (words + 2)
  {
    if a < b {
      assert (b - a - 1) * (words + 2) >= 0;
    }
  }

  /**
   * A reader in the middle of a Read can always take a step, and any step it takes uses up rank:
   * each Read ends, after at most a fixed number of its own steps.
   */
  lemma ReadEnds(run: seq<System>, words: nat, i: nat, t: nat)
    requires Run(run, words) && i < |run|
    requires var r := ReaderOf(run[i], t); !r.Away? && !r.Returned?
    ensures |run[i].shared.slots| == 2
    ensures exists step, r' :: ReaderMoves(run[i], ReaderOf(run[i], t), r', words, step) && !step.Call?
    ensures forall step, r' :: ReaderMoves(run[i], ReaderOf(run[i], t), r', words, step)
              ==> 0 <= Rank(r', words) < Rank(ReaderOf(run[i], t), words)
  {
    hide Run, WriterInv, Rank;
    var s, r := run[i], ReaderOf(run[i], t);
    Reached(run, words, i);
    assert ReaderInv(s, words, r);
    forall step, r' | ReaderMoves(s, r, r', words, step)
      ensures 0 <= Rank(r', words) < Rank(r, words)
    {
      RankDrops(s, r, r', words, step);
    }
    CanMove(s, r, words, t);
  }

  lemma CanMove(s: System, r: Reader, words: nat, t: nat)
    requires Inv(s, words) && ReaderInv(s, words, r) && !r.Away? && !r.Returned?
    ensures exists step, r' :: ReaderMoves(s, r, r', words, step) && !step.Call?
  {
    hide WriterInv, SeqAfter;
    match r
    case Called(start) =>
      assert ReaderMoves(s, r, Trying(start, s.published, true, s.shared.active, 0), words, LoadActive(t));
    case Trying(start, loaded, first, slot, retry) =>
      var seq1 := s.shared.slots[slot].seqNo;
      var r' := if seq1 % 2 == 1 then Again(start, loaded, first, slot, retry, s.published)
                else if seq1 == 0 then OtherSlot(start, loaded, first, slot, s.published)
                else Reading(start, loaded, first, slot, retry, seq1, map[]);
      assert ReaderMoves(s, r, r', words, LoadSeq1(t));
    case Reading(start, loaded, first, slot, retry, seq1, got) =>
      if i: nat :| i < words && i !in got {
        assert SlotInv(s, words, slot);
        assert ReaderMoves(s, r, r.(got := got[i := s.shared.slots[slot].data[i]]), words, CopyOut(t, i));
      } else {
        var r' := if s.shared.slots[slot].seqNo == seq1
                  then Returned(start, loaded, first, s.published, Some(Assemble(got, words)), seq1 - slot)
                  else Again(start, loaded, first, slot, retry, s.published);
        assert ReaderMoves(s, r, r', words, LoadSeq2(t));
      }
  }
}
