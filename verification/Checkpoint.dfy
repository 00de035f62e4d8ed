/**
 * The double-buffered checkpoint as a protocol of one writer and any number of readers. Each step
 * is one atomic access or the copy of one word, in any order of words; a participant that takes no
 * further step has stopped.
 */
module Checkpoint {
  import opened Common

  datatype Slot = Slot(seqNo: nat, data: seq<int>)

  datatype Shared = Shared(active: nat, slots: seq<Slot>)

  datatype Writer =
    | Idle
    | Picked(state: seq<int>, slot: nat)                       // active was loaded
    | Copying(state: seq<int>, slot: nat, done: set<nat>)      // the slot's seq is odd
    | Closed(state: seq<int>, slot: nat)                       // the slot's seq is even again

  /** published and begun count completed and started Writes when the reader started and loaded active. */
  datatype Reader =
    | Away
    | Called(start: nat)
    | Trying(start: nat, loaded: nat, first: bool, slot: nat, retry: nat)
    | Reading(start: nat, loaded: nat, first: bool, slot: nat, retry: nat, seq1: nat, got: map<nat, int>)
    | Returned(start: nat, loaded: nat, first: bool, end: nat, out: Option<seq<int>>, write: int)

  /** log: the arguments of the Writes begun; published: how many Writes have stored active. */
  datatype System = System(
    shared: Shared, writer: Writer, readers: map<nat, Reader>, log: seq<seq<int>>, published: nat)

  datatype Step =
    | Begin(state: seq<int>)
    | Open
    | CopyIn(i: nat)
    | Close
    | Publish
    | Call(t: nat)
    | LoadActive(t: nat)
    | LoadSeq1(t: nat)
    | CopyOut(t: nat, i: nat)
    | LoadSeq2(t: nat)

  const RETRIES := 3

  /** What Reset leaves, for states of words words. */
  ghost predicate Init(s: System, words: nat) {
    && s.shared.active == 0 && |s.shared.slots| == 2
    && (forall p :: 0 <= p < 2 ==> s.shared.slots[p].seqNo == 0 && |s.shared.slots[p].data| == words)
    && s.writer == Idle && s.readers == map[] && s.log == [] && s.published == 0
  }

  function SetSlot(sh: Shared, p: nat, slot: Slot): Shared
    requires p < |sh.slots|
  {
    sh.(slots := sh.slots[p := slot])
  }

  /** A slot proved unusable: try the other one, or give up. */
  function OtherSlot(start: nat, loaded: nat, first: bool, slot: nat, published: nat): Reader
    requires slot < 2
  {
    if first then Trying(start, loaded, false, 1 - slot, 0)
    else Returned(start, loaded, false, published, None, 0)
  }

  function Again(start: nat, loaded: nat, first: bool, slot: nat, retry: nat, published: nat): Reader
    requires slot < 2
  {
    if retry + 1 < RETRIES then Trying(start, loaded, first, slot, retry + 1)
    else OtherSlot(start, loaded, first, slot, published)
  }

  function Assemble(got: map<nat, int>, words: nat): seq<int>
    requires forall i :: 0 <= i < words ==> i in got
  {
    seq(words, i requires 0 <= i < words => got[i])
  }

  ghost predicate WriterStep(s: System, s': System, words: nat, step: Step)
    requires |s.shared.slots| == 2
  {
    match step
    case Begin(state) =>
      && s.writer == Idle && |state| == words && s.shared.active < 2
      && s' == s.(writer := Picked(state, 1 - s.shared.active), log := s.log + [state])
    case Open =>
      && s.writer.Picked? && s.writer.slot < 2
      && var was := s.shared.slots[s.writer.slot];
      && s' == s.(shared := SetSlot(s.shared, s.writer.slot, was.(seqNo := was.seqNo + 1)),
                  writer := Copying(s.writer.state, s.writer.slot, {}))
    case CopyIn(i) =>
      && s.writer.Copying? && s.writer.slot < 2
      && var was := s.shared.slots[s.writer.slot];
      && i < |was.data| && i < |s.writer.state|
      && s' == s.(shared := SetSlot(s.shared, s.writer.slot, was.(data := was.data[i := s.writer.state[i]])),
                  writer := s.writer.(done := s.writer.done + {i}))
    case Close =>
      && s.writer.Copying? && s.writer.slot < 2
      && (forall i :: 0 <= i < words ==> i in s.writer.done)
      && var was := s.shared.slots[s.writer.slot];
      && s' == s.(shared := SetSlot(s.shared, s.writer.slot, was.(seqNo := was.seqNo + 1)),
                  writer := Closed(s.writer.state, s.writer.slot))
    case Publish =>
      && s.writer.Closed?
      && s' == s.(shared := s.shared.(active := s.writer.slot), writer := Idle, published := s.published + 1)
    case _ => false
  }

  /** The next state of reader r, given the shared memory. */
  ghost predicate ReaderMoves(s: System, r: Reader, r': Reader, words: nat, step: Step)
    requires |s.shared.slots| == 2
  {
    match step
    case Call(_) =>
      && (r.Away? || r.Returned?)
      && r' == Called(s.published)
    case LoadActive(_) =>
      && r.Called?
      && r' == Trying(r.start, s.published, true, s.shared.active, 0)
    case LoadSeq1(_) =>
      && r.Trying? && r.slot < 2
      && var seq1 := s.shared.slots[r.slot].seqNo;
      && r' == if seq1 % 2 == 1 then Again(r.start, r.loaded, r.first, r.slot, r.retry, s.published)
               else if seq1 == 0 then OtherSlot(r.start, r.loaded, r.first, r.slot, s.published)
               else Reading(r.start, r.loaded, r.first, r.slot, r.retry, seq1, map[])
    case CopyOut(_, i) =>
      && r.Reading? && r.slot < 2 && i < words && i < |s.shared.slots[r.slot].data|
      && i !in r.got
      && r' == r.(got := r.got[i := s.shared.slots[r.slot].data[i]])
    case LoadSeq2(_) =>
      && r.Reading? && r.slot < 2
      && (forall i :: 0 <= i < words ==> i in r.got)
      && r' == if s.shared.slots[r.slot].seqNo == r.seq1
               then Returned(r.start, r.loaded, r.first, s.published, Some(Assemble(r.got, words)), r.seq1 - r.slot)
               else Again(r.start, r.loaded, r.first, r.slot, r.retry, s.published)
    case _ => false
  }

  function ReaderOf(s: System, t: nat): Reader {
    if t in s.readers then s.readers[t] else Away
  }

  ghost predicate ReaderStep(s: System, s': System, words: nat, step: Step)
    requires |s.shared.slots| == 2
  {
    && (step.Call? || step.LoadActive? || step.LoadSeq1? || step.CopyOut? || step.LoadSeq2?)
    && s' == s.(readers := s.readers[step.t := ReaderOf(s', step.t)])
    && ReaderMoves(s, ReaderOf(s, step.t), ReaderOf(s', step.t), words, step)
  }

  ghost predicate NextStep(s: System, s': System, words: nat, step: Step)
    requires |s.shared.slots| == 2
  {
    WriterStep(s, s', words, step) || ReaderStep(s, s', words, step)
  }

  // ---------------------------------------------------------------- invariant

  /** The seq of slot p once c Writes have completed their copy. */
  function SeqAfter(p: nat, c: nat): nat {
    if p == 0 then 2 * (c / 2) else 2 * ((c + 1) / 2)
  }

  /** How many Writes have completed their copy. */
  function Completed(s: System): nat {
    s.published + (if s.writer.Closed? then 1 else 0)
  }

  /** The number of the Write whose data slot p holds under an even seq. */
  function WriteNo(p: nat, seqNo: nat): int {
    seqNo - p
  }

  ghost predicate WriterInv(s: System, words: nat)
    requires |s.shared.slots| == 2
  {
    && |s.log| == s.published + (if s.writer == Idle then 0 else 1)
    && (forall k :: 0 <= k < |s.log| ==> |s.log[k]| == words)
    && s.shared.active == s.published % 2
    && (s.writer != Idle ==> s.writer.slot == (s.published + 1) % 2 && s.writer.state == s.log[s.published])
    && (s.writer.Copying? ==>
          && |s.shared.slots[s.writer.slot].data| == |s.writer.state| == words
          && forall i :: 0 <= i < words && i in s.writer.done ==>
            s.shared.slots[s.writer.slot].data[i] == s.writer.state[i])
  }

  ghost predicate SlotInv(s: System, words: nat, p: nat)
    requires |s.shared.slots| == 2 && p < 2
  {
    var slot := s.shared.slots[p];
    && |slot.data| == words
    && slot.seqNo == SeqAfter(p, Completed(s)) + (if s.writer.Copying? && s.writer.slot == p then 1 else 0)
    && (slot.seqNo % 2 == 0 && slot.seqNo > 0 ==>
          && 1 <= WriteNo(p, slot.seqNo) <= |s.log|
          && slot.data == s.log[WriteNo(p, slot.seqNo) - 1])
  }

  ghost predicate ReaderInv(s: System, words: nat, r: Reader)
    requires |s.shared.slots| == 2
  {
    match r
    case Away => true
    case Called(start) => start <= s.published
    case Trying(start, loaded, first, slot, retry) =>
      && start <= loaded <= s.published && retry < RETRIES
      && slot == (if first then loaded % 2 else 1 - loaded % 2)
      && (first && retry > 0 ==> s.published > loaded)
      && (!first ==> loaded == 0 || s.published > loaded)
    case Reading(start, loaded, first, slot, retry, seq1, got) =>
      && start <= loaded <= s.published && retry < RETRIES
      && slot == (if first then loaded % 2 else 1 - loaded % 2)
      && (first && retry > 0 ==> s.published > loaded)
      && (!first ==> loaded == 0 || s.published > loaded)
      && seq1 % 2 == 0 && seq1 > 0
      && seq1 <= s.shared.slots[slot].seqNo
      && loaded <= WriteNo(slot, seq1) && 1 <= WriteNo(slot, seq1) <= Completed(s)
      && (forall i :: i in got ==> i < words)
      && (seq1 == s.shared.slots[slot].seqNo ==>
            && WriteNo(slot, seq1) <= |s.log| && |s.log[WriteNo(slot, seq1) - 1]| == words
            && forall i :: i in got ==> got[i] == s.log[WriteNo(slot, seq1) - 1][i])
    case Returned(start, loaded, first, end, out, write) =>
      && start <= loaded <= end <= s.published
      && (!first ==> loaded == 0 || end > loaded)
      && (out.None? ==> !first && (loaded > 0 ==> end >= loaded + 2))
      && (out.Some? ==>
            && 1 <= write <= |s.log| && loaded <= write <= end + 1
            && out.value == s.log[write - 1]
            && (first ==> write % 2 == loaded % 2))
  }

  ghost predicate Inv(s: System, words: nat) {
    && |s.shared.slots| == 2
    && WriterInv(s, words)
    && SlotInv(s, words, 0) && SlotInv(s, words, 1)
    && (forall t :: t in s.readers ==> ReaderInv(s, words, s.readers[t]))
  }
}
