/** The checkpoint with its two slots, operation by operation, and its place in the protocol. */
module ShmCheckpoint {
  import opened Common
  import opened Checkpoint
  import opened CheckpointSafety

  // ---------------------------------------------------------------- undisturbed operations, as values

  /** A Write that runs to its end. */
  function Written(sh: Shared, state: seq<int>): Shared
    requires |sh.slots| == 2 && sh.active < 2
  {
    var p := 1 - sh.active;
    Shared(p, sh.slots[p := Slot(sh.slots[p].seqNo + 2, state)])
  }

  predicate Usable(slot: Slot) {
    slot.seqNo % 2 == 0 && slot.seqNo > 0
  }

  /** A Read with no writer running: the active slot, else the other one, else nothing. */
  function ReadOf(sh: Shared): Option<seq<int>>
    requires |sh.slots| == 2 && sh.active < 2
  {
    if Usable(sh.slots[sh.active]) then Some(sh.slots[sh.active].data)
    else if Usable(sh.slots[1 - sh.active]) then Some(sh.slots[1 - sh.active].data)
    else None
  }

  class SlotCell {
    var seqNo: nat
    const data: array<int>

    constructor (words: nat)
      ensures seqNo == 0 && fresh(data) && data.Length == words
    {
      seqNo := 0;
      data := new int[words](_ => 0);
    }
  }

  class ShmCheckpoint {
    const words: nat
    var active: nat
    const slot0: SlotCell
    const slot1: SlotCell

    ghost predicate Valid()
      reads this, slot0, slot1
    {
      && active < 2
      && slot0 != slot1 && slot0.data != slot1.data
      && slot0.data.Length == slot1.data.Length == words
    }

    ghost function Model(): Shared
      reads this, slot0, slot1, slot0.data, slot1.data
    {
      Shared(active, [Slot(slot0.seqNo, slot0.data[..]), Slot(slot1.seqNo, slot1.data[..])])
    }

    constructor (words: nat)
      ensures Valid() && this.words == words
      ensures fresh(slot0) && fresh(slot1) && fresh(slot0.data) && fresh(slot1.data)
      ensures active == 0 && slot0.seqNo == 0 && slot1.seqNo == 0
    {
      this.words := words;
      active := 0;
      slot0 := new SlotCell(words);
      slot1 := new SlotCell(words);
    }

    method Reset()
      requires Valid()
      modifies this, slot0, slot1, slot0.data, slot1.data
      ensures Valid()
      ensures Model() == Shared(0, [Slot(0, seq(words, _ => 0)), Slot(0, seq(words, _ => 0))])
    {
      active := 0;
      slot0.seqNo := 0;
      forall i | 0 <= i < slot0.data.Length { slot0.data[i] := 0; }
      slot1.seqNo := 0;
      forall i | 0 <= i < slot1.data.Length { slot1.data[i] := 0; }
      assert slot0.data[..] == seq(words, _ => 0) && slot1.data[..] == seq(words, _ => 0);
    }

    method Write(state: seq<int>)
      requires Valid() && |state| == words
      modifies this, slot0, slot1, slot0.data, slot1.data
      ensures Valid() && Model() == Written(old(Model()), state)
      ensures var before, p := old(Model()), 1 - old(active);
              && active == p
              && Model().slots[p].seqNo == before.slots[p].seqNo + 2 && Model().slots[p].data == state
              && Model().slots[1 - p] == before.slots[1 - p]
    {
      var writeSlot := 1 - active;
      var slot := if writeSlot == 0 then slot0 else slot1;
      var oldSeq := slot.seqNo;
      slot.seqNo := oldSeq + 1;
      for i := 0 to words
        invariant Valid() && active == old(active) && slot.seqNo == oldSeq + 1
        invariant slot == slot0 ==> slot1.seqNo == old(slot1.seqNo) && slot1.data[..] == old(slot1.data[..])
        invariant slot == slot1 ==> slot0.seqNo == old(slot0.seqNo) && slot0.data[..] == old(slot0.data[..])
        invariant slot.data[..i] == state[..i]
      {
        slot.data[i] := state[i];
      }
      assert slot.data[..] == state;
      slot.seqNo := oldSeq + 2;
      active := writeSlot;
    }

    method TryReadSlot(slot: SlotCell) returns (ok: bool, out: seq<int>)
      ensures ok <==> slot.seqNo % 2 == 0 && slot.seqNo > 0
      ensures ok ==> out == slot.data[..]
    {
      out := [];
      for retry := 0 to RETRIES
        invariant retry > 0 ==> slot.seqNo % 2 == 1
      {
        var seq1 := slot.seqNo;
        if seq1 % 2 == 1 {
          continue;
        }
        if seq1 == 0 {
          return false, out;
        }
        out := slot.data[..];
        var seq2 := slot.seqNo;
        if seq1 == seq2 {
          return true, out;
        }
      }
      return false, out;
    }

    method Read() returns (ok: bool, out: seq<int>)
      requires Valid()
      ensures ok <==> ReadOf(Model()).Some?
      ensures ok ==> out == ReadOf(Model()).value
      ensures var a, b := Model().slots[active], Model().slots[1 - active];
              if a.seqNo % 2 == 0 && a.seqNo > 0 then ok && out == a.data
              else if b.seqNo % 2 == 0 && b.seqNo > 0 then ok && out == b.data
              else !ok
    {
      ok, out := TryReadSlot(if active == 0 then slot0 else slot1);
      if ok {
        return;
      }
      ok, out := TryReadSlot(if active == 0 then slot1 else slot0);
    }

    method GetVersion() returns (version: nat)
      requires Valid()
      ensures version == Model().slots[active].seqNo
    {
      version := if active == 0 then slot0.seqNo else slot1.seqNo;
    }
  }

  // ---------------------------------------------------------------- the same operations in the protocol

  /** Wherever the writer stopped, a later undisturbed Read finds the last published Write. */
  lemma ReadOfReachable(run: seq<System>, words: nat, i: nat)
    requires Run(run, words) && i < |run| && run[i].published >= 1
    ensures var s := run[i];
            && |s.shared.slots| == 2 && s.shared.active < 2 && s.published <= |s.log|
            && ReadOf(s.shared) == Some(s.log[s.published - 1])
  {
    hide Run, ReaderInv;
    Reached(run, words, i);
    LoadedSlotStable(run[i], words, run[i].published);
  }

  ghost predicate Steps(run: seq<System>, words: nat) {
    forall i :: 0 <= i < |run| - 1 ==> Next(run[i], run[i + 1], words)
  }

  /** The words of state copied so far, in the order of the loop of Write. */
  lemma {:induction false} CopyAsSteps(s: System, words: nat, n: nat) returns (run: seq<System>)
    requires |s.shared.slots| == 2 && s.writer.Copying? && s.writer.slot < 2 && n <= words
    requires |s.writer.state| == words && |s.shared.slots[s.writer.slot].data| == words
    ensures Steps(run, words) && |run| > 0 && run[0] == s
    ensures var e, p := run[|run| - 1], s.writer.slot;
            && e.writer.Copying? && e == s.(shared := e.shared, writer := s.writer.(done := e.writer.done))
            && (forall i :: 0 <= i < n ==> i in e.writer.done)
            && e.shared == SetSlot(s.shared, p,
                 s.shared.slots[p].(data := s.writer.state[..n] + s.shared.slots[p].data[n..]))
  {
    var p := s.writer.slot;
    if n == 0 {
      assert s.writer.state[..0] + s.shared.slots[p].data[0..] == s.shared.slots[p].data;
      assert SetSlot(s.shared, p, s.shared.slots[p]) == s.shared;
      run := [s];
    } else {
      var front := CopyAsSteps(s, words, n - 1);
      var m := front[|front| - 1];
      var was := m.shared.slots[p];
      var e := m.(shared := SetSlot(m.shared, p, was.(data := was.data[n - 1 := s.writer.state[n - 1]])),
                  writer := m.writer.(done := m.writer.done + {n - 1}));
      assert WriterStep(m, e, words, CopyIn(n - 1));
      assert NextStep(m, e, words, CopyIn(n - 1));
      assert was.data[n - 1 := s.writer.state[n - 1]] == s.writer.state[..n] + s.shared.slots[p].data[n..];
      run := front + [e];
    }
  }

  /** An undisturbed Write takes the protocol from a quiescent state to the state its contract names. */
  lemma WriteAsSteps(s: System, words: nat, state: seq<int>) returns (run: seq<System>)
    requires Inv(s, words) && s.writer == Idle && |state| == words
    ensures Steps(run, words) && |run| > 0 && run[0] == s
    ensures run[|run| - 1] ==
            s.(shared := Written(s.shared, state), log := s.log + [state], published := s.published + 1)
  {
    hide ReaderInv, SeqAfter;
    var p := 1 - s.shared.active;
    var was := s.shared.slots[p];
    var s1 := s.(writer := Picked(state, p), log := s.log + [state]);
    assert NextStep(s, s1, words, Begin(state));
    var s2 := s1.(shared := SetSlot(s1.shared, p, was.(seqNo := was.seqNo + 1)), writer := Copying(state, p, {}));
    assert NextStep(s1, s2, words, Open);
    var middle := CopyAsSteps(s2, words, words);
    var s3 := middle[|middle| - 1];
    assert state[..words] + was.data[words..] == state;
    var s4 := s3.(shared := SetSlot(s3.shared, p, Slot(was.seqNo + 2, state)), writer := Closed(state, p));
    assert NextStep(s3, s4, words, Close);
    var s5 := s4.(shared := s4.shared.(active := p), writer := Idle, published := s4.published + 1);
    assert NextStep(s4, s5, words, Publish);
    assert s5.shared == Written(s.shared, state);
    run := [s, s1] + middle + [s4, s5];
  }

  // ---------------------------------------------------------------- an undisturbed Read

  /** The run leads from s to e. */
  ghost predicate Leads(run: seq<System>, words: nat, s: System, e: System) {
    Steps(run, words) && run != [] && run[0] == s && run[|run| - 1] == e
  }

  lemma Join(a: seq<System>, b: seq<System>, words: nat, s: System, m: System, e: System) returns (run: seq<System>)
    requires Leads(a, words, s, m) && Leads(b, words, m, e)
    ensures Leads(run, words, s, e) && |run| == |a| + |b| - 1
  {
    hide Next;
    run := a + b[1..];
    forall i | 0 <= i < |run| - 1 ensures Next(run[i], run[i + 1], words) {
      if i < |a| - 1 {
        assert Next(a[i], a[i + 1], words);
      } else {
        assert run[i] == b[i - (|a| - 1)] && run[i + 1] == b[i + 1 - (|a| - 1)];
        assert Next(b[i - (|a| - 1)], b[i + 1 - (|a| - 1)], words);
      }
    }
  }

  /** The system with reader t where it stands. */
  function At(s: System, t: nat, r: Reader): System {
    s.(readers := s.readers[t := r])
  }

  lemma Move(s: System, t: nat, r: Reader, r': Reader, words: nat, step: Step) returns (run: seq<System>)
    requires |s.shared.slots| == 2
    requires step.Call? || step.LoadActive? || step.LoadSeq1? || step.CopyOut? || step.LoadSeq2?
    requires step.t == t && ReaderMoves(At(s, t, r), r, r', words, step)
    ensures Leads(run, words, At(s, t, r), At(s, t, r')) && |run| == 2
  {
    hide ReaderMoves;
    assert s.readers[t := r][t := r'] == s.readers[t := r'];
    assert NextStep(At(s, t, r), At(s, t, r'), words, step);
    assert Next(At(s, t, r), At(s, t, r'), words);
    run := [At(s, t, r), At(s, t, r')];
  }

  /** What a reader holds after it copied the first k words of a slot. */
  function Copied(r: Reader, data: seq<int>, k: nat, seq1: nat): Reader
    requires r.Trying? && k <= |data|
  {
    Reading(r.start, r.loaded, r.first, r.slot, r.retry, seq1, map i: nat | i < k :: data[i])
  }

  lemma {:induction false} CopyOutAsSteps(s: System, t: nat, r: Reader, words: nat, k: nat, seq1: nat) returns (run: seq<System>)
    requires |s.shared.slots| == 2 && r.Trying? && r.slot < 2 && |s.shared.slots[r.slot].data| == words && k <= words
    ensures var data := s.shared.slots[r.slot].data;
            Leads(run, words, At(s, t, Copied(r, data, 0, seq1)), At(s, t, Copied(r, data, k, seq1)))
  {
    var data := s.shared.slots[r.slot].data;
    if k == 0 {
      run := [At(s, t, Copied(r, data, 0, seq1))];
    } else {
      var front := CopyOutAsSteps(s, t, r, words, k - 1, seq1);
      var was, more := Copied(r, data, k - 1, seq1), Copied(r, data, k, seq1);
      assert was.got[k - 1 := data[k - 1]] == more.got;
      var last := Move(s, t, was, more, words, CopyOut(t, k - 1));
      run := Join(front, last, words, At(s, t, Copied(r, data, 0, seq1)), At(s, t, was), At(s, t, more));
    }
  }

  /** What an undisturbed attempt on a slot comes to. */
  function Attempted(s: System, r: Reader): Reader
    requires |s.shared.slots| == 2 && r.Trying? && r.slot < 2
  {
    var slot := s.shared.slots[r.slot];
    if slot.seqNo % 2 == 0 && slot.seqNo > 0
    then Returned(r.start, r.loaded, r.first, s.published, Some(slot.data), slot.seqNo - r.slot)
    else if r.first then Trying(r.start, r.loaded, false, 1 - r.slot, 0)
    else Returned(r.start, r.loaded, false, s.published, None, 0)
  }

  /** A slot under an odd counter is tried three times, an unused one once, any other one is copied. */
  lemma AttemptAsSteps(s: System, t: nat, r: Reader, words: nat) returns (run: seq<System>)
    requires |s.shared.slots| == 2 && r.Trying? && r.slot < 2 && r.retry == 0 && |s.shared.slots[r.slot].data| == words
    ensures Leads(run, words, At(s, t, r), At(s, t, Attempted(s, r)))
    ensures s.shared.slots[r.slot].seqNo % 2 == 1 ==> |run| == 4
  {
    hide Leads;
    var slot := s.shared.slots[r.slot];
    var e := Attempted(s, r);
    if slot.seqNo % 2 == 1 {
      var r1, r2 := Trying(r.start, r.loaded, r.first, r.slot, 1), Trying(r.start, r.loaded, r.first, r.slot, 2);
      var first := Move(s, t, r, r1, words, LoadSeq1(t));
      var second := Move(s, t, r1, r2, words, LoadSeq1(t));
      var third := Move(s, t, r2, e, words, LoadSeq1(t));
      run := Join(first, second, words, At(s, t, r), At(s, t, r1), At(s, t, r2));
      run := Join(run, third, words, At(s, t, r), At(s, t, r2), At(s, t, e));
    } else if slot.seqNo == 0 {
      run := Move(s, t, r, e, words, LoadSeq1(t));
    } else {
      run := UsableAsSteps(s, t, r, words);
    }
  }

  lemma UsableAsSteps(s: System, t: nat, r: Reader, words: nat) returns (run: seq<System>)
    requires |s.shared.slots| == 2 && r.Trying? && r.slot < 2 && |s.shared.slots[r.slot].data| == words
    requires s.shared.slots[r.slot].seqNo % 2 == 0 && s.shared.slots[r.slot].seqNo > 0
    ensures Leads(run, words, At(s, t, r), At(s, t, Attempted(s, r)))
  {
    hide Leads;
    var slot := s.shared.slots[r.slot];
    var none, all := Copied(r, slot.data, 0, slot.seqNo), Copied(r, slot.data, words, slot.seqNo);
    assert none.got == map[];
    var first := Move(s, t, r, none, words, LoadSeq1(t));
    var copies := CopyOutAsSteps(s, t, r, words, words, slot.seqNo);
    assert Assemble(all.got, words) == slot.data;
    var last := Move(s, t, all, Attempted(s, r), words, LoadSeq2(t));
    run := Join(first, copies, words, At(s, t, r), At(s, t, none), At(s, t, all));
    run := Join(run, last, words, At(s, t, r), At(s, t, all), At(s, t, Attempted(s, r)));
  }

  /** An undisturbed Read is a run of one reader, which returns what the contract of the method names. */
  lemma ReadAsSteps(s: System, t: nat, words: nat) returns (run: seq<System>, r: Reader)
    requires Inv(s, words) && ReaderOf(s, t).Away?
    ensures |s.shared.slots| == 2 && s.shared.active < 2
    ensures Leads(run, words, s, At(s, t, r))
    ensures r.Returned? && r.start == r.end == s.published && r.out == ReadOf(s.shared)
  {
    hide Leads, ReaderInv, WriterInv;
    ActiveSlot(s, words);
    var called := Called(s.published);
    var first := Trying(s.published, s.published, true, s.shared.active, 0);
    run := Calls(s, t, words);
    var load := Move(s, t, called, first, words, LoadActive(t));
    run := Join(run, load, words, s, At(s, t, called), At(s, t, first));
    var attempt := AttemptAsSteps(s, t, first, words);
    r := Attempted(s, first);
    run := Join(run, attempt, words, s, At(s, t, first), At(s, t, r));
    if r.Trying? {
      var again := AttemptAsSteps(s, t, r, words);
      run := Join(run, again, words, s, At(s, t, r), At(s, t, Attempted(s, r)));
      r := Attempted(s, r);
    }
  }

  lemma ActiveSlot(s: System, words: nat)
    requires Inv(s, words)
    ensures |s.shared.slots| == 2 && s.shared.active < 2
    ensures |s.shared.slots[0].data| == words && |s.shared.slots[1].data| == words
  {
    hide ReaderInv, SeqAfter;
  }

  lemma Calls(s: System, t: nat, words: nat) returns (run: seq<System>)
    requires |s.shared.slots| == 2 && ReaderOf(s, t).Away?
    ensures Leads(run, words, s, At(s, t, Called(s.published)))
  {
    var e := At(s, t, Called(s.published));
    assert NextStep(s, e, words, Call(t));
    assert Next(s, e, words);
    run := [s, e];
  }
}
