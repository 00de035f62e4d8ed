/** Whole runs of the log files: restarts, appends, closings and truncations. */
module WalRuns {
  import Crc32
  import WalEntry
  import opened WalDirectory
  import opened WalFile
  import opened WalFormat

  /** One thing that happens to the log; a restart closes the current file first. */
  datatype Call = Restart | Put(kind: nat, data: seq<bv8>) | Stop | Trim(seqNo: nat)
  {
    predicate Fits() {
      Put? ==> kind < 0x1_0000 && |data| < 0x1_0000
    }
  }

  lemma LoggedMore(parts: seq<Part>, p: Part)
    ensures forall r :: Logged(r, parts) ==> Logged(r, parts + [p])
  {
    forall r | Logged(r, parts) ensures Logged(r, parts + [p]) {
      var i :| 0 <= i < |parts| && r in parts[i].records;
      assert (parts + [p])[i] == parts[i];
    }
  }

  lemma LoggedExtended(parts: seq<Part>, r: Record)
    requires parts != []
    ensures Logged(r, Extended(parts, r))
    ensures forall q :: Logged(q, parts) ==> Logged(q, Extended(parts, r))
  {
    var n, more := |parts| - 1, Extended(parts, r);
    assert more[n].records == parts[n].records + [r];
    assert r in more[n].records;
    forall q | Logged(q, parts) ensures Logged(q, more) {
      var i :| 0 <= i < |parts| && q in parts[i].records;
      assert q in more[i].records;
    }
  }

  lemma LoggedKept(parts: seq<Part>, seqNo: nat, keepLast: bool)
    requires Ascending(parts)
    ensures forall r :: Logged(r, parts) && r.header.seqNo >= seqNo ==> Logged(r, Survivors(parts, seqNo, keepLast))
  {
    forall r | Logged(r, parts) && r.header.seqNo >= seqNo ensures Logged(r, Survivors(parts, seqNo, keepLast)) {
      var i :| 0 <= i < |parts| && r in parts[i].records;
      var j :| 0 <= j < |parts[i].records| && parts[i].records[j] == r;
      SurvivorsHold(parts, seqNo, keepLast, i, j);
    }
  }

  /** What the run has appended so far: numbers rise, and what no truncation may have dropped is stored. */
  ghost predicate Kept(appended: seq<Record>, parts: seq<Part>, low: nat, high: nat, floor: nat) {
    && (forall i :: 0 <= i < |appended| ==> low < appended[i].header.seqNo <= high)
    && (forall i, j :: 0 <= i < j < |appended| ==> appended[i].header.seqNo < appended[j].header.seqNo)
    && (forall i :: 0 <= i < |appended| && appended[i].header.seqNo >= floor ==> Logged(appended[i], parts))
  }

  lemma KeptMore(appended: seq<Record>, parts: seq<Part>, low: nat, high: nat, floor: nat, r: Record)
    requires Kept(appended, parts, low, high, floor) && parts != [] && low <= high < r.header.seqNo
    ensures Kept(appended + [r], Extended(parts, r), low, r.header.seqNo, floor)
  {
    hide Logged, Extended;
    LoggedExtended(parts, r);
  }

  /** Whether a file is open after the calls: the last restart or stop was a restart. */
  predicate Writes(calls: seq<Call>) {
    calls != []
    && match calls[|calls| - 1]
       case Restart => true
       case Stop => false
       case _ => Writes(calls[..|calls| - 1])
  }

  /** The places of the Puts that find an open file. */
  function Accepted(calls: seq<Call>): (places: seq<nat>)
    ensures forall i :: 0 <= i < |places| ==> places[i] < |calls| && calls[places[i]].Put?
  {
    if calls == [] then []
    else
      var n := |calls| - 1;
      var front := Accepted(calls[..n]);
      assert forall i :: 0 <= i < |front| ==> calls[front[i]] == calls[..n][front[i]];
      front + (if calls[n].Put? && Writes(calls[..n]) then [n] else [])
  }

  /** The records are those of the accepted Puts, one for each, in order: type, data, checksum and time. */
  ghost predicate Faithful(appended: seq<Record>, calls: seq<Call>, time: nat) {
    && |appended| == |Accepted(calls)|
    && forall i :: 0 <= i < |appended| ==>
         var call, r := calls[Accepted(calls)[i]], appended[i];
         && r.data == call.data && r.header.kind == call.kind && r.header.dataLen == |call.data|
         && r.header.timestamp == time && r.header.crc == Crc32.Checksum(call.data)
  }

  lemma FaithfulMore(appended: seq<Record>, calls: seq<Call>, time: nat, call: Call, more: seq<Record>)
    requires Faithful(appended, calls, time)
    requires if call.Put? && Writes(calls) then
               exists seqNo :: more == [Record(
                 WalEntry.Header(seqNo, time, call.kind, |call.data|, Crc32.Checksum(call.data)), call.data)]
             else more == []
    ensures Faithful(appended + more, calls + [call], time)
    ensures Writes(calls + [call]) == match call { case Restart => true case Stop => false case _ => Writes(calls) }
  {
    hide Crc32.Checksum;
    var all := calls + [call];
    assert all[..|calls|] == calls && all[|calls|] == call;
    assert Accepted(all) == Accepted(calls) + (if call.Put? && Writes(calls) then [|calls|] else []);
    assert forall i :: 0 <= i < |appended| ==> all[Accepted(calls)[i]] == calls[Accepted(calls)[i]];
  }

  /** One call on the current writer, if any; a Put that finds an open file appends its record. */
  method Do(dir: Directory, w: WalFileWriter?, call: Call, time: nat, ghost low: nat, ghost floor: nat, appended: seq<Record>)
    returns (w': WalFileWriter?, more: seq<Record>)
    requires dir.Valid() && (w != null ==> w.dir == dir && w.Valid() && w.started)
    requires call.Fits() && time < LIMIT && Top(dir.parts) + 2 < LIMIT
    requires low <= dir.issued && Kept(appended, dir.parts, low, dir.issued, floor)
    modifies dir, w
    ensures dir.Valid() && old(dir.issued) <= dir.issued && Top(dir.parts) <= old(Top(dir.parts)) + 1
    ensures w' != null ==> w'.dir == dir && w'.Valid() && w'.started && (w' == w || fresh(w'))
    ensures Kept(appended + more, dir.parts, low, dir.issued, if call.Trim? && call.seqNo > floor then call.seqNo else floor)
    ensures (w' != null && w'.isOpen)
            == match call { case Restart => true case Stop => false case _ => w != null && old(w.isOpen) }
    ensures if call.Put? && w != null && old(w.isOpen) then
              exists seqNo :: more == [Record(
                 WalEntry.Header(seqNo, time, call.kind, |call.data|, Crc32.Checksum(call.data)), call.data)]
            else more == []
  {
    hide Stored, Kept, Extended, NewRecord, Survivors, EncodeRecord, Crc32.Checksum;
    w', more := w, [];
    assert appended + [] == appended;
    match call {
      case Restart =>
        if w != null {
          w.Close(time);
        }
        ghost var parts := dir.parts;
        w' := new WalFileWriter(dir);
        w'.Init(time);
        KeptStarted(appended, parts, low, dir.issued, floor);
      case Put(kind, data) =>
        if w != null && w.isOpen {
          ghost var parts, issued := dir.parts, dir.issued;
          var seqNo := w.Append(kind, data, time);
          var r := NewRecord(seqNo, time, kind, data);
          WholeRecord(seqNo, time, kind, data);
          KeptMore(appended, parts, low, issued, floor, r);
          ExtendedTop(parts, r);
          more := [r];
        }
      case Stop =>
        if w != null {
          w.Close(time);
        }
      case Trim(seqNo) =>
        if w != null {
          ghost var files, parts := dir.files, dir.parts;
          var deleted := w.TruncateBefore(seqNo);
          KeptTrimmed(dir.prefix, files, parts, appended, low, dir.issued, floor, seqNo);
        } else {
          KeptHigher(appended, dir.parts, low, dir.issued, floor, seqNo);
        }
    }
  }

  lemma KeptStarted(appended: seq<Record>, parts: seq<Part>, low: nat, high: nat, floor: nat)
    requires Kept(appended, parts, low, high, floor)
    ensures var p := Part(Top(parts) + 1, []);
            Kept(appended, parts + [p], low, high, floor) && Top(parts + [p]) == Top(parts) + 1
  {
    hide Logged;
    LoggedMore(parts, Part(Top(parts) + 1, []));
  }

  lemma ExtendedTop(parts: seq<Part>, r: Record)
    requires parts != []
    ensures Top(Extended(parts, r)) <= Top(parts) + 1
  {
  }

  lemma KeptHigher(appended: seq<Record>, parts: seq<Part>, low: nat, high: nat, floor: nat, seqNo: nat)
    requires Kept(appended, parts, low, high, floor)
    ensures Kept(appended, parts, low, high, if seqNo > floor then seqNo else floor)
  {
    hide Logged;
  }

  lemma KeptTrimmed(prefix: string, files: Files, parts: seq<Part>, appended: seq<Record>,
                    low: nat, high: nat, floor: nat, seqNo: nat)
    requires Stored(prefix, files, parts) && parts != [] && Kept(appended, parts, low, high, floor)
    ensures var kept := Survivors(parts, seqNo, true);
            Kept(appended, kept, low, high, if seqNo > floor then seqNo else floor) && Top(kept) == Top(parts)
  {
    hide Logged, Stored, Survivors;
    StoredAscending(prefix, files, parts);
    LoggedKept(parts, seqNo, true);
    SurvivorsTop(parts, seqNo);
  }

  /** The largest number up to which the calls may delete records. */
  function Floor(calls: seq<Call>): nat {
    if calls == [] then 0
    else
      var f, c := Floor(calls[..|calls| - 1]), calls[|calls| - 1];
      if c.Trim? && c.seqNo > f then c.seqNo else f
  }

  /**
   * Any run: the numbers of the appended records rise strictly above all numbers from before, across
   * restarts and truncations; the records carry what the Puts gave that found an open file, one for
   * each, in order; and every appended record that no truncation may drop is stored.
   */
  method Run(dir: Directory, calls: seq<Call>, time: nat) returns (appended: seq<Record>)
    requires dir.Valid() && time < LIMIT && Top(dir.parts) + |calls| + 2 < LIMIT
    requires forall i :: 0 <= i < |calls| ==> calls[i].Fits()
    modifies dir
    ensures dir.Valid()
    ensures forall i :: 0 <= i < |appended| ==> appended[i].header.seqNo > old(dir.issued)
    ensures forall i, j :: 0 <= i < j < |appended| ==> appended[i].header.seqNo < appended[j].header.seqNo
    ensures Faithful(appended, calls, time)
    ensures forall i :: 0 <= i < |appended| && appended[i].header.seqNo >= Floor(calls) ==> Logged(appended[i], dir.parts)
  {
    hide Logged, Stored, Kept, Top, Faithful, Writes, Accepted;
    var w: WalFileWriter? := null;
    appended := [];
    KeptNone(dir.parts, dir.issued);
    FaithfulNone(time);
    for k := 0 to |calls|
      invariant dir.Valid() && old(dir.issued) <= dir.issued && Top(dir.parts) <= old(Top(dir.parts)) + k
      invariant w != null ==> fresh(w) && w.dir == dir && w.Valid() && w.started
      invariant (w != null && w.isOpen) == Writes(calls[..k])
      invariant Faithful(appended, calls[..k], time)
      invariant Kept(appended, dir.parts, old(dir.issued), dir.issued, Floor(calls[..k]))
    {
      assert calls[..k + 1][..k] == calls[..k] && calls[..k + 1] == calls[..k] + [calls[k]];
      var more;
      w, more := Do(dir, w, calls[k], time, old(dir.issued), Floor(calls[..k]), appended);
      FaithfulMore(appended, calls[..k], time, calls[k], more);
      appended := appended + more;
    }
    assert calls[..|calls|] == calls;
    KeptMeans(appended, dir.parts, old(dir.issued), dir.issued, Floor(calls));
  }

  lemma FaithfulNone(time: nat)
    ensures Faithful([], [], time) && !Writes([])
  {
  }

  /** What a run appended and no truncation may have dropped is read again, with the bytes that were put. */
  method RunAndRead(dir: Directory, calls: seq<Call>, time: nat, after: nat)
    returns (appended: seq<Record>, entries: seq<Record>)
    requires dir.Valid() && time < LIMIT && Top(dir.parts) + |calls| + 2 < LIMIT
    requires forall i :: 0 <= i < |calls| ==> calls[i].Fits()
    modifies dir
    ensures Faithful(appended, calls, time)
    ensures forall i :: 0 <= i < |appended| && appended[i].header.seqNo > after && appended[i].header.seqNo >= Floor(calls) ==>
              appended[i] in entries
  {
    hide Logged, Stored, Top, Faithful;
    appended := Run(dir, calls, time);
    var reader := new WalFileReader(dir);
    var files;
    entries, files := reader.ReadAfter(after, 0);
  }

  lemma KeptNone(parts: seq<Part>, high: nat)
    ensures Kept([], parts, high, high, Floor([]))
  {
  }

  lemma KeptMeans(appended: seq<Record>, parts: seq<Part>, low: nat, high: nat, floor: nat)
    requires Kept(appended, parts, low, high, floor)
    ensures forall i :: 0 <= i < |appended| ==> appended[i].header.seqNo > low
    ensures forall i, j :: 0 <= i < j < |appended| ==> appended[i].header.seqNo < appended[j].header.seqNo
    ensures forall i :: 0 <= i < |appended| && appended[i].header.seqNo >= floor ==> Logged(appended[i], parts)
  {
    hide Logged;
  }

  ghost predicate Numbered(parts: seq<Part>, seqNo: nat) {
    exists r :: Logged(r, parts) && r.header.seqNo == seqNo
  }

  /** Some record has the last number of the directory, exactly when the last file has records. */
  lemma TopNumbered(parts: seq<Part>)
    requires Ascending(parts)
    ensures Numbered(parts, Top(parts)) <==> parts != [] && parts[|parts| - 1].records != []
  {
    if Numbered(parts, Top(parts)) {
      var r :| Logged(r, parts) && r.header.seqNo == Top(parts);
      var i :| 0 <= i < |parts| && r in parts[i].records;
      assert parts[i].Ok();
      PartOrder(parts, i, |parts| - 1);
      assert parts[|parts| - 1].Ok();
    }
    if parts != [] && parts[|parts| - 1].records != [] {
      var last := parts[|parts| - 1];
      assert last.Ok();
      var r := last.records[|last.records| - 1];
      assert r in last.records && Logged(r, parts) && r.header.seqNo == Top(parts);
    }
  }

  lemma NumberedMore(parts: seq<Part>, p: Part, seqNo: nat)
    requires forall r :: r in p.records ==> r.header.seqNo != seqNo
    ensures Numbered(parts + [p], seqNo) <==> Numbered(parts, seqNo)
  {
    LoggedMore(parts, p);
    if Numbered(parts + [p], seqNo) {
      var r :| Logged(r, parts + [p]) && r.header.seqNo == seqNo;
      var i :| 0 <= i < |parts| + 1 && r in (parts + [p])[i].records;
      assert i < |parts| && Logged(r, parts);
    }
  }

  /**
   * The first number after a restart follows the last number of the directory. A record carries that
   * one exactly when the last file has records: after a start without records, its first number is skipped.
   */
  method NextAfterRestart(dir: Directory, time: nat) returns (seqNo: nat)
    requires dir.Valid() && time < LIMIT && Top(dir.parts) + 2 < LIMIT
    modifies dir
    ensures dir.Valid() && seqNo == Top(old(dir.parts)) + 1
    ensures Numbered(dir.parts, seqNo - 1) <==> old(dir.parts) != [] && old(dir.parts)[|old(dir.parts)| - 1].records != []
  {
    hide Stored, EncodeRecord, NewRecord, Numbered, Heads, Crc32.Checksum, WalEntry.Decode, FileName, Holds, Part.Ok;
    ghost var parts := dir.parts;
    StoredAscending(dir.prefix, dir.files, parts);
    TopNumbered(parts);
    var w := new WalFileWriter(dir);
    w.Init(time);
    ghost var p := Part(Top(parts) + 1, []);
    seqNo := w.Append(0, [], time);
    WholeRecord(seqNo, time, 0, []);
    ghost var r := NewRecord(seqNo, time, 0, []);
    NumberedMore(parts, Part(seqNo, [r]), seqNo - 1);
    assert dir.parts == parts + [Part(seqNo, [r])] by {
      assert (parts + [p])[..|parts|] == parts && [] + [r] == [r];
    }
  }

  /**
   * A writer initialised a second time while its file is open hands out a number for a record that is
   * not stored, and after a restart the number is handed out again.
   */
  method OpenedTwice(dir: Directory) returns (lost: nat, again: nat)
    requires dir.Valid() && Top(dir.parts) + 3 < LIMIT
    modifies dir
    ensures dir.Valid() && lost == again == Top(old(dir.parts)) + 2
  {
    hide Stored, EncodeRecord, NewRecord, FileName;
    var w := new WalFileWriter(dir);
    w.Init(0);
    w.Init(0);
    lost := w.Append(1, [], 0);
    w.Close(0);
    again := NextAfterRestart(dir, 0);
  }

  /**
   * A writer that was not initialised has no current file to spare. After its truncation the next
   * number is above all numbers handed out before exactly when there were none, or when the truncation
   * was asked to keep the last number stored.
   */
  method NextAfterTruncation(dir: Directory, seqNo: nat) returns (next: nat)
    requires dir.Valid()
    modifies dir
    ensures next > old(dir.issued) <==> old(dir.issued) == 0 || seqNo <= Top(old(dir.parts))
  {
    hide Stored, Survivors, Doomed;
    var v := new WalFileWriter(dir);
    var deleted := v.TruncateBefore(seqNo);
    var last := v.LastNumber();
    next := last + 1;
  }

  /** With one record stored, a truncation behind it hands its number out again. */
  method ReusedNumber(dir: Directory) returns (first: nat, again: nat)
    requires dir.Valid() && dir.parts == []
    modifies dir
    ensures first == again
  {
    hide Stored, Survivors, Doomed;
    first := OneRecord(dir);
    var v := new WalFileWriter(dir);
    ghost var parts := dir.parts;
    var deleted := v.TruncateBefore(first + 1);
    OneGone(parts, first + 1);
    var last := v.LastNumber();
    again := last + 1;
  }

  /** A log of one record, closed. */
  method OneRecord(dir: Directory) returns (first: nat)
    requires dir.Valid() && dir.parts == []
    modifies dir
    ensures dir.Valid() && |dir.parts| == 1 && dir.parts[0].Last() == first == 1
  {
    hide Stored, EncodeRecord, NewRecord;
    var w := new WalFileWriter(dir);
    w.Init(0);
    first := w.Append(0, [], 0);
    w.Close(0);
  }

  lemma OneGone(parts: seq<Part>, seqNo: nat)
    requires |parts| == 1 && parts[0].Last() < seqNo
    ensures Survivors(parts, seqNo, false) == []
  {
    assert parts[1..] == [];
  }
}
