/** A directory of log files, and the run of records that it stores. */
module WalDirectory {
  import opened WalFormat
  import opened WalNames

  type Files = map<string, seq<bv8>>

  /** One file: its first number, and records with consecutive numbers from there. */
  datatype Part = Part(start: nat, records: seq<Record>)
  {
    /** A file without records stands for its first number. */
    function Last(): nat {
      if records == [] then start else start + |records| - 1
    }

    ghost predicate Ok() {
      && 1 <= start && Last() < LIMIT
      && forall j :: 0 <= j < |records| ==> records[j].Whole() && records[j].header.seqNo == start + j
    }
  }

  function Top(parts: seq<Part>): nat {
    if parts == [] then 0 else parts[|parts| - 1].Last()
  }

  ghost predicate Ascending(parts: seq<Part>) {
    && (forall i :: 0 <= i < |parts| ==> parts[i].Ok())
    && (forall i, j :: 0 <= i < j < |parts| ==> parts[i].Last() < parts[j].start)
  }

  ghost predicate Holds(file: seq<bv8>, p: Part) {
    && |file| >= FILE_HEADER_SIZE && MagicOk(file) && StartSeq(file) == p.start
    && file[FILE_HEADER_SIZE..] == EncodeRecords(p.records)
  }

  function FileName(prefix: string, p: Part): string {
    Name(prefix, p.start)
  }

  /** The log files of the directory are those of the parts; other files may lie beside them. */
  ghost predicate Stored(prefix: string, files: Files, parts: seq<Part>) {
    && Plain(prefix) && Ascending(parts)
    && (forall i :: 0 <= i < |parts| ==>
          FileName(prefix, parts[i]) in files && Holds(files[FileName(prefix, parts[i])], parts[i]))
    && (forall name :: name in files && IsWal(name) ==>
          exists i :: 0 <= i < |parts| && FileName(prefix, parts[i]) == name)
  }

  /** What a scan finds in the file of a part. */
  lemma PartFile(prefix: string, files: Files, parts: seq<Part>, i: nat)
    requires Stored(prefix, files, parts) && i < |parts|
    ensures var name := FileName(prefix, parts[i]);
            && name in files && IsWal(name) && ParseSeq(name) == parts[i].start
            && Records(files[name]) == parts[i].records && LastSeq(files[name]) == parts[i].Last()
  {
    hide Scan, EncodeRecords, ParseSeq, IsWal, Name, MagicOk, StartSeq;
    var p := parts[i];
    assert p.Ok() && p.start < LIMIT;
    ParseName(prefix, p.start);
    ScanEncoded(p.records);
  }

  lemma FilesDiffer(prefix: string, p: Part, q: Part)
    requires Plain(prefix) && p.start < LIMIT && q.start < LIMIT
    ensures FileName(prefix, p) == FileName(prefix, q) <==> p.start == q.start
  {
    NamesDiffer(prefix, p.start, q.start);
  }

  /** Starts and last numbers rise together. */
  lemma PartOrder(parts: seq<Part>, i: nat, j: nat)
    requires Ascending(parts) && i < |parts| && j < |parts|
    ensures i < j <==> parts[i].Last() < parts[j].start
    ensures i == j <==> parts[i].start == parts[j].start
  {
    assert parts[i].Ok() && parts[j].Ok();
  }

  /** The name of the next file is free, so creating it truncates nothing, and the new file is stored. */
  lemma NextFile(prefix: string, files: Files, parts: seq<Part>, count: nat, time: nat)
    requires Stored(prefix, files, parts) && Top(parts) + 1 < LIMIT
    ensures var p := Part(Top(parts) + 1, []);
            && FileName(prefix, p) !in files
            && Stored(prefix, files[FileName(prefix, p) := EncodeFileHeader(p.start, count, time)], parts + [p])
  {
    hide Scan, EncodeFileHeader, MagicOk, StartSeq;
    var p := Part(Top(parts) + 1, []);
    var name, bytes := FileName(prefix, p), EncodeFileHeader(p.start, count, time);
    ParseName(prefix, p.start);
    FileHeaderRead(p.start, count, time, []);
    assert bytes + [] == bytes;
    hide Name, ParseSeq, IsWal;
    forall i | 0 <= i < |parts| ensures parts[i].Last() < p.start && FileName(prefix, parts[i]) != name {
      PartOrder(parts, i, |parts| - 1);
      assert parts[i].Ok();
      FilesDiffer(prefix, parts[i], p);
    }
    StoredMore(prefix, files, parts, p, bytes);
  }

  lemma StoredMore(prefix: string, files: Files, parts: seq<Part>, p: Part, bytes: seq<bv8>)
    requires Stored(prefix, files, parts) && p.Ok() && Holds(bytes, p)
    requires forall i :: 0 <= i < |parts| ==> parts[i].Last() < p.start && FileName(prefix, parts[i]) != FileName(prefix, p)
    ensures Stored(prefix, files[FileName(prefix, p) := bytes], parts + [p])
  {
    hide Name, IsWal, Holds, Part.Last, Part.Ok;
    var files', parts' := files[FileName(prefix, p) := bytes], parts + [p];
    forall name | name in files' && IsWal(name)
      ensures exists i :: 0 <= i < |parts'| && FileName(prefix, parts'[i]) == name
    {
      if name == FileName(prefix, p) {
        assert parts'[|parts|] == p;
      } else {
        var i :| 0 <= i < |parts| && FileName(prefix, parts[i]) == name;
        assert parts'[i] == parts[i];
      }
    }
  }

  /** The last file is rewritten and still holds the last part, which may have grown. */
  lemma StoredLast(prefix: string, files: Files, parts: seq<Part>, p: Part, bytes: seq<bv8>)
    requires Stored(prefix, files, parts) && parts != [] && p.Ok() && Holds(bytes, p)
    requires p.start == parts[|parts| - 1].start
    ensures Stored(prefix, files[FileName(prefix, p) := bytes], parts[..|parts| - 1] + [p])
  {
    hide Name, IsWal, Holds;
    var n := |parts| - 1;
    var files', parts' := files[FileName(prefix, p) := bytes], parts[..n] + [p];
    forall i | 0 <= i < n
      ensures parts'[i] == parts[i] && parts[i].Last() < p.start && FileName(prefix, parts[i]) != FileName(prefix, p)
    {
      assert parts[i].Ok();
      FilesDiffer(prefix, parts[i], p);
    }
    forall name | name in files' && IsWal(name)
      ensures exists i :: 0 <= i < |parts'| && FileName(prefix, parts'[i]) == name
    {
      var i :| 0 <= i < |parts| && FileName(prefix, parts[i]) == name;
      assert FileName(prefix, parts'[i]) == name;
    }
  }

  /** The parts that survive a truncation: from the front, those that end before seq go; the current file stays. */
  function Survivors(parts: seq<Part>, seqNo: nat, keepLast: bool): seq<Part> {
    if parts == [] || (keepLast && |parts| == 1) || parts[0].Last() >= seqNo then parts
    else Survivors(parts[1..], seqNo, keepLast)
  }

  /** The survivors are the end of the list; no number from seq on is among the rest. */
  lemma {:induction false} SurvivorsEnd(parts: seq<Part>, seqNo: nat, keepLast: bool)
    requires Ascending(parts)
    ensures var kept := Survivors(parts, seqNo, keepLast); var d := |parts| - |kept|;
            && 0 <= d <= |parts| && kept == parts[d..]
            && (forall i :: 0 <= i < d ==> parts[i].Last() < seqNo)
            && (forall i :: d <= i < |parts| ==> parts[i].Last() >= seqNo || (keepLast && i == |parts| - 1))
            && (keepLast && parts != [] ==> kept != [])
  {
    if parts == [] || (keepLast && |parts| == 1) {
    } else if parts[0].Last() >= seqNo {
      forall i | 0 <= i < |parts| ensures parts[i].Last() >= seqNo {
        PartOrder(parts, 0, i);
        assert parts[i].Ok();
      }
    } else {
      SurvivorsEnd(parts[1..], seqNo, keepLast);
    }
  }

  /** Without a file to spare, the last number survives exactly when it lies from seqNo on. */
  lemma SurvivorsTop(parts: seq<Part>, seqNo: nat)
    requires Ascending(parts)
    ensures Top(Survivors(parts, seqNo, false)) == if parts != [] && Top(parts) >= seqNo then Top(parts) else 0
    ensures parts != [] ==> Top(Survivors(parts, seqNo, true)) == Top(parts)
  {
    SurvivorsEnd(parts, seqNo, false);
    SurvivorsEnd(parts, seqNo, true);
  }

  /** The files a truncation deletes. */
  predicate Doomed(files: Files, name: string, seqNo: nat, current: string)
    requires name in files
  {
    IsWal(name) && LastSeq(files[name]) < seqNo && name != current
  }

  /** The name of a part is not that of another one. */
  lemma SameFile(prefix: string, files: Files, parts: seq<Part>, i: nat)
    requires Stored(prefix, files, parts) && i < |parts|
    ensures forall j :: 0 <= j < |parts| && FileName(prefix, parts[j]) == FileName(prefix, parts[i]) ==> j == i
  {
    hide Name, Holds, IsWal;
    forall j | 0 <= j < |parts| && FileName(prefix, parts[j]) == FileName(prefix, parts[i]) ensures j == i {
      assert parts[i].Ok() && parts[j].Ok();
      FilesDiffer(prefix, parts[j], parts[i]);
      PartOrder(parts, j, i);
    }
  }

  /** The name is not that of a part. */
  ghost predicate NoPart(prefix: string, parts: seq<Part>, name: string) {
    forall i :: 0 <= i < |parts| ==> FileName(prefix, parts[i]) != name
  }

  /** The current file is that of the last part, when there is one. */
  ghost predicate Current(prefix: string, parts: seq<Part>, current: string, keepLast: bool) {
    if keepLast then parts != [] && current == FileName(prefix, parts[|parts| - 1]) else NoPart(prefix, parts, current)
  }

  lemma DoomedPart(prefix: string, files: Files, parts: seq<Part>, seqNo: nat, current: string, keepLast: bool, i: nat)
    requires Stored(prefix, files, parts) && Current(prefix, parts, current, keepLast) && i < |parts|
    ensures FileName(prefix, parts[i]) in files
    ensures Doomed(files, FileName(prefix, parts[i]), seqNo, current)
            <==> parts[i].Last() < seqNo && !(keepLast && i == |parts| - 1)
  {
    hide Name, LastSeq, Records, ParseSeq;
    PartFile(prefix, files, parts, i);
    SameFile(prefix, files, parts, i);
  }

  /** Deleting the doomed files leaves the files of the survivors. */
  lemma Truncated(prefix: string, files: Files, files': Files, parts: seq<Part>, seqNo: nat, current: string, keepLast: bool)
    requires Stored(prefix, files, parts) && Current(prefix, parts, current, keepLast)
    requires forall name :: name in files' <==> name in files && !Doomed(files, name, seqNo, current)
    requires forall name :: name in files' ==> files'[name] == files[name]
    ensures Stored(prefix, files', Survivors(parts, seqNo, keepLast))
  {
    hide Name, Doomed, Holds, IsWal, Survivors, Part.Ok;
    SurvivorsEnd(parts, seqNo, keepLast);
    var kept := Survivors(parts, seqNo, keepLast);
    var d := |parts| - |kept|;
    forall i | 0 <= i < |kept| ensures kept[i] == parts[d + i] && FileName(prefix, kept[i]) in files' {
      DoomedPart(prefix, files, parts, seqNo, current, keepLast, d + i);
    }
    forall name | name in files' && IsWal(name) ensures exists i :: 0 <= i < |kept| && FileName(prefix, kept[i]) == name {
      var i :| 0 <= i < |parts| && FileName(prefix, parts[i]) == name;
      DoomedPart(prefix, files, parts, seqNo, current, keepLast, i);
      assert kept[i - d] == parts[i];
    }
  }

  /** Every record numbered seq or more lies in a surviving part. */
  lemma SurvivorsHold(parts: seq<Part>, seqNo: nat, keepLast: bool, i: nat, j: nat)
    requires Ascending(parts) && i < |parts| && j < |parts[i].records| && parts[i].records[j].header.seqNo >= seqNo
    ensures parts[i] in Survivors(parts, seqNo, keepLast)
  {
    SurvivorsEnd(parts, seqNo, keepLast);
    assert parts[i].Ok();
    var d := |parts| - |Survivors(parts, seqNo, keepLast)|;
    assert i >= d;
    assert parts[i] == parts[d..][i - d];
  }

  /** The records of files in some order. */
  function Together(files: Files, order: seq<string>): seq<Record>
    requires forall i :: 0 <= i < |order| ==> order[i] in files
  {
    if order == [] then []
    else Together(files, order[..|order| - 1]) + Records(files[order[|order| - 1]])
  }

  /** The records of every file listed are among them. */
  lemma {:induction false} TogetherHas(files: Files, order: seq<string>, name: string, r: Record)
    requires (forall i :: 0 <= i < |order| ==> order[i] in files) && name in order && r in Records(files[name])
    ensures r in Together(files, order)
  {
    hide Records;
    var n := |order| - 1;
    if order[n] == name {
    } else {
      assert order == order[..n] + [order[n]];
      TogetherHas(files, order[..n], name, r);
    }
  }

  function Wanted(rs: seq<Record>, after: nat): seq<Record> {
    if rs == [] then []
    else
      var n := |rs| - 1;
      Wanted(rs[..n], after) + (if rs[n].header.seqNo > after then [rs[n]] else [])
  }

  lemma {:induction false} WantedMembers(rs: seq<Record>, after: nat)
    ensures forall r :: r in Wanted(rs, after) <==> r in rs && r.header.seqNo > after
  {
    if rs == [] {
    } else {
      var n := |rs| - 1;
      WantedMembers(rs[..n], after);
      assert rs == rs[..n] + [rs[n]];
    }
  }

  lemma {:induction false} WantedConcat(a: seq<Record>, b: seq<Record>, after: nat)
    ensures Wanted(a + b, after) == Wanted(a, after) + Wanted(b, after)
  {
    if b == [] {
      assert a + b == a;
    } else {
      var n := |b| - 1;
      WantedConcat(a, b[..n], after);
      assert (a + b)[..|a + b| - 1] == a + b[..n];
    }
  }

  ghost predicate Distinct(rs: seq<Record>) {
    forall i, j :: 0 <= i < j < |rs| ==> rs[i].header.seqNo != rs[j].header.seqNo
  }

  lemma {:induction false} DistinctWanted(rs: seq<Record>, after: nat)
    requires Distinct(rs)
    ensures Distinct(Wanted(rs, after))
  {
    if rs == [] {
    } else {
      var n := |rs| - 1;
      DistinctWanted(rs[..n], after);
      WantedMembers(rs[..n], after);
      forall r | r in Wanted(rs[..n], after) ensures r.header.seqNo != rs[n].header.seqNo {
        assert r in rs[..n];
      }
    }
  }

  /** The log files of the directory, each once, in any order. */
  ghost predicate ListsLogs(order: seq<string>, files: Files) {
    && (forall name :: name in order <==> name in files && IsWal(name))
    && (forall i, j :: 0 <= i < j < |order| ==> order[i] != order[j])
  }

  ghost predicate Logged(r: Record, parts: seq<Part>) {
    exists i :: 0 <= i < |parts| && r in parts[i].records
  }

  lemma DistinctConcat(a: seq<Record>, b: seq<Record>)
    requires forall r, q :: r in a && q in b ==> r.header.seqNo != q.header.seqNo
    ensures Distinct([])
    ensures Distinct(a) && Distinct(b) ==> Distinct(a + b)
  {
  }

  lemma PartsApart(parts: seq<Part>, i: nat, k: nat, r: Record)
    requires Ascending(parts) && i < |parts| && k < |parts| && i != k && r in parts[i].records
    ensures forall q :: q in parts[k].records ==> r.header.seqNo != q.header.seqNo
  {
    assert parts[i].Ok() && parts[k].Ok();
    PartOrder(parts, i, k);
    PartOrder(parts, k, i);
  }

  /** The record belongs to a part whose file is among those listed. */
  ghost predicate Among(r: Record, prefix: string, parts: seq<Part>, order: seq<string>) {
    exists i :: 0 <= i < |parts| && FileName(prefix, parts[i]) in order && r in parts[i].records
  }

  ghost predicate SomeLogs(order: seq<string>, files: Files) {
    && (forall i :: 0 <= i < |order| ==> order[i] in files && IsWal(order[i]))
    && (forall i, j :: 0 <= i < j < |order| ==> order[i] != order[j])
  }

  /** The part whose file comes last. */
  lemma LastListed(prefix: string, files: Files, parts: seq<Part>, order: seq<string>) returns (k: nat)
    requires Stored(prefix, files, parts) && SomeLogs(order, files) && order != []
    ensures SomeLogs(order[..|order| - 1], files) && k < |parts| && FileName(prefix, parts[k]) == order[|order| - 1]
    ensures Together(files, order) == Together(files, order[..|order| - 1]) + parts[k].records
    ensures forall r :: Among(r, prefix, parts, order) <==>
              Among(r, prefix, parts, order[..|order| - 1]) || r in parts[k].records
    ensures forall i :: 0 <= i < |parts| && FileName(prefix, parts[i]) in order[..|order| - 1] ==> i != k
    ensures forall i :: 0 <= i < |parts| && FileName(prefix, parts[i]) == order[|order| - 1] ==> i == k
  {
    hide Stored, FileName, Records, Among;
    var n := |order| - 1;
    var name := order[n];
    assert name in files && IsWal(name);
    k := FindPart(prefix, files, parts, name);
    MoreAmong(prefix, parts, order[..n], name, k);
    assert order == order[..n] + [name];
  }

  lemma FindPart(prefix: string, files: Files, parts: seq<Part>, name: string) returns (k: nat)
    requires Stored(prefix, files, parts) && name in files && IsWal(name)
    ensures k < |parts| && FileName(prefix, parts[k]) == name && Records(files[name]) == parts[k].records
    ensures forall j :: 0 <= j < |parts| && FileName(prefix, parts[j]) == name ==> j == k
  {
    hide IsWal, Name, Records, Holds, Part.Ok;
    var i :| 0 <= i < |parts| && FileName(prefix, parts[i]) == name;
    k := i;
    PartFile(prefix, files, parts, k);
    SameFile(prefix, files, parts, k);
  }

  lemma MoreAmong(prefix: string, parts: seq<Part>, front: seq<string>, name: string, k: nat)
    requires k < |parts| && FileName(prefix, parts[k]) == name
    requires forall j :: 0 <= j < |parts| && FileName(prefix, parts[j]) == name ==> j == k
    ensures forall r :: Among(r, prefix, parts, front + [name]) <==> Among(r, prefix, parts, front) || r in parts[k].records
  {
    hide FileName;
  }

  lemma {:induction false} TogetherMembers(prefix: string, files: Files, parts: seq<Part>, order: seq<string>)
    requires Stored(prefix, files, parts) && SomeLogs(order, files)
    ensures forall r :: r in Together(files, order) <==> Among(r, prefix, parts, order)
  {
    if order == [] {
    } else {
      hide Stored, Among;
      TogetherMembers(prefix, files, parts, order[..|order| - 1]);
      var k := LastListed(prefix, files, parts, order);
    }
  }

  lemma {:induction false} TogetherDistinct(prefix: string, files: Files, parts: seq<Part>, order: seq<string>)
    requires Stored(prefix, files, parts) && SomeLogs(order, files)
    ensures Distinct(Together(files, order))
  {
    if order == [] {
    } else {
      hide Stored, Distinct, FileName;
      var front := order[..|order| - 1];
      var k := LastListed(prefix, files, parts, order);
      TogetherDistinct(prefix, files, parts, front);
      TogetherMembers(prefix, files, parts, front);
      AmongApart(prefix, files, parts, front, k);
      DistinctConcat(Together(files, front), parts[k].records);
    }
  }

  lemma AmongApart(prefix: string, files: Files, parts: seq<Part>, front: seq<string>, k: nat)
    requires Stored(prefix, files, parts) && k < |parts|
    requires forall i :: 0 <= i < |parts| && FileName(prefix, parts[i]) in front ==> i != k
    ensures forall r, q :: Among(r, prefix, parts, front) && q in parts[k].records ==> r.header.seqNo != q.header.seqNo
    ensures Distinct(parts[k].records)
  {
    hide FileName, Holds, IsWal;
    assert parts[k].Ok();
    forall r, q | Among(r, prefix, parts, front) && q in parts[k].records ensures r.header.seqNo != q.header.seqNo {
      var i :| 0 <= i < |parts| && FileName(prefix, parts[i]) in front && r in parts[i].records;
      PartsApart(parts, i, k, r);
    }
  }

  /** Whatever the order of the files: each stored record above the given number is found, and found once. */
  lemma ReadsEach(prefix: string, files: Files, parts: seq<Part>, order: seq<string>, after: nat)
    requires Stored(prefix, files, parts) && ListsLogs(order, files)
    ensures var rs := Wanted(Together(files, order), after);
            && Distinct(rs)
            && forall r :: r in rs <==> Logged(r, parts) && r.header.seqNo > after
  {
    hide IsWal, Name, Records, Holds, Wanted, Together, Distinct;
    TogetherMembers(prefix, files, parts, order);
    TogetherDistinct(prefix, files, parts, order);
    DistinctWanted(Together(files, order), after);
    WantedMembers(Together(files, order), after);
    AllListed(prefix, files, parts, order);
  }

  lemma AllListed(prefix: string, files: Files, parts: seq<Part>, order: seq<string>)
    requires Stored(prefix, files, parts) && ListsLogs(order, files)
    ensures forall i :: 0 <= i < |parts| ==> FileName(prefix, parts[i]) in order
  {
    forall i | 0 <= i < |parts| ensures FileName(prefix, parts[i]) in order {
      PartFile(prefix, files, parts, i);
    }
  }

  /** The sorted list of the log files does not depend on the order of the directory. */
  lemma OneOrder(files: Files, a: seq<string>, b: seq<string>)
    requires ListsLogs(a, files) && ListsLogs(b, files) && Sorted(a) && Sorted(b)
    ensures a == b
  {
    SortedUnique(a, b);
  }

  ghost predicate Rising(rs: seq<Record>) {
    forall i, j :: 0 <= i < j < |rs| ==> rs[i].header.seqNo < rs[j].header.seqNo
  }

  /** The part has a record above the given number. */
  predicate Reaches(p: Part, after: nat) {
    p.records != [] && p.Last() > after
  }

  lemma WantedReaches(p: Part, after: nat, r: Record)
    requires p.Ok() && r in Wanted(p.records, after)
    ensures Reaches(p, after) && r in p.records && r.header.seqNo > after
  {
    WantedMembers(p.records, after);
  }

  lemma ReachesWanted(p: Part, after: nat) returns (r: Record)
    requires p.Ok() && Reaches(p, after)
    ensures r in Wanted(p.records, after) && r in p.records
  {
    WantedMembers(p.records, after);
    r := p.records[|p.records| - 1];
  }

  lemma {:induction false} WantedRises(rs: seq<Record>, after: nat)
    requires Rising(rs)
    ensures Rising(Wanted(rs, after))
  {
    if rs == [] {
    } else {
      var n := |rs| - 1;
      WantedRises(rs[..n], after);
      WantedMembers(rs[..n], after);
      forall r | r in Wanted(rs[..n], after) ensures r.header.seqNo < rs[n].header.seqNo {
        assert r in rs[..n];
      }
    }
  }

  lemma RisingConcat(a: seq<Record>, b: seq<Record>)
    requires Rising(b)
    ensures Rising(a + b) <==> Rising(a) && forall r, q :: r in a && q in b ==> r.header.seqNo < q.header.seqNo
  {
    if Rising(a + b) {
      forall i, j | 0 <= i < j < |a| ensures a[i].header.seqNo < a[j].header.seqNo {
        assert (a + b)[i] == a[i] && (a + b)[j] == a[j];
      }
      forall r, q | r in a && q in b ensures r.header.seqNo < q.header.seqNo {
        var i :| 0 <= i < |a| && a[i] == r;
        var j :| 0 <= j < |b| && b[j] == q;
        assert (a + b)[i] == r && (a + b)[|a| + j] == q;
      }
    }
  }

  /** Of the parts among the listed files that reach above the number, a lower one has the lesser name. */
  ghost predicate NamedInOrder(prefix: string, parts: seq<Part>, order: seq<string>, after: nat) {
    forall i, j :: 0 <= i < j < |parts| && Reaches(parts[i], after) && Reaches(parts[j], after)
                   && FileName(prefix, parts[i]) in order && FileName(prefix, parts[j]) in order ==>
      Less(FileName(prefix, parts[i]), FileName(prefix, parts[j]))
  }

  lemma SortedFront(front: seq<string>, last: string)
    requires Sorted(front + [last])
    ensures Sorted(front)
    ensures forall name :: name in front ==> Less(name, last) && !Less(last, name)
  {
    hide Less;
    var order := front + [last];
    forall i, j | 0 <= i < j < |front| ensures Less(front[i], front[j]) {
      assert Less(order[i], order[j]);
    }
    forall name | name in front ensures Less(name, last) && !Less(last, name) {
      var i :| 0 <= i < |front| && front[i] == name;
      assert Less(order[i], order[|front|]);
      LessTotal(name, last);
    }
  }

  lemma PartRises(prefix: string, files: Files, parts: seq<Part>, k: nat, after: nat)
    requires Stored(prefix, files, parts) && k < |parts|
    ensures Rising(Wanted(parts[k].records, after))
  {
    hide Name, Holds, IsWal, Wanted;
    assert parts[k].Ok();
    WantedRises(parts[k].records, after);
  }

  /** What the records found before the file of part k have to do with its records. */
  ghost predicate AllBelow(found: seq<Record>, p: Part, after: nat) {
    forall r, q :: r in found && q in Wanted(p.records, after) ==> r.header.seqNo < q.header.seqNo
  }

  /** The part of a record found, against part k. */
  lemma FoundIn(prefix: string, files: Files, parts: seq<Part>, front: seq<string>, after: nat, r: Record) returns (i: nat)
    requires Stored(prefix, files, parts) && SomeLogs(front, files) && r in Wanted(Together(files, front), after)
    ensures i < |parts| && FileName(prefix, parts[i]) in front && Reaches(parts[i], after) && r in parts[i].records
  {
    hide Stored, Wanted, Together, FileName, IsWal, Reaches;
    WantedMembers(Together(files, front), after);
    TogetherMembers(prefix, files, parts, front);
    i :| 0 <= i < |parts| && FileName(prefix, parts[i]) in front && r in parts[i].records;
    WantedMembers(parts[i].records, after);
    PartOk(prefix, files, parts, i);
    WantedReaches(parts[i], after, r);
  }

  lemma PartOk(prefix: string, files: Files, parts: seq<Part>, i: nat)
    requires Stored(prefix, files, parts) && i < |parts|
    ensures parts[i].Ok()
  {
  }

  /** A part that reaches above the number contributes a record. */
  lemma Contributes(prefix: string, files: Files, parts: seq<Part>, front: seq<string>, after: nat, i: nat) returns (r: Record)
    requires Stored(prefix, files, parts) && SomeLogs(front, files)
    requires i < |parts| && FileName(prefix, parts[i]) in front && Reaches(parts[i], after)
    ensures r in Wanted(Together(files, front), after) && r in parts[i].records
  {
    hide Stored, Wanted, Together, FileName, IsWal, Reaches;
    PartOk(prefix, files, parts, i);
    r := ReachesWanted(parts[i], after);
    WantedMembers(parts[i].records, after);
    WantedMembers(Together(files, front), after);
    TogetherMembers(prefix, files, parts, front);
    assert Among(r, prefix, parts, front);
  }

  lemma RecordsApart(prefix: string, files: Files, parts: seq<Part>, i: nat, k: nat, r: Record, q: Record)
    requires Stored(prefix, files, parts) && i < |parts| && k < |parts| && i != k
    requires r in parts[i].records && q in parts[k].records
    ensures r.header.seqNo < q.header.seqNo <==> i < k
  {
    hide FileName, Holds, IsWal;
    PartOrder(parts, i, k);
    PartOrder(parts, k, i);
    assert parts[i].Ok() && parts[k].Ok();
  }

  /** The file of part k comes last, behind those listed in front. */
  ghost predicate ComesLast(prefix: string, parts: seq<Part>, front: seq<string>, k: nat) {
    && k < |parts|
    && (forall i :: 0 <= i < |parts| && FileName(prefix, parts[i]) in front ==> i != k)
    && (forall i :: 0 <= i < |parts| && FileName(prefix, parts[i]) == FileName(prefix, parts[k]) ==> i == k)
    && (forall name :: name in front ==> Less(name, FileName(prefix, parts[k])) && !Less(FileName(prefix, parts[k]), name))
  }

  lemma NamesThenNumbers(prefix: string, files: Files, parts: seq<Part>, front: seq<string>, after: nat, k: nat)
    requires Stored(prefix, files, parts) && SomeLogs(front, files) && ComesLast(prefix, parts, front, k)
    requires NamedInOrder(prefix, parts, front + [FileName(prefix, parts[k])], after)
    ensures NamedInOrder(prefix, parts, front, after) && AllBelow(Wanted(Together(files, front), after), parts[k], after)
  {
    hide Stored, Wanted, Together, FileName, IsWal, Reaches, Less;
    var order := front + [FileName(prefix, parts[k])];
    assert FileName(prefix, parts[k]) in order;
    assert forall name :: name in front ==> name in order;
    forall r, q | r in Wanted(Together(files, front), after) && q in Wanted(parts[k].records, after)
      ensures r.header.seqNo < q.header.seqNo
    {
      var i := FoundIn(prefix, files, parts, front, after, r);
      PartOk(prefix, files, parts, k);
      WantedReaches(parts[k], after, q);
      RecordsApart(prefix, files, parts, i, k, r, q);
    }
  }

  lemma NumbersThenNames(prefix: string, files: Files, parts: seq<Part>, front: seq<string>, after: nat, k: nat)
    requires Stored(prefix, files, parts) && SomeLogs(front, files) && ComesLast(prefix, parts, front, k)
    requires NamedInOrder(prefix, parts, front, after) && AllBelow(Wanted(Together(files, front), after), parts[k], after)
    ensures NamedInOrder(prefix, parts, front + [FileName(prefix, parts[k])], after)
  {
    hide Stored, Wanted, Together, FileName, IsWal, Reaches, Less;
    forall j | k < j < |parts| && Reaches(parts[k], after) && Reaches(parts[j], after)
      ensures FileName(prefix, parts[j]) !in front
    {
      if FileName(prefix, parts[j]) in front {
        var r := Contributes(prefix, files, parts, front, after, j);
        PartOk(prefix, files, parts, k);
        var q := ReachesWanted(parts[k], after);
        RecordsApart(prefix, files, parts, j, k, r, q);
      }
    }
  }

  /** One more file, which comes last. */
  lemma RisesLast(prefix: string, files: Files, parts: seq<Part>, front: seq<string>, after: nat, k: nat)
    requires Stored(prefix, files, parts) && SomeLogs(front, files) && ComesLast(prefix, parts, front, k)
    ensures var a, b := Wanted(Together(files, front), after), Wanted(parts[k].records, after);
            (Rising(a) <==> NamedInOrder(prefix, parts, front, after)) ==>
            (Rising(a + b) <==> NamedInOrder(prefix, parts, front + [FileName(prefix, parts[k])], after))
  {
    hide Stored, Wanted, Together, FileName, Rising, NamedInOrder, IsWal, Less;
    PartRises(prefix, files, parts, k, after);
    RisingConcat(Wanted(Together(files, front), after), Wanted(parts[k].records, after));
    if NamedInOrder(prefix, parts, front + [FileName(prefix, parts[k])], after) {
      NamesThenNumbers(prefix, files, parts, front, after, k);
    } else if NamedInOrder(prefix, parts, front, after) && AllBelow(Wanted(Together(files, front), after), parts[k], after) {
      NumbersThenNames(prefix, files, parts, front, after, k);
    }
  }

  /** Read file by file in the sorted order, numbers rise exactly when the names are in order. */
  lemma {:induction false} RisesExactly(prefix: string, files: Files, parts: seq<Part>, order: seq<string>, after: nat)
    requires Stored(prefix, files, parts) && SomeLogs(order, files) && Sorted(order)
    ensures Rising(Wanted(Together(files, order), after)) <==> NamedInOrder(prefix, parts, order, after)
  {
    if order == [] {
      hide Stored, FileName, Less, Reaches, Records;
    } else {
      hide Stored, Wanted, Together, FileName, Less, Rising, NamedInOrder, IsWal, Sorted, Records;
      var front := order[..|order| - 1];
      var k := LastListed(prefix, files, parts, order);
      assert order == front + [FileName(prefix, parts[k])];
      SortedFront(front, FileName(prefix, parts[k]));
      RisesExactly(prefix, files, parts, front, after);
      WantedConcat(Together(files, front), parts[k].records, after);
      RisesLast(prefix, files, parts, front, after, k);
    }
  }

  /** The parts that reach above the number have names in the order of their numbers. */
  predicate InOrder(parts: seq<Part>, after: nat) {
    forall i, j :: 0 <= i < j < |parts| && Reaches(parts[i], after) && Reaches(parts[j], after) ==>
      Before(parts[i].start, parts[j].start)
  }

  /** The sorted list is read in the order of the numbers exactly when the decimal names of the parts read from are in order. */
  lemma ReadsInOrder(prefix: string, files: Files, parts: seq<Part>, order: seq<string>, after: nat)
    requires Stored(prefix, files, parts) && ListsLogs(order, files) && Sorted(order)
    ensures Rising(Wanted(Together(files, order), after)) <==> InOrder(parts, after)
  {
    hide Stored, Wanted, Together, Less, Reaches, Rising, IsWal, Sorted, Before, Name;
    assert forall i :: 0 <= i < |order| ==> order[i] in order;
    RisesExactly(prefix, files, parts, order, after);
    AllListed(prefix, files, parts, order);
    forall i, j | 0 <= i < j < |parts|
      ensures Less(FileName(prefix, parts[i]), FileName(prefix, parts[j])) <==> Before(parts[i].start, parts[j].start)
    {
      NameOrder(prefix, parts[i].start, parts[j].start);
    }
  }

  /** A directory iterator visits every file once, in an order of its own. */
  ghost predicate Lists(order: seq<string>, files: Files) {
    && (forall name :: name in order <==> name in files)
    && (forall i, j :: 0 <= i < j < |order| ==> order[i] != order[j])
  }

  method Listing(files: Files) returns (order: seq<string>)
    ensures Lists(order, files)
  {
    order := [];
    var left := files.Keys;
    while left != {}
      invariant left <= files.Keys
      invariant forall name :: name in order <==> name in files && name !in left
      invariant forall i, j :: 0 <= i < j < |order| ==> order[i] != order[j]
      decreases |left|
    {
      var name :| name in left;
      order := order + [name];
      left := left - {name};
    }
  }
}
