/** The writer and the reader of log files. */
module WalFile {
  import opened Bytes
  import Crc32
  import WalEntry
  import opened WalDirectory
  import opened WalFormat
  import opened WalNames

  /** The directory, with the run of records it stores and the largest number handed out for one. */
  class Directory {
    const prefix: string
    var files: Files
    ghost var parts: seq<Part>
    ghost var issued: nat

    ghost predicate Valid()
      reads this
    {
      Stored(prefix, files, parts) && issued <= Top(parts)
    }

    constructor (prefix: string)
      requires Plain(prefix)
      ensures Valid() && files == map[] && parts == [] && issued == 0 && this.prefix == prefix
    {
      this.prefix := prefix;
      files := map[];
      parts := [];
      issued := 0;
    }
  }

  /** The file begins with its mark, the first number, the number of records, and the time. */
  ghost predicate Heads(file: seq<bv8>, first: nat, count: nat, time: nat) {
    && |file| >= 64 && file[..4] == [0x57, 0x46, 0x52, 0x5A] && FromLE(file[4..8]) == 1
    && FromLE(file[8..16]) == first && FromLE(file[16..24]) == count && FromLE(file[24..32]) == time
    && file[32..64] == seq(32, _ => 0)
  }

  lemma HeaderHeads(first: nat, count: nat, time: nat, rest: seq<bv8>)
    requires first < LIMIT && count < LIMIT && time < LIMIT
    ensures Heads(EncodeFileHeader(first, count, time) + rest, first, count, time)
  {
    hide EncodeFileHeader, FromLE;
    HeaderValues(first, count, time);
    var h := EncodeFileHeader(first, count, time);
    var file := h + rest;
    assert file[..4] == h[..4] && file[4..8] == h[4..8] && file[8..16] == h[8..16];
    assert file[16..24] == h[16..24] && file[24..32] == h[24..32] && file[32..64] == h[32..];
  }

  lemma CountFits(prefix: string, files: Files, parts: seq<Part>)
    requires Stored(prefix, files, parts) && parts != []
    ensures var p := parts[|parts| - 1]; p.start < LIMIT && |p.records| < LIMIT
  {
    hide Name, Holds, IsWal;
    assert parts[|parts| - 1].Ok();
  }

  class WalFileWriter {
    const dir: Directory
    var currentFile: string
    var isOpen: bool
    var currentSeq: nat
    var entryCount: nat
    var failed: bool
    ghost var started: bool

    /** An initialised writer stands behind the last record of the last file. */
    ghost predicate Ready()
      reads this, dir
    {
      && dir.Valid() && dir.parts != []
      && var last := dir.parts[|dir.parts| - 1];
         && currentFile == FileName(dir.prefix, last) && entryCount == |last.records|
         && currentSeq == last.start + entryCount - 1 && dir.issued <= currentSeq
    }

    ghost predicate Valid()
      reads this, dir
    {
      && dir.Valid() && (isOpen ==> started || failed) && (failed ==> isOpen && !started)
      && (if started then Ready() else NoPart(dir.prefix, dir.parts, currentFile))
    }

    constructor (dir: Directory)
      requires dir.Valid()
      ensures Valid() && this.dir == dir && !started && !isOpen && !failed
    {
      this.dir := dir;
      currentFile := "";
      isOpen := false;
      failed := false;
      currentSeq := 0;
      entryCount := 0;
      started := false;
    }

    /** The scan for the last number: its result depends on the stored parts alone, not on the order of the directory. */
    method LastNumber() returns (maxSeq: nat)
      requires Stored(dir.prefix, dir.files, dir.parts)
      ensures maxSeq == Top(dir.parts)
    {
      hide Stored, LastSeq, ParseSeq, IsWal, FileName, Records, LastOf, Top;
      var order := Listing(dir.files);
      maxSeq := 0;
      ghost var m := NoneSeen(dir.prefix, dir.parts);
      for k := 0 to |order|
        invariant Highest(dir.prefix, dir.parts, order[..k], m)
        invariant maxSeq == LastOf(dir.parts, m)
      {
        var name := order[k];
        assert order[..k + 1] == order[..k] + [name];
        m := Visit(dir.prefix, dir.files, dir.parts, order[..k], m, name);
        if IsWal(name) {
          if ParseSeq(name) > maxSeq {
            maxSeq := GetLastSeqInFile(dir.files[name]);
          }
        }
      }
      assert order[..|order|] == order;
      AllSeen(dir.prefix, dir.files, dir.parts, order, m);
    }

    /**
     * Finds the number to go on from, and starts a new file: no existing file changes. A writer whose
     * file is open cannot open another one; its stream refuses everything from then on.
     */
    method Init(time: nat)
      requires Valid() && Top(dir.parts) + 1 < LIMIT
      modifies this, dir
      ensures Valid() && isOpen && failed == old(isOpen)
      ensures currentSeq == Top(old(dir.parts)) && dir.issued == old(dir.issued)
      ensures currentFile !in old(dir.files)
      ensures old(isOpen) ==> unchanged(dir)
      ensures !old(isOpen) ==>
                && started && dir.parts == old(dir.parts) + [Part(currentSeq + 1, [])]
                && currentFile in dir.files && dir.files == old(dir.files)[currentFile := dir.files[currentFile]]
                && (time < LIMIT ==> Heads(dir.files[currentFile], currentSeq + 1, 0, time) && |dir.files[currentFile]| == 64)
    {
      hide Stored, EncodeFileHeader, FileName;
      var maxSeq := LastNumber();
      currentSeq := maxSeq;
      CreateNewFile(time);
    }

    method CreateNewFile(time: nat)
      requires dir.Valid() && currentSeq == Top(dir.parts) && currentSeq + 1 < LIMIT
      modifies this, dir
      ensures Valid() && isOpen && failed == old(isOpen)
      ensures currentSeq == old(currentSeq) && dir.issued == old(dir.issued)
      ensures currentFile !in old(dir.files)
      ensures old(isOpen) ==> unchanged(dir)
      ensures !old(isOpen) ==>
                && started && dir.parts == old(dir.parts) + [Part(currentSeq + 1, [])]
                && currentFile in dir.files && dir.files == old(dir.files)[currentFile := dir.files[currentFile]]
                && (time < LIMIT ==> Heads(dir.files[currentFile], currentSeq + 1, 0, time) && |dir.files[currentFile]| == 64)
    {
      hide Stored, EncodeFileHeader, Heads, Name;
      ghost var p := Part(currentSeq + 1, []);
      NextFile(dir.prefix, dir.files, dir.parts, 0, time);
      NewName(dir.prefix, dir.files, dir.parts, p);
      currentFile := Name(dir.prefix, currentSeq + 1);
      failed, started := isOpen, !isOpen;
      if !failed {
        isOpen := true;
        var header := EncodeFileHeader(currentSeq + 1, 0, time);
        dir.files := dir.files[currentFile := header];
        dir.parts := dir.parts + [p];
        if time < LIMIT {
          HeaderHeads(currentSeq + 1, 0, time, []);
          assert header + [] == header;
        }
      }
      entryCount := 0;
    }

    /**
     * Writes one record and returns its number, which is larger than every number before; 0 when no
     * file is open. After a second opening has failed, a number is returned and nothing is stored.
     */
    method Append(kind: nat, data: seq<bv8>, time: nat) returns (seqNo: nat)
      requires Valid() && kind < 0x1_0000 && |data| < 0x1_0000 && time < LIMIT && currentSeq + 1 < LIMIT
      modifies this, dir
      ensures Valid() && isOpen == old(isOpen) && failed == old(failed)
      ensures currentFile == old(currentFile) && started == old(started)
      ensures !old(isOpen) ==> seqNo == 0 && unchanged(this) && unchanged(dir)
      ensures old(isOpen) ==> seqNo == currentSeq == old(currentSeq) + 1
      ensures old(failed) ==> unchanged(dir)
      ensures old(isOpen) && !old(failed) ==>
                && seqNo > old(dir.issued) && dir.issued == seqNo
                && old(dir.parts) != [] && currentFile in old(dir.files)
                && dir.parts == Extended(old(dir.parts), NewRecord(seqNo, time, kind, data))
                && dir.files == old(dir.files)[currentFile := old(dir.files)[currentFile]
                                                              + EncodeRecord(NewRecord(seqNo, time, kind, data))]
      ensures old(isOpen) && !old(failed) ==>
                && currentFile in old(dir.files) && currentFile in dir.files
                && var before, after := old(dir.files)[currentFile], dir.files[currentFile];
                   && |after| == |before| + 24 + |data| && after[..|before|] == before
                   && WalEntry.Decode(after[|before|..|before| + 24])
                      == WalEntry.Header(seqNo, time, kind, |data|, Crc32.Checksum(data))
                   && after[|before| + 24..] == data
    {
      hide *;
      if !isOpen {
        return 0;
      }
      if failed {
        seqNo := Refused();
        return;
      }
      WholeRecord(currentSeq + 1, time, kind, data);
      ghost var files := dir.files;
      seqNo := Write(NewRecord(currentSeq + 1, time, kind, data));
      RecordBytes(files[currentFile], seqNo, time, kind, data);
    }

    /** A number is counted, and the stream takes nothing. */
    method Refused() returns (seqNo: nat)
      requires Valid() && failed
      modifies this`currentSeq, this`entryCount
      ensures Valid() && seqNo == currentSeq == old(currentSeq) + 1
    {
      hide Stored, Name;
      currentSeq := currentSeq + 1;
      entryCount := entryCount + 1;
      seqNo := currentSeq;
    }

    /** The record with the next number goes to the end of the file. */
    method Write(r: Record) returns (seqNo: nat)
      requires Valid() && isOpen && !failed && r.Whole() && r.header.seqNo == currentSeq + 1 < LIMIT
      modifies this`currentSeq, this`entryCount, dir
      ensures Valid() && seqNo == dir.issued == currentSeq == old(currentSeq) + 1 > old(dir.issued)
      ensures old(dir.parts) != [] && dir.parts == Extended(old(dir.parts), r)
      ensures currentFile in old(dir.files)
      ensures dir.files == old(dir.files)[currentFile := old(dir.files)[currentFile] + EncodeRecord(r)]
    {
      hide EncodeRecord, Stored, Name;
      Grown(dir.prefix, dir.files, dir.parts, r);
      currentSeq := currentSeq + 1;
      dir.files := dir.files[currentFile := dir.files[currentFile] + EncodeRecord(r)];
      entryCount := entryCount + 1;
      dir.parts := Extended(dir.parts, r);
      dir.issued := currentSeq;
      seqNo := currentSeq;
    }

    /** The header is written again, with the number of records; the records stay. A refusing stream writes nothing. */
    method Close(time: nat)
      requires Valid()
      modifies this`isOpen, this`failed, dir
      ensures Valid() && !isOpen && !failed && dir.parts == old(dir.parts) && dir.issued == old(dir.issued)
      ensures !old(isOpen) || old(failed) ==> dir.files == old(dir.files)
      ensures old(isOpen) && !old(failed) ==>
                && currentFile in old(dir.files) && |old(dir.files)[currentFile]| >= FILE_HEADER_SIZE
                && dir.files == old(dir.files)[currentFile := EncodeFileHeader(currentSeq - entryCount + 1, entryCount, time)
                                                              + old(dir.files)[currentFile][FILE_HEADER_SIZE..]]
      ensures old(isOpen) && !old(failed) ==>
                && currentFile in old(dir.files) && currentFile in dir.files
                && var before, after := old(dir.files)[currentFile], dir.files[currentFile];
                   && |after| == |before| >= 64 && after[64..] == before[64..]
                   && (time < LIMIT ==> Heads(after, currentSeq - entryCount + 1, entryCount, time))
    {
      hide EncodeFileHeader, Stored, Name, Heads;
      if isOpen {
        if !failed {
          ghost var files := dir.files;
          Rewritten(dir.prefix, dir.files, dir.parts, entryCount, time);
          CountFits(dir.prefix, dir.files, dir.parts);
          var header := EncodeFileHeader(currentSeq - entryCount + 1, entryCount, time);
          if time < LIMIT {
            HeaderHeads(currentSeq - entryCount + 1, entryCount, time, dir.files[currentFile][FILE_HEADER_SIZE..]);
          }
          dir.files := dir.files[currentFile := header + dir.files[currentFile][FILE_HEADER_SIZE..]];
        }
        isOpen, failed := false, false;
      }
    }

    /**
     * Deletes the files that end before seqNo, except the current one. Every record from seqNo on is
     * kept, and an initialised writer keeps its last file, so that numbers are not handed out again.
     * A writer that was not initialised leaves a directory from which no number can be handed out again
     * exactly when none was, or when seqNo does not exceed the last number stored.
     */
    method TruncateBefore(seqNo: nat) returns (deleted: nat)
      requires Valid()
      modifies dir
      ensures Stored(dir.prefix, dir.files, dir.parts) && dir.issued == old(dir.issued)
      ensures dir.parts == Survivors(old(dir.parts), seqNo, started)
      ensures forall name :: name in dir.files <==> name in old(dir.files) && !Doomed(old(dir.files), name, seqNo, currentFile)
      ensures forall name :: name in dir.files ==> dir.files[name] == old(dir.files)[name]
      ensures deleted == |old(dir.files)| - |dir.files|
      ensures forall i :: 0 <= i < |old(dir.parts)| ==>
                (FileName(dir.prefix, old(dir.parts)[i]) in dir.files
                 <==> old(dir.parts)[i].Last() >= seqNo || FileName(dir.prefix, old(dir.parts)[i]) == currentFile)
      ensures forall name :: name in old(dir.files) && !(|name| > 4 && name[|name| - 4..] == ".wal") ==> name in dir.files
      ensures started ==> Valid()
      ensures !started ==> (dir.Valid() <==> dir.issued == 0 || seqNo <= Top(old(dir.parts)))
    {
      hide Stored, IsWal, LastSeq, Survivors, Doomed, Name, Valid;
      ghost var files, parts := dir.files, dir.parts;
      ValidMeans();
      deleted := TruncateParts(seqNo);
      PartsDeleted(dir.prefix, files, dir.files, parts, seqNo, currentFile, started);
      OthersKept(files, dir.files, seqNo, currentFile);
    }

    lemma ValidMeans()
      requires Valid()
      ensures Stored(dir.prefix, dir.files, dir.parts) && Current(dir.prefix, dir.parts, currentFile, started)
    {
    }

    /** The deletion, and the parts that stay. */
    method TruncateParts(seqNo: nat) returns (deleted: nat)
      requires Valid()
      modifies dir
      ensures Stored(dir.prefix, dir.files, dir.parts) && dir.issued == old(dir.issued)
      ensures dir.parts == Survivors(old(dir.parts), seqNo, started)
      ensures forall name :: name in dir.files <==> name in old(dir.files) && !Doomed(old(dir.files), name, seqNo, currentFile)
      ensures forall name :: name in dir.files ==> dir.files[name] == old(dir.files)[name]
      ensures deleted == |old(dir.files)| - |dir.files|
      ensures started ==> Valid()
      ensures !started ==> (dir.Valid() <==> dir.issued == 0 || seqNo <= Top(old(dir.parts)))
    {
      hide Stored, IsWal, LastSeq, Survivors, Doomed, Name;
      ghost var files := dir.files;
      deleted := DeleteFiles(seqNo);
      Truncated(dir.prefix, files, dir.files, dir.parts, seqNo, currentFile, started);
      StoredAscending(dir.prefix, files, dir.parts);
      SurvivorsTop(dir.parts, seqNo);
      if started {
        SurvivorsLast(dir.prefix, files, dir.parts, seqNo);
      }
      dir.parts := Survivors(dir.parts, seqNo, started);
    }

    /** The loop of TruncateBefore, over the directory in its own order. */
    method DeleteFiles(seqNo: nat) returns (deleted: nat)
      modifies dir`files
      ensures forall name :: name in dir.files <==> name in old(dir.files) && !Doomed(old(dir.files), name, seqNo, currentFile)
      ensures forall name :: name in dir.files ==> dir.files[name] == old(dir.files)[name]
      ensures deleted == |old(dir.files)| - |dir.files|
    {
      hide IsWal, LastSeq;
      var order := Listing(dir.files);
      ghost var files := dir.files;
      deleted := 0;
      for k := 0 to |order|
        invariant forall name :: name in dir.files <==>
                    name in files && !(name in order[..k] && Doomed(files, name, seqNo, currentFile))
        invariant forall name :: name in dir.files ==> dir.files[name] == files[name]
        invariant deleted == |files| - |dir.files|
      {
        var name := order[k];
        assert order[..k + 1] == order[..k] + [name] && name !in order[..k];
        if IsWal(name) {
          var fileEnd := GetLastSeqInFile(dir.files[name]);
          if fileEnd < seqNo && name != currentFile {
            Smaller(dir.files, name);
            dir.files := dir.files - {name};
            deleted := deleted + 1;
          }
        }
      }
      assert order[..|order|] == order;
    }
  }

  class WalFileReader {
    const dir: Directory

    constructor (dir: Directory)
      ensures this.dir == dir
    {
      this.dir := dir;
    }

    /** The log files, sorted as strings. */
    method LogFiles() returns (order: seq<string>)
      ensures ListsLogs(order, dir.files) && Sorted(order)
    {
      hide IsWal, Sorted;
      var listing := Listing(dir.files);
      var logs: seq<string> := [];
      for k := 0 to |listing|
        invariant forall name :: name in logs <==> name in listing[..k] && IsWal(name)
        invariant forall i, j :: 0 <= i < j < |logs| ==> logs[i] != logs[j]
      {
        assert listing[..k + 1] == listing[..k] + [listing[k]] && listing[k] !in listing[..k];
        if IsWal(listing[k]) {
          logs := logs + [listing[k]];
        }
      }
      assert listing[..|listing|] == listing;
      order := Sort(logs);
      SortedDistinct(order);
    }

    /** One file: its records above the given number, until the limit is reached. */
    method ReadFile(file: seq<bv8>, after: nat, maxCount: nat, before: seq<Record>) returns (entries: seq<Record>)
      requires maxCount == 0 || |before| < maxCount
      ensures entries == Cut(before + Wanted(Records(file), after), maxCount)
    {
      hide WalEntry.Decode, HeaderBytes, Scan, MagicOk, DataOf;
      entries := before;
      assert before + [] == before;
      if !MagicOk(file) {
        return;
      }
      var pos, good := FILE_HEADER_SIZE, |file| >= FILE_HEADER_SIZE;
      ghost var found: seq<Record> := [];
      while good
        invariant good ==> pos <= |file| && Records(file) == found + Scan(file[pos..])
        invariant !good ==> found == Records(file)
        invariant entries == before + Wanted(found, after)
        invariant maxCount == 0 || |entries| < maxCount
        decreases good, |file| - pos
      {
        ScanStep(file, pos);
        assert found + [] == found;
        if pos + WalEntry.HEADER_SIZE > |file| {
          break;
        }
        var entry := WalEntry.Decode(file[pos..pos + WalEntry.HEADER_SIZE]);
        pos := pos + WalEntry.HEADER_SIZE;
        if entry.seqNo == 0 {
          break;
        }
        var r := Record(entry, DataOf(file[pos..], entry.dataLen));
        WantedNext(found, r, after, before);
        found := found + [r];
        if entry.seqNo > after {
          entries := entries + [r];
          if maxCount > 0 && |entries| >= maxCount {
            EnoughFound(before, found, Records(file), after, maxCount);
            return;
          }
        }
        pos := pos + entry.dataLen;
        good := pos <= |file|;
      }
    }

    /**
     * The records above the given number, file by file, up to the limit; 0 is no limit. Without a
     * limit, on a directory the writer keeps, these are all such records, each once, and their
     * numbers rise exactly when the names of the files they come from are in the order of the numbers.
     */
    method ReadAfter(after: nat, maxCount: nat) returns (entries: seq<Record>, files: seq<string>)
      ensures ListsLogs(files, dir.files) && Sorted(files)
      ensures forall name :: name in files <==> name in dir.files && |name| > 4 && name[|name| - 4..] == ".wal"
      ensures entries == Cut(Wanted(Together(dir.files, files), after), maxCount)
      ensures entries <= Wanted(Together(dir.files, files), after)
      ensures maxCount == 0 || |Wanted(Together(dir.files, files), after)| <= maxCount ==>
                |entries| == |Wanted(Together(dir.files, files), after)|
      ensures 0 < maxCount <= |Wanted(Together(dir.files, files), after)| ==> |entries| == maxCount
      ensures maxCount == 0 ==>
                forall name, r :: Marked(dir.files, name) && r in Scan(dir.files[name][64..]) && r.header.seqNo > after ==>
                  r in entries
      ensures dir.Valid() && maxCount == 0 ==>
                && Distinct(entries)
                && forall r :: r in entries <==> Logged(r, dir.parts) && r.header.seqNo > after
      ensures dir.Valid() && maxCount == 0 ==> (Rising(entries) <==> InOrder(dir.parts, after))
    {
      files := LogFiles();
      hide Stored, Sorted, InOrder, Rising, Distinct, Wanted, Together, Logged;
      entries := ReadFiles(files, after, maxCount);
      if maxCount == 0 {
        MarkedRead(dir.files, files, after);
      }
      if dir.Valid() && maxCount == 0 {
        ReadsEach(dir.prefix, dir.files, dir.parts, files, after);
        ReadsInOrder(dir.prefix, dir.files, dir.parts, files, after);
      }
    }

    method ReadFiles(files: seq<string>, after: nat, maxCount: nat) returns (entries: seq<Record>)
      requires forall i :: 0 <= i < |files| ==> files[i] in dir.files
      ensures entries == Cut(Wanted(Together(dir.files, files), after), maxCount)
    {
      hide Records, IsWal;
      entries := [];
      ghost var all: seq<Record> := [];
      for k := 0 to |files|
        invariant all == Together(dir.files, files[..k])
        invariant entries == Wanted(all, after) && (maxCount == 0 || |entries| < maxCount)
      {
        ghost var more := Records(dir.files[files[k]]);
        WantedConcat(all, more, after);
        assert files[..k + 1][..k] == files[..k];
        entries := ReadFile(dir.files[files[k]], after, maxCount, entries);
        all := all + more;
        if maxCount > 0 && |entries| >= maxCount {
          TogetherMore(dir.files, files, k + 1, after, maxCount);
          return;
        }
      }
      assert files[..|files|] == files;
    }
  }

  /** At most maxCount records; 0 is no limit. */
  function Cut(rs: seq<Record>, maxCount: nat): seq<Record> {
    if maxCount == 0 || |rs| <= maxCount then rs else rs[..maxCount]
  }

  lemma Smaller(files: Files, name: string)
    requires name in files
    ensures |files - {name}| == |files| - 1
  {
    assert (files - {name}).Keys == files.Keys - {name};
  }

  /** Deleted are the files of the parts that end before the number, except the current one, and no other file. */
  lemma PartsDeleted(prefix: string, files: Files, files': Files, parts: seq<Part>, seqNo: nat, current: string, keepLast: bool)
    requires Stored(prefix, files, parts) && Current(prefix, parts, current, keepLast)
    requires forall name :: name in files' <==> name in files && !Doomed(files, name, seqNo, current)
    ensures forall i :: 0 <= i < |parts| ==>
              (FileName(prefix, parts[i]) in files' <==> parts[i].Last() >= seqNo || FileName(prefix, parts[i]) == current)
  {
    hide LastSeq, IsWal, Name, Holds;
    forall i | 0 <= i < |parts|
      ensures FileName(prefix, parts[i]) in files' <==> parts[i].Last() >= seqNo || FileName(prefix, parts[i]) == current
    {
      PartFile(prefix, files, parts, i);
    }
  }

  /** Files with another extension stay. */
  lemma OthersKept(files: Files, files': Files, seqNo: nat, current: string)
    requires forall name :: name in files' <==> name in files && !Doomed(files, name, seqNo, current)
    ensures forall name :: name in files && !(|name| > 4 && name[|name| - 4..] == ".wal") ==> name in files'
  {
    hide LastSeq;
  }

  /** A log file with a whole header that begins with one of the two marks. */
  predicate Marked(files: Files, name: string) {
    && name in files && |name| > 4 && name[|name| - 4..] == ".wal" && |files[name]| >= 64
    && (files[name][..4] == [0x57, 0x46, 0x52, 0x5A] || files[name][..4] == [0x46, 0x4C, 0x41, 0x57])
  }

  lemma MarkedRead(files: Files, order: seq<string>, after: nat)
    requires ListsLogs(order, files)
    ensures forall name, r :: Marked(files, name) && r in Scan(files[name][64..]) && r.header.seqNo > after ==>
              r in Wanted(Together(files, order), after)
  {
    hide Scan, Wanted, Together, Records;
    WantedMembers(Together(files, order), after);
    forall name, r | Marked(files, name) && r in Scan(files[name][64..]) && r.header.seqNo > after
      ensures r in Wanted(Together(files, order), after)
    {
      RecordsExactly(files[name]);
      TogetherHas(files, order, name, r);
    }
  }

  /** A name that is free is not that of a part. */
  lemma NewName(prefix: string, files: Files, parts: seq<Part>, p: Part)
    requires Stored(prefix, files, parts) && FileName(prefix, p) !in files
    ensures NoPart(prefix, parts, FileName(prefix, p))
  {
    hide Name, Holds, IsWal;
  }

  lemma SurvivorsLast(prefix: string, files: Files, parts: seq<Part>, seqNo: nat)
    requires Stored(prefix, files, parts) && parts != []
    ensures var kept := Survivors(parts, seqNo, true);
            kept != [] && kept[|kept| - 1] == parts[|parts| - 1]
  {
    SurvivorsEnd(parts, seqNo, true);
  }

  lemma WantedNext(found: seq<Record>, r: Record, after: nat, before: seq<Record>)
    ensures before + Wanted(found + [r], after)
            == before + Wanted(found, after) + (if r.header.seqNo > after then [r] else [])
  {
    assert (found + [r])[..|found|] == found;
  }

  /** When the limit is reached, further records change nothing. */
  lemma EnoughFound(before: seq<Record>, found: seq<Record>, all: seq<Record>, after: nat, maxCount: nat)
    requires found <= all && |before + Wanted(found, after)| == maxCount > 0
    ensures before + Wanted(found, after) == Cut(before + Wanted(all, after), maxCount)
  {
    var rest := all[|found|..];
    assert all == found + rest;
    WantedConcat(found, rest, after);
  }

  lemma TogetherMore(files: Files, order: seq<string>, k: nat, after: nat, maxCount: nat)
    requires k <= |order| && maxCount > 0 && forall i :: 0 <= i < |order| ==> order[i] in files
    requires |Wanted(Together(files, order[..k]), after)| >= maxCount
    ensures Cut(Wanted(Together(files, order), after), maxCount)
            == Cut(Wanted(Together(files, order[..k]), after), maxCount)
  {
    hide Wanted, Together;
    TogetherPrefix(files, order, k, after);
  }

  lemma {:induction false} TogetherPrefix(files: Files, order: seq<string>, k: nat, after: nat)
    requires k <= |order| && forall i :: 0 <= i < |order| ==> order[i] in files
    ensures Wanted(Together(files, order[..k]), after) <= Wanted(Together(files, order), after)
    decreases |order|
  {
    if k < |order| {
      hide Wanted, Records;
      var n := |order| - 1;
      TogetherPrefix(files, order[..n], k, after);
      assert order[..n][..k] == order[..k];
      WantedConcat(Together(files, order[..n]), Records(files[order[n]]), after);
    } else {
      assert order[..k] == order;
    }
  }

  /** The record that Append writes. */
  function NewRecord(seqNo: nat, time: nat, kind: nat, data: seq<bv8>): Record {
    Record(WalEntry.Header(seqNo, time, kind, |data|, WalEntry.CalcCrc(data)), data)
  }

  lemma StoredAscending(prefix: string, files: Files, parts: seq<Part>)
    requires Stored(prefix, files, parts)
    ensures Ascending(parts)
  {
  }

  /** The record that Append writes has the number, the time and what the caller gave, and a valid checksum. */
  lemma WholeRecord(seqNo: nat, time: nat, kind: nat, data: seq<bv8>)
    requires kind < 0x1_0000 && |data| < 0x1_0000 && time < LIMIT && 0 < seqNo < LIMIT
    ensures NewRecord(seqNo, time, kind, data).Whole() && NewRecord(seqNo, time, kind, data).header.seqNo == seqNo
    ensures NewRecord(seqNo, time, kind, data)
            == Record(WalEntry.Header(seqNo, time, kind, |data|, Crc32.Checksum(data)), data)
    ensures WalEntry.ValidateCrc(NewRecord(seqNo, time, kind, data).header, data)
  {
    if data == [] {
      Crc32.ChecksumEmpty();
    }
  }

  /** Behind what the file held stand a header with these fields and then the data. */
  lemma RecordBytes(file: seq<bv8>, seqNo: nat, time: nat, kind: nat, data: seq<bv8>)
    requires kind < 0x1_0000 && |data| < 0x1_0000 && time < LIMIT && 0 < seqNo < LIMIT
    ensures var after, n := file + EncodeRecord(NewRecord(seqNo, time, kind, data)), |file|;
            && |after| == n + 24 + |data| && after[..n] == file
            && WalEntry.Decode(after[n..n + 24]) == WalEntry.Header(seqNo, time, kind, |data|, Crc32.Checksum(data))
            && after[n + 24..] == data
  {
    hide NewRecord, WalEntry.Encode, WalEntry.Decode, Crc32.Checksum;
    WholeRecord(seqNo, time, kind, data);
    var h := WalEntry.Header(seqNo, time, kind, |data|, Crc32.Checksum(data));
    WalEntry.DecodeEncode(h);
    var after, n := file + EncodeRecord(NewRecord(seqNo, time, kind, data)), |file|;
    assert after == file + (WalEntry.Encode(h) + data);
    assert after[n..n + 24] == WalEntry.Encode(h);
  }

  /** The last part, with one more record. */
  function Extended(parts: seq<Part>, r: Record): seq<Part>
    requires parts != []
  {
    var n := |parts| - 1;
    parts[..n] + [Part(parts[n].start, parts[n].records + [r])]
  }

  /** The highest part among the files seen so far is the one with index m, or none. */
  ghost predicate Highest(prefix: string, parts: seq<Part>, seen: seq<string>, m: int) {
    && -1 <= m < |parts|
    && forall i :: 0 <= i < |parts| && FileName(prefix, parts[i]) in seen ==> i <= m
  }

  ghost function LastOf(parts: seq<Part>, m: int): nat
    requires -1 <= m < |parts|
  {
    if m == -1 then 0 else parts[m].Last()
  }

  lemma NoneSeen(prefix: string, parts: seq<Part>) returns (m: int)
    ensures Highest(prefix, parts, [], m) && LastOf(parts, m) == 0
  {
    m := -1;
  }

  /** One more file: when its name is above the number found so far, it is the highest part. */
  lemma Visit(prefix: string, files: Files, parts: seq<Part>, seen: seq<string>, m: int, name: string) returns (m': int)
    requires Stored(prefix, files, parts) && name in files && Highest(prefix, parts, seen, m)
    ensures Highest(prefix, parts, seen + [name], m')
    ensures LastOf(parts, m')
            == if IsWal(name) && ParseSeq(name) > LastOf(parts, m) then LastSeq(files[name]) else LastOf(parts, m)
  {
    hide LastSeq, ParseSeq, IsWal, Name, Records, Holds;
    if IsWal(name) {
      var i :| 0 <= i < |parts| && FileName(prefix, parts[i]) == name;
      PartFile(prefix, files, parts, i);
      SameFile(prefix, files, parts, i);
      assert parts[i].Ok();
      if m >= 0 {
        PartOrder(parts, m, i);
        PartOrder(parts, i, m);
        assert parts[m].Ok();
      }
      m' := if i > m then i else m;
    } else {
      forall i | 0 <= i < |parts| ensures FileName(prefix, parts[i]) != name {
        PartFile(prefix, files, parts, i);
      }
      m' := m;
    }
  }

  lemma AllSeen(prefix: string, files: Files, parts: seq<Part>, order: seq<string>, m: int)
    requires Stored(prefix, files, parts) && Lists(order, files) && Highest(prefix, parts, order, m)
    ensures LastOf(parts, m) == Top(parts)
  {
    hide Name, Holds, IsWal;
    if parts != [] {
      assert FileName(prefix, parts[|parts| - 1]) in order;
    }
  }

  /** A record with the next number is written behind the last one. */
  lemma Grown(prefix: string, files: Files, parts: seq<Part>, r: Record)
    requires Stored(prefix, files, parts) && parts != [] && r.Whole()
    requires var p := parts[|parts| - 1]; r.header.seqNo == p.start + |p.records| < LIMIT
    ensures var n := |parts| - 1; var p := parts[n]; var name := FileName(prefix, p);
            && name in files
            && Stored(prefix, files[name := files[name] + EncodeRecord(r)], Extended(parts, r))
            && Top(Extended(parts, r)) == r.header.seqNo
  {
    hide EncodeRecord, EncodeRecords, Name, IsWal;
    var n := |parts| - 1;
    var p := parts[n];
    var file := files[FileName(prefix, p)];
    assert p.Ok() && Holds(file, p);
    EncodeSnoc(p.records, r);
    SameHeader(file, EncodeRecord(r));
    assert (file + EncodeRecord(r))[FILE_HEADER_SIZE..] == file[FILE_HEADER_SIZE..] + EncodeRecord(r);
    StoredLast(prefix, files, parts, Part(p.start, p.records + [r]), file + EncodeRecord(r));
  }

  lemma SameHeader(file: seq<bv8>, more: seq<bv8>)
    requires |file| >= FILE_HEADER_SIZE
    ensures HeaderBytes(file + more) == HeaderBytes(file)
  {
    assert (file + more)[..FILE_HEADER_SIZE] == file[..FILE_HEADER_SIZE];
  }

  /** The header of the last file is written again. */
  lemma Rewritten(prefix: string, files: Files, parts: seq<Part>, count: nat, time: nat)
    requires Stored(prefix, files, parts) && parts != []
    ensures var p := parts[|parts| - 1]; var name := FileName(prefix, p);
            && name in files && |files[name]| >= FILE_HEADER_SIZE
            && var bytes := EncodeFileHeader(p.start, count, time) + files[name][FILE_HEADER_SIZE..];
               Stored(prefix, files[name := bytes], parts)
  {
    hide EncodeFileHeader, EncodeRecords, Name, IsWal, MagicOk, StartSeq;
    var p := parts[|parts| - 1];
    var file := files[FileName(prefix, p)];
    assert p.Ok() && Holds(file, p);
    FileHeaderRead(p.start, count, time, file[FILE_HEADER_SIZE..]);
    StoredLast(prefix, files, parts, p, EncodeFileHeader(p.start, count, time) + file[FILE_HEADER_SIZE..]);
    assert parts[..|parts| - 1] + [p] == parts;
  }
}
