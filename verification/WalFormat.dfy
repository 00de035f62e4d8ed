/** A log file: a 64-byte header and entries back to back, without alignment. */
module WalFormat {
  import opened Bytes
  import WalEntry

  const LIMIT: nat := 0x1_0000_0000_0000_0000

  const FILE_HEADER_SIZE: nat := 64
  const MAGIC: nat := 0x5A52_4657
  const OLD_MAGIC: nat := 0x5741_4C46

  datatype Record = Record(header: WalEntry.Header, data: seq<bv8>)
  {
    /** A record as Append writes it; sequence number 0 ends a file. */
    ghost predicate Whole() {
      header.Fits() && header.dataLen == |data| && header.seqNo != 0
    }
  }

  function Zeros(n: nat): (s: seq<bv8>)
    ensures |s| == n
  {
    seq(n, _ => 0)
  }

  function EncodeFileHeader(startSeq: nat, entryCount: nat, createTime: nat): (b: seq<bv8>)
    ensures |b| == FILE_HEADER_SIZE
  {
    ToLE(MAGIC, 4) + ToLE(1, 4) + ToLE(startSeq, 8) + ToLE(entryCount, 8) + ToLE(createTime, 8) + Zeros(32)
  }

  /** What is in the header after reading it: a short file leaves the defaults in place. */
  function HeaderBytes(file: seq<bv8>): (b: seq<bv8>)
    ensures |b| == FILE_HEADER_SIZE
  {
    if |file| >= FILE_HEADER_SIZE then file[..FILE_HEADER_SIZE]
    else file + EncodeFileHeader(0, 0, 0)[|file|..]
  }

  predicate MagicOk(file: seq<bv8>) {
    var magic := FromLE(HeaderBytes(file)[..4]);
    magic == MAGIC || magic == OLD_MAGIC
  }

  /** The four bytes a log file begins with: today's mark, and the one of older files. */
  const MARK: seq<bv8> := [0x57, 0x46, 0x52, 0x5A]
  const OLD_MARK: seq<bv8> := [0x46, 0x4C, 0x41, 0x57]

  /** Exactly two beginnings are accepted. */
  lemma MagicExactly(file: seq<bv8>)
    requires |file| >= 4
    ensures MagicOk(file) <==> file[..4] == MARK || file[..4] == OLD_MARK
  {
    hide FromLE, EncodeFileHeader;
    FourBytes(0x57, 0x46, 0x52, 0x5A);
    FourBytes(0x46, 0x4C, 0x41, 0x57);
    var b := file[..4];
    assert HeaderBytes(file)[..4] == b;
    if FromLE(b) == MAGIC {
      SameLE(b, MARK);
    }
    if FromLE(b) == OLD_MAGIC {
      SameLE(b, OLD_MARK);
    }
  }

  function StartSeq(file: seq<bv8>): nat {
    FromLE(HeaderBytes(file)[8..16])
  }

  lemma FileHeaderRead(startSeq: nat, entryCount: nat, createTime: nat, rest: seq<bv8>)
    requires startSeq < 0x1_0000_0000_0000_0000
    ensures var file := EncodeFileHeader(startSeq, entryCount, createTime) + rest;
            MagicOk(file) && StartSeq(file) == startSeq && file[FILE_HEADER_SIZE..] == rest
  {
    hide ToLE, FromLE, HeaderBytes, EncodeFileHeader;
    var h := EncodeFileHeader(startSeq, entryCount, createTime);
    assert HeaderBytes(h + rest) == h by {
      WholeHeader(h, rest);
    }
    HeaderFields(startSeq, entryCount, createTime);
    Pow256Values();
    FromToLE(MAGIC, 4);
    FromToLE(startSeq, 8);
  }

  lemma WholeHeader(h: seq<bv8>, rest: seq<bv8>)
    requires |h| == FILE_HEADER_SIZE
    ensures HeaderBytes(h + rest) == h
  {
    assert (h + rest)[..FILE_HEADER_SIZE] == h;
  }

  lemma HeaderFields(startSeq: nat, entryCount: nat, createTime: nat)
    ensures var h := EncodeFileHeader(startSeq, entryCount, createTime);
            && h[..4] == ToLE(MAGIC, 4) && h[4..8] == ToLE(1, 4) && h[8..16] == ToLE(startSeq, 8)
            && h[16..24] == ToLE(entryCount, 8) && h[24..32] == ToLE(createTime, 8) && h[32..] == seq(32, _ => 0)
  {
    hide ToLE;
  }

  /** What stands where in a file header: mark, version, first number, number of records, time of creation. */
  lemma HeaderValues(startSeq: nat, entryCount: nat, createTime: nat)
    requires startSeq < LIMIT && entryCount < LIMIT && createTime < LIMIT
    ensures var h := EncodeFileHeader(startSeq, entryCount, createTime);
            && |h| == 64 && h[..4] == MARK && FromLE(h[4..8]) == 1 && FromLE(h[8..16]) == startSeq
            && FromLE(h[16..24]) == entryCount && FromLE(h[24..32]) == createTime && h[32..] == seq(32, _ => 0)
  {
    hide ToLE, FromLE, EncodeFileHeader;
    HeaderFields(startSeq, entryCount, createTime);
    Pow256Values();
    FromToLE(MAGIC, 4);
    FromToLE(1, 4);
    FromToLE(startSeq, 8);
    FromToLE(entryCount, 8);
    FromToLE(createTime, 8);
    FourBytes(0x57, 0x46, 0x52, 0x5A);
    SameLE(ToLE(MAGIC, 4), MARK);
  }

  function EncodeRecord(r: Record): seq<bv8> {
    WalEntry.Encode(r.header) + r.data
  }

  function EncodeRecords(rs: seq<Record>): seq<bv8> {
    if rs == [] then [] else EncodeRecord(rs[0]) + EncodeRecords(rs[1..])
  }

  lemma {:induction false} EncodeSnoc(rs: seq<Record>, r: Record)
    ensures EncodeRecords(rs + [r]) == EncodeRecords(rs) + EncodeRecord(r)
  {
    if rs == [] {
      assert rs + [r] == [r] && [r][1..] == [];
    } else {
      EncodeSnoc(rs[1..], r);
      assert (rs + [r])[1..] == rs[1..] + [r];
    }
  }

  /** The data of an entry; what the file does not hold stays zero. */
  function DataOf(b: seq<bv8>, len: nat): (data: seq<bv8>)
    ensures |data| == len
  {
    if |b| >= len then b[..len] else b + Zeros(len - |b|)
  }

  /** The records a reader finds: up to a header that is cut off, has number 0, or whose data is cut off. */
  function Scan(b: seq<bv8>): (rs: seq<Record>)
    decreases |b|
  {
    if |b| < WalEntry.HEADER_SIZE then []
    else
      var h := WalEntry.Decode(b[..WalEntry.HEADER_SIZE]);
      var rest := b[WalEntry.HEADER_SIZE..];
      if h.seqNo == 0 then []
      else if |rest| < h.dataLen then [Record(h, DataOf(rest, h.dataLen))]
      else [Record(h, DataOf(rest, h.dataLen))] + Scan(rest[h.dataLen..])
  }

  lemma ScanFirst(r: Record, rest: seq<bv8>)
    requires r.Whole()
    ensures Scan(EncodeRecord(r) + rest) == [r] + Scan(rest)
  {
    hide WalEntry.Encode, WalEntry.Decode;
    WalEntry.DecodeEncode(r.header);
    var h, body := WalEntry.Encode(r.header), r.data + rest;
    var b := h + body;
    assert EncodeRecord(r) + rest == b;
    assert b[..WalEntry.HEADER_SIZE] == h && b[WalEntry.HEADER_SIZE..] == body;
    assert body[..|r.data|] == r.data && body[|r.data|..] == rest;
  }

  /** What was written is what is found. */
  lemma {:induction false} ScanEncoded(rs: seq<Record>)
    requires forall i :: 0 <= i < |rs| ==> rs[i].Whole()
    ensures Scan(EncodeRecords(rs)) == rs
  {
    if rs != [] {
      hide Scan, EncodeRecord;
      ScanEncoded(rs[1..]);
      ScanFirst(rs[0], EncodeRecords(rs[1..]));
    } else {
      ScanNothing();
    }
  }

  lemma ScanNothing()
    ensures Scan([]) == []
  {
  }

  /** Bytes behind whole records: less than a header is ignored, a header with number 0 ends the scan. */
  lemma {:induction false} ScanBehind(rs: seq<Record>, tail: seq<bv8>)
    requires forall i :: 0 <= i < |rs| ==> rs[i].Whole()
    ensures Scan(EncodeRecords(rs) + tail) == rs + Scan(tail)
  {
    hide Scan, EncodeRecord;
    if rs == [] {
      assert EncodeRecords(rs) + tail == tail && [] + Scan(tail) == Scan(tail);
    } else {
      var rest := EncodeRecords(rs[1..]);
      assert EncodeRecords(rs) + tail == EncodeRecord(rs[0]) + (rest + tail);
      ScanBehind(rs[1..], tail);
      ScanFirst(rs[0], rest + tail);
      assert [rs[0]] + (rs[1..] + Scan(tail)) == rs + Scan(tail);
    }
  }

  /** A scan that starts at a header which ends it or whose data is cut off, or at less than a header. */
  lemma ScanTail(h: WalEntry.Header, part: seq<bv8>)
    requires h.Fits()
    ensures |part| < 24 ==> Scan(part) == []
    ensures h.seqNo == 0 ==> Scan(WalEntry.Encode(h) + part) == []
    ensures h.seqNo != 0 && |part| < h.dataLen ==>
              Scan(WalEntry.Encode(h) + part) == [Record(h, part + seq(h.dataLen - |part|, _ => 0))]
  {
    hide WalEntry.Encode, WalEntry.Decode;
    var b := WalEntry.Encode(h) + part;
    WalEntry.DecodeEncode(h);
    assert b[..WalEntry.HEADER_SIZE] == WalEntry.Encode(h) && b[WalEntry.HEADER_SIZE..] == part;
  }

  /**
   * A file whose last write was cut off: a part of a header is ignored; a whole header is taken with the
   * data there is, and zeros for the rest.
   */
  lemma ScanTorn(rs: seq<Record>, h: WalEntry.Header, part: seq<bv8>)
    requires (forall i :: 0 <= i < |rs| ==> rs[i].Whole()) && h.Fits()
    ensures |part| < 24 ==> Scan(EncodeRecords(rs) + part) == rs
    ensures h.seqNo == 0 ==> Scan(EncodeRecords(rs) + (WalEntry.Encode(h) + part)) == rs
    ensures h.seqNo != 0 && |part| < h.dataLen ==>
              Scan(EncodeRecords(rs) + (WalEntry.Encode(h) + part)) == rs + [Record(h, part + seq(h.dataLen - |part|, _ => 0))]
  {
    hide EncodeRecords, WalEntry.Encode, Scan, Zeros;
    ScanTail(h, part);
    ScanBehind(rs, part);
    ScanBehind(rs, WalEntry.Encode(h) + part);
    assert rs + [] == rs;
  }

  /** All records of a file, none when the magic is unknown or the header is short. */
  function Records(file: seq<bv8>): seq<Record> {
    if |file| >= FILE_HEADER_SIZE && MagicOk(file) then Scan(file[FILE_HEADER_SIZE..]) else []
  }

  /** The number of the last record, the first number of a file without records, 0 with an unknown magic. */
  function LastSeq(file: seq<bv8>): nat {
    if !MagicOk(file) then 0
    else if Records(file) == [] then StartSeq(file)
    else Records(file)[|Records(file)| - 1].header.seqNo
  }

  /** One entry at a time. */
  lemma ScanStep(file: seq<bv8>, pos: nat)
    requires pos <= |file|
    ensures pos + WalEntry.HEADER_SIZE > |file| ==> Scan(file[pos..]) == []
    ensures pos + WalEntry.HEADER_SIZE <= |file| ==>
              var h := WalEntry.Decode(file[pos..pos + WalEntry.HEADER_SIZE]);
              var body := pos + WalEntry.HEADER_SIZE;
              var r := Record(h, DataOf(file[body..], h.dataLen));
              Scan(file[pos..])
              == if h.seqNo == 0 then []
                 else if body + h.dataLen > |file| then [r]
                 else [r] + Scan(file[body + h.dataLen..])
  {
    hide WalEntry.Decode, DataOf;
    if pos + WalEntry.HEADER_SIZE <= |file| {
      var body := pos + WalEntry.HEADER_SIZE;
      assert file[pos..][..WalEntry.HEADER_SIZE] == file[pos..body];
      assert file[pos..][WalEntry.HEADER_SIZE..] == file[body..];
      var h := WalEntry.Decode(file[pos..body]);
      if body + h.dataLen <= |file| {
        assert file[body..][h.dataLen..] == file[body + h.dataLen..];
      }
    }
  }

  /** The records of any file behind a whole header, by its first four bytes; a shorter file has none. */
  lemma RecordsExactly(file: seq<bv8>)
    ensures |file| >= 64 ==>
              Records(file) == if file[..4] == [0x57, 0x46, 0x52, 0x5A] || file[..4] == [0x46, 0x4C, 0x41, 0x57]
                               then Scan(file[64..]) else []
    ensures |file| < 64 ==> Records(file) == []
  {
    hide Scan, MagicOk;
    if |file| >= 64 {
      MagicExactly(file);
    }
  }

  lemma LastSeqExactly(file: seq<bv8>)
    ensures |file| >= 64 ==>
              var rs := Scan(file[64..]);
              LastSeq(file) == if file[..4] != [0x57, 0x46, 0x52, 0x5A] && file[..4] != [0x46, 0x4C, 0x41, 0x57] then 0
                               else if rs == [] then FromLE(file[8..16]) else rs[|rs| - 1].header.seqNo
  {
    hide Scan, FromLE, MagicOk;
    if |file| >= 64 {
      MagicExactly(file);
      assert HeaderBytes(file)[8..16] == file[8..16];
    }
  }

  /** The loop of the scan for the last sequence number. */
  method LastSeqLoop(file: seq<bv8>) returns (lastSeq: nat)
    ensures lastSeq == LastSeq(file)
  {
    hide WalEntry.Decode, HeaderBytes, Scan, MagicOk, StartSeq, DataOf;
    if !MagicOk(file) {
      return 0;
    }
    lastSeq := StartSeq(file);
    var pos, good := FILE_HEADER_SIZE, |file| >= FILE_HEADER_SIZE;
    ghost var found: seq<Record> := [];
    while good
      invariant good ==> pos <= |file| && Records(file) == found + Scan(file[pos..])
      invariant !good ==> found == Records(file)
      invariant lastSeq == if found == [] then StartSeq(file) else found[|found| - 1].header.seqNo
      decreases good, |file| - pos
    {
      ScanStep(file, pos);
      if pos + WalEntry.HEADER_SIZE > |file| {
        break;
      }
      var entry := WalEntry.Decode(file[pos..pos + WalEntry.HEADER_SIZE]);
      pos := pos + WalEntry.HEADER_SIZE;
      if entry.seqNo == 0 {
        break;
      }
      lastSeq := entry.seqNo;
      found := found + [Record(entry, DataOf(file[pos..], entry.dataLen))];
      pos := pos + entry.dataLen;
      good := pos <= |file|;
    }
  }

  /** The scan of one file for its last sequence number. */
  method GetLastSeqInFile(file: seq<bv8>) returns (lastSeq: nat)
    ensures lastSeq == LastSeq(file)
    ensures |file| >= 64 ==>
              var rs := Scan(file[64..]);
              lastSeq == if file[..4] != [0x57, 0x46, 0x52, 0x5A] && file[..4] != [0x46, 0x4C, 0x41, 0x57] then 0
                         else if rs == [] then FromLE(file[8..16]) else rs[|rs| - 1].header.seqNo
  {
    hide LastSeq, Scan, FromLE;
    lastSeq := LastSeqLoop(file);
    LastSeqExactly(file);
  }
}
