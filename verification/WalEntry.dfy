/** The 24-byte entry header, its layout in memory, and the checksum that protects the data. */
module WalEntry {
  import opened Bytes
  import Crc32

  const HEADER_SIZE := 24

  datatype Header = Header(seqNo: nat, timestamp: nat, kind: nat, dataLen: nat, crc: bv32)
  {
    /** Every field fits the width it has in memory. */
    ghost predicate Fits() {
      && seqNo < 0x1_0000_0000_0000_0000
      && timestamp < 0x1_0000_0000_0000_0000
      && kind < 0x1_0000
      && dataLen < 0x1_0000
    }
  }

  function CrcBytes(c: bv32): (b: seq<bv8>)
    ensures |b| == 4
  {
    [(c & 0xFF) as bv8, ((c >> 8) & 0xFF) as bv8, ((c >> 16) & 0xFF) as bv8, ((c >> 24) & 0xFF) as bv8]
  }

  function CrcOfBytes(b0: bv8, b1: bv8, b2: bv8, b3: bv8): bv32 {
    (b0 as bv32) | ((b1 as bv32) << 8) | ((b2 as bv32) << 16) | ((b3 as bv32) << 24)
  }

  lemma CrcRoundTrip(c: bv32)
    ensures CrcOfBytes(CrcBytes(c)[0], CrcBytes(c)[1], CrcBytes(c)[2], CrcBytes(c)[3]) == c
  {
  }

  function Encode(h: Header): (b: seq<bv8>)
    ensures |b| == HEADER_SIZE
  {
    ToLE(h.seqNo, 8) + ToLE(h.timestamp, 8) + ToLE(h.kind, 2) + ToLE(h.dataLen, 2) + CrcBytes(h.crc)
  }

  function Decode(b: seq<bv8>): (h: Header)
    requires |b| == HEADER_SIZE
    ensures h.Fits()
  {
    DecodedFits(b);
    Header(FromLE(b[..8]), FromLE(b[8..16]), FromLE(b[16..18]), FromLE(b[18..20]), CrcOfBytes(b[20], b[21], b[22], b[23]))
  }

  lemma DecodedFits(b: seq<bv8>)
    requires |b| == HEADER_SIZE
    ensures FromLE(b[..8]) < 0x1_0000_0000_0000_0000 && FromLE(b[8..16]) < 0x1_0000_0000_0000_0000
    ensures FromLE(b[16..18]) < 0x1_0000 && FromLE(b[18..20]) < 0x1_0000
  {
    Pow256Values();
    FromLEBound(b[..8]);
    FromLEBound(b[8..16]);
    FromLEBound(b[16..18]);
    FromLEBound(b[18..20]);
  }

  lemma HeaderParts(h: Header)
    ensures var b := Encode(h);
            && |b| == 24 && b[..8] == ToLE(h.seqNo, 8) && b[8..16] == ToLE(h.timestamp, 8)
            && b[16..18] == ToLE(h.kind, 2) && b[18..20] == ToLE(h.dataLen, 2) && b[20..24] == CrcBytes(h.crc)
  {
  }

  /** Where each field of a header lies in memory, lowest byte first. */
  lemma HeaderLayout(h: Header, i: nat)
    requires i < 24
    ensures i < 8 ==> Encode(h)[i] as int == h.seqNo / Pow256(i) % 256
    ensures 8 <= i < 16 ==> Encode(h)[i] as int == h.timestamp / Pow256(i - 8) % 256
    ensures 16 <= i < 18 ==> Encode(h)[i] as int == h.kind / Pow256(i - 16) % 256
    ensures 18 <= i < 20 ==> Encode(h)[i] as int == h.dataLen / Pow256(i - 18) % 256
  {
    hide ToLE, Pow256, Encode, CrcBytes;
    HeaderParts(h);
    var b := Encode(h);
    if i < 8 {
      DigitOfLE(h.seqNo, 8, i);
      assert b[i] == b[..8][i];
    } else if i < 16 {
      DigitOfLE(h.timestamp, 8, i - 8);
      assert b[i] == b[8..16][i - 8];
    } else if i < 18 {
      DigitOfLE(h.kind, 2, i - 16);
      assert b[i] == b[16..18][i - 16];
    } else if i < 20 {
      DigitOfLE(h.dataLen, 2, i - 18);
      assert b[i] == b[18..20][i - 18];
    }
  }

  lemma CrcLayout(h: Header)
    ensures var b := Encode(h);
            && b[20] == (h.crc & 0xFF) as bv8 && b[21] == ((h.crc >> 8) & 0xFF) as bv8
            && b[22] == ((h.crc >> 16) & 0xFF) as bv8 && b[23] == ((h.crc >> 24) & 0xFF) as bv8
  {
    hide ToLE, Encode;
    HeaderParts(h);
    var b := Encode(h);
    assert b[20] == b[20..24][0] && b[21] == b[20..24][1] && b[22] == b[20..24][2] && b[23] == b[20..24][3];
  }

  /** A header whose fields fit survives being stored and read back. */
  lemma DecodeEncode(h: Header)
    requires h.Fits()
    ensures Decode(Encode(h)) == h
  {
    Pow256Values();
    var b := Encode(h);
    assert b[..8] == ToLE(h.seqNo, 8);
    assert b[8..16] == ToLE(h.timestamp, 8);
    assert b[16..18] == ToLE(h.kind, 2);
    assert b[18..20] == ToLE(h.dataLen, 2);
    assert b[20..] == CrcBytes(h.crc);
    assert b[20] == b[20..][0] && b[21] == b[20..][1] && b[22] == b[20..][2] && b[23] == b[20..][3];
    FromToLE(h.seqNo, 8);
    FromToLE(h.timestamp, 8);
    FromToLE(h.kind, 2);
    FromToLE(h.dataLen, 2);
    CrcRoundTrip(h.crc);
  }

  /** For a power of two this is the masking form of the source. */
  function AlignUp(size: nat, alignment: nat): nat
    requires alignment > 0
  {
    (size + alignment - 1) / alignment * alignment
  }

  lemma Rounded(size: nat)
    ensures AlignUp(size, 8) % 8 == 0 && size <= AlignUp(size, 8) < size + 8
  {
    var q, r := (size + 7) / 8, (size + 7) % 8;
    assert size + 7 == 8 * q + r;
  }

  /** The room an entry takes: header and data, rounded up to 8 bytes. */
  function EntrySize(dataLen: nat): (size: nat)
    ensures size % 8 == 0
    ensures HEADER_SIZE + dataLen <= size < HEADER_SIZE + dataLen + 8
  {
    Rounded(HEADER_SIZE + dataLen);
    AlignUp(HEADER_SIZE + dataLen, 8)
  }

  /** The checksum stored with the data. */
  function CalcCrc(data: seq<bv8>): bv32 {
    Crc32.Checksum(data)
  }

  /** The value UpdateCrc stores: zero for an entry without data. */
  function StoredCrc(data: seq<bv8>): bv32 {
    if |data| == 0 then 0 else CalcCrc(data)
  }

  predicate ValidateCrc(h: Header, data: seq<bv8>)
    requires |data| == h.dataLen
  {
    if h.dataLen == 0 then h.crc == 0 else h.crc == CalcCrc(data)
  }

  /** Damage to the data of a valid entry, confined to four consecutive bytes, is always noticed. */
  lemma DamageDetected(h: Header, data: seq<bv8>, damaged: seq<bv8>, i: nat)
    requires |data| == |damaged| == h.dataLen && data != damaged
    requires i <= |data|
    requires forall j :: 0 <= j < |data| && !(i <= j < i + 4) ==> data[j] == damaged[j]
    requires ValidateCrc(h, data)
    ensures !ValidateCrc(h, damaged)
  {
    hide Crc32.Checksum;
    Crc32.DetectsWindow(data, damaged, i);
  }
}
