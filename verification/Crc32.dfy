/** The table-driven CRC-32 of the source, what it detects, and how it differs from the standard one. */
module Crc32 {
  import opened Bits
  import opened CrcTable
  import opened Folds

  const INITIAL: bv32 := 0xFFFF_FFFF

  // ---------------------------------------------------------------- computation

  function Index(c: bv32, b: bv8): bv8 {
    ((c ^ (b as bv32)) & 0xFF) as bv8
  }

  function Step(c: bv32, b: bv8): bv32 {
    Table(Index(c, b)) ^ (c >> 8)
  }

  /** The running value after the bytes of s, from the running value c. */
  function Run(c: bv32, s: seq<bv8>): bv32 {
    Fold(Step, c, s)
  }

  function Checksum(s: seq<bv8>): bv32 {
    Run(INITIAL, s) ^ INITIAL
  }

  method Calc(data: seq<bv8>) returns (r: bv32)
    ensures r == Checksum(data)
  {
    hide Table, Index, Step;
    var crc := INITIAL;
    for i := 0 to |data|
      invariant crc == Run(INITIAL, data[..i])
    {
      crc := Step(crc, data[i]);
      assert data[..i + 1][..i] == data[..i];
    }
    assert data[..|data|] == data;
    r := crc ^ INITIAL;
  }

  /** Feeding a message in pieces gives the checksum of the whole message. */
  method Update(crc0: bv32, data: seq<bv8>, ghost before: seq<bv8>) returns (r: bv32)
    requires crc0 == Checksum(before)
    ensures r == Checksum(before + data)
  {
    hide Table, Index, Step;
    var crc := if crc0 == 0 then INITIAL else !crc0;
    assert crc == Run(INITIAL, before);
    assert before + data[..0] == before;
    for i := 0 to |data|
      invariant crc == Run(INITIAL, before + data[..i])
    {
      crc := Step(crc, data[i]);
      assert (before + data[..i + 1])[..|before| + i] == before + data[..i];
    }
    assert data[..|data|] == data;
    r := crc ^ INITIAL;
  }

  // ---------------------------------------------------------------- error detection

  lemma TopByteInverseLow(i: bv8)
    requires i < 0x80
    ensures IndexOfTop(Shr24(Table(i)) as bv8) == i
  {
  }

  lemma TopByteInverseHigh(i: bv8)
    requires i >= 0x80
    ensures IndexOfTop(Shr24(Table(i)) as bv8) == i
  {
  }

  lemma TopByteInverse(i: bv8)
    ensures IndexOfTop(Shr24(Table(i)) as bv8) == i
  {
    hide *;
    if i < 0x80 {
      TopByteInverseLow(i);
    } else {
      TopByteInverseHigh(i);
    }
  }

  lemma TopBytesDistinct(i: bv8, j: bv8)
    requires Shr24(Table(i)) == Shr24(Table(j))
    ensures i == j
  {
    hide *;
    TopByteInverse(i);
    TopByteInverse(j);
  }

  /** c and d have the same k most significant bytes. */
  ghost predicate SameTop(c: bv32, d: bv32, k: nat) {
    match k
    case 0 => true
    case 1 => Shr24(c) == Shr24(d)
    case 2 => Shr16(c) == Shr16(d)
    case 3 => Shr8(c) == Shr8(d)
    case _ => c == d
  }

  lemma StepIsXor(c: bv32, b: bv8)
    ensures Step(c, b) == Xor(Table(Index(c, b)), Shr8(c))
  {
    hide Table, Index;
  }

  lemma SameTopFirst(c: bv32, d: bv32, k: nat)
    requires 1 <= k && SameTop(c, d, k)
    ensures Shr24(c) == Shr24(d)
  {
  }

  lemma SameTopCases(c: bv32, d: bv32)
    ensures SameTop(c, d, 0)
    ensures SameTop(c, d, 1) <==> Shr24(c) == Shr24(d)
    ensures SameTop(c, d, 2) <==> Shr16(c) == Shr16(d)
    ensures SameTop(c, d, 3) <==> Shr8(c) == Shr8(d)
    ensures SameTop(c, d, 4) <==> c == d
  {
  }

  lemma XorBack(t: bv32, c: bv32, d: bv32, k: nat)
    requires k < 4
    requires SameTop(Xor(t, Shr8(c)), Xor(t, Shr8(d)), k + 1)
    ensures SameTop(c, d, k)
  {
    hide *;
    SameTopCases(c, d);
    SameTopCases(Xor(t, Shr8(c)), Xor(t, Shr8(d)));
    match k
    case 0 =>
    case 1 => XorBack1(t, c, d);
    case 2 => XorBack2(t, c, d);
    case 3 => XorBack3(t, c, d);
  }

  /** k + 1 equal top bytes after a step pin down the table index and k top bytes before it. */
  lemma StepBack(c: bv32, x: bv8, d: bv32, y: bv8, k: nat)
    requires k < 4
    requires SameTop(Step(c, x), Step(d, y), k + 1)
    ensures Index(c, x) == Index(d, y)
    ensures SameTop(c, d, k)
  {
    hide *;
    var i, j := Index(c, x), Index(d, y);
    StepIsXor(c, x);
    StepIsXor(d, y);
    SameTopFirst(Step(c, x), Step(d, y), k + 1);
    XorTop(Table(i), c, Table(j), d);
    TopBytesDistinct(i, j);
    XorBack(Table(i), c, d, k);
  }

  lemma IndexInjective(c: bv32, d: bv32, x: bv8, y: bv8)
    requires Index(c, x) == Index(d, y)
    ensures c == d ==> x == y
    ensures x == y && SameTop(c, d, 3) ==> c == d
  {
  }

  lemma StepInjective()
    ensures Injective(Step)
  {
    hide Table, Index, SameTop, Step;
    forall c, d, b | Step(c, b) == Step(d, b)
      ensures c == d
    {
      assert SameTop(Step(c, b), Step(d, b), 4) by { SameTopAll(Step(c, b)); }
      StepBack(c, b, d, b, 3);
      IndexInjective(c, d, b, b);
    }
  }

  lemma SameTopAll(c: bv32)
    ensures SameTop(c, c, 4)
  {
  }

  /** From one running value, at most four bytes are determined by the value they lead to. */
  lemma {:induction false} ShortRunInjective(c: bv32, s: seq<bv8>, t: seq<bv8>)
    requires |s| == |t| <= 4
    requires SameTop(Run(c, s), Run(c, t), |s|)
    ensures s == t
  {
    hide Table, Index, SameTop, Step;
    if s == [] {
    } else {
      var n := |s| - 1;
      StepBack(Run(c, s[..n]), s[n], Run(c, t[..n]), t[n], n);
      ShortRunInjective(c, s[..n], t[..n]);
      IndexInjective(Run(c, s[..n]), Run(c, s[..n]), s[n], t[n]);
      assert s == s[..n] + [s[n]] && t == t[..n] + [t[n]];
    }
  }

  lemma SameTopWeaken(c: bv32, k: nat)
    ensures SameTop(c, c, k)
  {
  }

  /** Equal checksums of two strings with one ending come from equal values before it. */
  lemma SameRuns(s: seq<bv8>, t: seq<bv8>, a: seq<bv8>, b: seq<bv8>, tail: seq<bv8>)
    requires s == a + tail && t == b + tail && Checksum(s) == Checksum(t)
    ensures Run(INITIAL, a) == Run(INITIAL, b)
  {
    hide Table, Index, Step;
    ChecksumIsXor(s);
    ChecksumIsXor(t);
    XorCancel(Run(INITIAL, s), Run(INITIAL, t), INITIAL);
    FoldConcat(Step, INITIAL, a, tail);
    FoldConcat(Step, INITIAL, b, tail);
    StepInjective();
    FoldInjective(Step, Run(INITIAL, a), Run(INITIAL, b), tail);
  }

  /** Behind one beginning, at most four bytes are determined by the value they lead to. */
  lemma SameWindows(front: seq<bv8>, a: seq<bv8>, b: seq<bv8>)
    requires |a| == |b| <= 4 && Run(INITIAL, front + a) == Run(INITIAL, front + b)
    ensures a == b
  {
    hide Table, Index, SameTop, Step;
    FoldConcat(Step, INITIAL, front, a);
    FoldConcat(Step, INITIAL, front, b);
    SameTopWeaken(Run(INITIAL, front + a), |a|);
    ShortRunInjective(Run(INITIAL, front), a, b);
  }

  /** Any corruption confined to four consecutive bytes changes the checksum. */
  lemma DetectsWindow(s: seq<bv8>, t: seq<bv8>, i: nat)
    requires |s| == |t| && s != t
    requires i <= |s|
    requires forall j :: 0 <= j < |s| && !(i <= j < i + 4) ==> s[j] == t[j]
    ensures Checksum(s) != Checksum(t)
  {
    hide Table, Index, SameTop, Step;
    var k := if i + 4 <= |s| then i + 4 else |s|;
    var a, b := s[..i] + s[i..k], t[..i] + t[i..k];
    assert s == a + s[k..] && t == b + t[k..];
    assert s[..i] == t[..i] && s[k..] == t[k..];
    if Checksum(s) == Checksum(t) {
      SameRuns(s, t, a, b, s[k..]);
      SameWindows(s[..i], s[i..k], t[i..k]);
      assert false;
    }
  }

  /** The checksum of the empty message is the value stored for an entry without data. */
  lemma ChecksumEmpty()
    ensures Checksum([]) == 0
  {
  }

  lemma RunNext(s: seq<bv8>, b: bv8)
    ensures Run(INITIAL, s + [b]) == Step(Run(INITIAL, s), b)
  {
    hide Step;
    assert (s + [b])[..|s|] == s;
  }

  /** One-byte messages; the last one looks up the entry that differs from the polynomial. */
  lemma OneByteValues()
    ensures Checksum([0x00]) == 0xd202_ef8d
    ensures Checksum([0x61]) == 0xe8b7_be43
    ensures Checksum([0x90]) == 0x220d_7a9b
  {
    hide Run;
    assert Run(INITIAL, []) == 0xffff_ffff by {
      FoldNothing();
    }
    OneByte(0x00);
    OneByte(0x61);
    OneByte(0x90);
  }

  lemma FoldNothing()
    ensures Run(INITIAL, []) == 0xffff_ffff
  {
  }

  lemma OneByte(b: bv8)
    ensures Checksum([b]) == Step(0xffff_ffff, b) ^ 0xffff_ffff
  {
    hide Step;
    FoldNothing();
    RunNext([], b);
    assert [] + [b] == [b];
  }

  /** The nine digits 1 to 9, whose checksum is the check value of the standard. */
  const DIGITS: seq<bv8> := [0x31, 0x32, 0x33, 0x34, 0x35, 0x36, 0x37, 0x38, 0x39]

  /** The running value after the first digits. */
  function After(i: nat): bv32 {
    match i
    case 0 => 0xffff_ffff
    case 1 => 0x7c23_1048
    case 2 => 0xb0ac_bb32
    case 3 => 0x77b7_9c2d
    case 4 => 0x641c_1f5c
    case 5 => 0x340a_c5e3
    case 6 => 0xf68d_2c9e
    case 7 => 0xaffc_9660
    case 8 => 0x651f_2550
    case 9 => 0x340b_c6d9
    case _ => 0
  }

  lemma DigitSteps()
    ensures Step(0xffff_ffff, 0x31) == 0x7c23_1048
    ensures Step(0x7c23_1048, 0x32) == 0xb0ac_bb32
    ensures Step(0xb0ac_bb32, 0x33) == 0x77b7_9c2d
    ensures Step(0x77b7_9c2d, 0x34) == 0x641c_1f5c
    ensures Step(0x641c_1f5c, 0x35) == 0x340a_c5e3
    ensures Step(0x340a_c5e3, 0x36) == 0xf68d_2c9e
    ensures Step(0xf68d_2c9e, 0x37) == 0xaffc_9660
    ensures Step(0xaffc_9660, 0x38) == 0x651f_2550
    ensures Step(0x651f_2550, 0x39) == 0x340b_c6d9
  {
  }

  lemma CheckValue()
    ensures Checksum(DIGITS) == 0xcbf4_3926
  {
    hide Step, Run;
    DigitSteps();
    FoldNothing();
    for i := 0 to 9
      invariant Run(INITIAL, DIGITS[..i]) == After(i)
    {
      RunNext(DIGITS[..i], DIGITS[i]);
      assert DIGITS[..i] + [DIGITS[i]] == DIGITS[..i + 1];
    }
    assert DIGITS[..9] == DIGITS;
  }

  // ---------------------------------------------------------------- the standard CRC-32

  /** One bit of the division by the reflected polynomial of IEEE 802.3. */
  function Shift(c: bv32): bv32 {
    if c & 1 == 1 then (c >> 1) ^ 0xEDB8_8320 else c >> 1
  }

  function Shift8(c: bv32): bv32 {
    Shift(Shift(Shift(Shift(Shift(Shift(Shift(Shift(c))))))))
  }

  function SerialStep(c: bv32, b: bv8): bv32 {
    Shift8(c ^ (b as bv32))
  }

  /** The bit-serial CRC-32 of RFC 1952, section 8. */
  function StandardChecksum(s: seq<bv8>): bv32 {
    Fold(SerialStep, 0xFFFF_FFFF, s) ^ 0xFFFF_FFFF
  }

  lemma SerialDigitSteps()
    ensures SerialStep(0xffff_ffff, 0x31) == 0x7c23_1048
    ensures SerialStep(0x7c23_1048, 0x32) == 0xb0ac_bb32
    ensures SerialStep(0xb0ac_bb32, 0x33) == 0x77b7_9c2d
    ensures SerialStep(0x77b7_9c2d, 0x34) == 0x641c_1f5c
    ensures SerialStep(0x641c_1f5c, 0x35) == 0x340a_c5e3
    ensures SerialStep(0x340a_c5e3, 0x36) == 0xf68d_2c9e
    ensures SerialStep(0xf68d_2c9e, 0x37) == 0xaffc_9660
    ensures SerialStep(0xaffc_9660, 0x38) == 0x651f_2550
    ensures SerialStep(0x651f_2550, 0x39) == 0x340b_c6d9
  {
  }

  lemma SerialNext(s: seq<bv8>, b: bv8)
    ensures Fold(SerialStep, 0xFFFF_FFFF, s + [b]) == SerialStep(Fold(SerialStep, 0xFFFF_FFFF, s), b)
    ensures Fold(SerialStep, 0xFFFF_FFFF, []) == 0xFFFF_FFFF
  {
    hide SerialStep;
    assert (s + [b])[..|s|] == s;
  }

  lemma SerialDigit(i: nat)
    requires i < 9
    ensures SerialStep(After(i), DIGITS[i]) == After(i + 1)
  {
    hide SerialStep;
    SerialDigitSteps();
  }

  lemma StandardCheckValue()
    ensures StandardChecksum(DIGITS) == 0xcbf4_3926
  {
    hide SerialStep, Fold;
    SerialNext([], 0);
    for i := 0 to 9
      invariant Fold(SerialStep, 0xFFFF_FFFF, DIGITS[..i]) == After(i)
    {
      hide After;
      SerialDigit(i);
      SerialNext(DIGITS[..i], DIGITS[i]);
      assert DIGITS[..i] + [DIGITS[i]] == DIGITS[..i + 1];
    }
    assert DIGITS[..9] == DIGITS;
  }

  const BAD_INDEX: bv8 := 0x6f

  /** What entry 0x6f of the table has wrong: 0xdd0d7a9b stands where the polynomial gives 0xdd0d7cc9. */
  function Delta(i: bv8): bv32 {
    if i == BAD_INDEX then 0x0000_0652 else 0
  }

  lemma TableValueLow(i: bv8)
    requires i < 0x80
    ensures Table(i) == Shift8(i as bv32) ^ Delta(i)
  {
  }

  lemma TableValueHigh(i: bv8)
    requires i >= 0x80
    ensures Table(i) == Shift8(i as bv32) ^ Delta(i)
  {
  }

  lemma TableValue(i: bv8)
    ensures Table(i) == Shift8(i as bv32) ^ Delta(i)
  {
    hide *;
    if i < 0x80 {
      TableValueLow(i);
    } else {
      TableValueHigh(i);
    }
  }

  /** Exactly one of the 256 table entries differs from the polynomial. */
  lemma TableIsPolynomial(i: bv8)
    ensures Table(i) == Shift8(i as bv32) <==> i != BAD_INDEX
  {
    hide Table, Shift8;
    TableValue(i);
  }

  lemma ShiftIsXor(c: bv32)
    ensures Shift(c) == if c & 1 == 1 then Xor(Shr1(c), 0xEDB8_8320) else Shr1(c)
  {
  }

  lemma ShiftLinear(c: bv32, d: bv32)
    ensures Shift(Xor(c, d)) == Xor(Shift(c), Shift(d))
  {
    hide Xor, Shift, Shr1;
    XorShift(c, d);
    XorLowBit(c, d);
    ShiftIsXor(c);
    ShiftIsXor(d);
    ShiftIsXor(Xor(c, d));
    XorPoly(Shr1(c), Shr1(d), 0xEDB8_8320);
  }

  lemma Shift8Linear(c: bv32, d: bv32)
    ensures Shift8(Xor(c, d)) == Xor(Shift8(c), Shift8(d))
  {
    hide Shift, Xor;
    ShiftLinear(c, d);
    var c1, d1 := Shift(c), Shift(d);
    ShiftLinear(c1, d1);
    var c2, d2 := Shift(c1), Shift(d1);
    ShiftLinear(c2, d2);
    var c3, d3 := Shift(c2), Shift(d2);
    ShiftLinear(c3, d3);
    var c4, d4 := Shift(c3), Shift(d3);
    ShiftLinear(c4, d4);
    var c5, d5 := Shift(c4), Shift(d4);
    ShiftLinear(c5, d5);
    var c6, d6 := Shift(c5), Shift(d5);
    ShiftLinear(c6, d6);
    ShiftLinear(Shift(c6), Shift(d6));
  }

  lemma Shift8Zero(c: bv32)
    requires Shift8(c) == 0
    ensures c == 0
  {
  }

  lemma HighBits(x: bv32)
    requires x & 0xFF == 0
    ensures Shift8(x) == Shr8(x)
  {
  }

  lemma SplitLow(c: bv32, b: bv8)
    ensures Xor(Index(c, b) as bv32, Xor(c, b as bv32) & 0xFFFF_FF00) == Xor(c, b as bv32)
    ensures (Xor(c, b as bv32) & 0xFFFF_FF00) & 0xFF == 0
    ensures Shr8(Xor(c, b as bv32) & 0xFFFF_FF00) == Shr8(c)
  {
  }

  lemma SerialStepIsXor(c: bv32, b: bv8)
    ensures SerialStep(c, b) == Shift8(Xor(c, b as bv32))
  {
    hide Shift8;
  }

  lemma TableIsXor(i: bv8)
    ensures Table(i) == Xor(Shift8(i as bv32), Delta(i))
  {
    hide Table, Shift8, Delta;
    TableValue(i);
  }

  /** The table step is the serial step, off by the defect of the entry it used. */
  lemma StepIsSerial(c: bv32, b: bv8)
    ensures Step(c, b) == Xor(SerialStep(c, b), Delta(Index(c, b)))
  {
    hide *;
    var i := Index(c, b);
    var high := Xor(c, b as bv32) & 0xFFFF_FF00;
    StepIsXor(c, b);
    SerialStepIsXor(c, b);
    SplitLow(c, b);
    TableIsXor(i);
    Shift8Linear(i as bv32, high);
    HighBits(high);
    XorSwap(Shift8(i as bv32), Delta(i), Shr8(c));
  }

  /** The accumulated defect: each use of the bad entry enters it and is then carried along. */
  function Defect(c: bv32, s: seq<bv8>): bv32 {
    if s == [] then 0 else
      var front, last := s[..|s| - 1], s[|s| - 1];
      Xor(Shift8(Defect(c, front)), Delta(Index(Run(c, front), last)))
  }

  /** How often the bad entry is looked up. */
  function Hits(c: bv32, s: seq<bv8>): nat {
    if s == [] then 0 else
      var front, last := s[..|s| - 1], s[|s| - 1];
      Hits(c, front) + (if Index(Run(c, front), last) == BAD_INDEX then 1 else 0)
  }

  lemma SerialStepShifted(r: bv32, e: bv32, b: bv8)
    ensures SerialStep(Xor(r, e), b) == Xor(SerialStep(r, b), Shift8(e))
  {
    hide *;
    SerialStepIsXor(Xor(r, e), b);
    SerialStepIsXor(r, b);
    XorSwap(r, e, b as bv32);
    Shift8Linear(Xor(r, b as bv32), e);
  }

  lemma {:induction false} RunIsSerial(c: bv32, s: seq<bv8>)
    ensures Run(c, s) == Xor(Fold(SerialStep, c, s), Defect(c, s))
  {
    hide Table, Index, Step, Shift8, SerialStep, Delta, Xor;
    if s == [] {
      XorZero(c);
    } else {
      var front, b := s[..|s| - 1], s[|s| - 1];
      RunIsSerial(c, front);
      var r, e := Fold(SerialStep, c, front), Defect(c, front);
      StepIsSerial(Run(c, front), b);
      SerialStepShifted(r, e, b);
      XorAssoc(SerialStep(r, b), Shift8(e), Delta(Index(Run(c, front), b)));
    }
  }

  lemma DefectStep(e: bv32, i: bv8)
    ensures Shift8(e) == 0 <==> e == 0
    ensures i != BAD_INDEX ==> Xor(Shift8(e), Delta(i)) == Shift8(e)
    ensures i == BAD_INDEX && e == 0 ==> Xor(Shift8(e), Delta(i)) != 0
  {
    hide Shift8;
    if Shift8(e) == 0 {
      Shift8Zero(e);
    }
    HighBits(0);
  }

  lemma {:induction false} DefectByHits(c: bv32, s: seq<bv8>)
    ensures Hits(c, s) == 0 ==> Defect(c, s) == 0
    ensures Hits(c, s) == 1 ==> Defect(c, s) != 0
  {
    hide Table, Index, Step, Shift8, Delta, Run;
    if s == [] {
    } else {
      var front := s[..|s| - 1];
      DefectByHits(c, front);
      DefectStep(Defect(c, front), Index(Run(c, front), s[|s| - 1]));
    }
  }

  lemma ChecksumIsXor(s: seq<bv8>)
    ensures Checksum(s) == Xor(Run(INITIAL, s), INITIAL)
    ensures StandardChecksum(s) == Xor(Fold(SerialStep, INITIAL, s), INITIAL)
  {
    hide Table, Index, Step, Shift8, SerialStep;
  }

  /** When the table-driven checksum is the standard one: exactly when the defects of the bad entry cancel. */
  lemma StandardExactly(s: seq<bv8>)
    ensures Checksum(s) == StandardChecksum(s) <==> Defect(INITIAL, s) == 0
    ensures Hits(INITIAL, s) == 0 ==> Checksum(s) == StandardChecksum(s)
    ensures Hits(INITIAL, s) == 1 ==> Checksum(s) != StandardChecksum(s)
  {
    hide *;
    RunIsSerial(INITIAL, s);
    DefectByHits(INITIAL, s);
    ChecksumIsXor(s);
    XorSame(Fold(SerialStep, INITIAL, s), Defect(INITIAL, s));
    if Checksum(s) == StandardChecksum(s) {
      XorCancel(Run(INITIAL, s), Fold(SerialStep, INITIAL, s), INITIAL);
    }
  }

  /** A one-byte message on which the two differ. */
  lemma NotStandard()
    ensures Checksum([0x90]) != StandardChecksum([0x90])
  {
    hide Table, Step, Shift8, SerialStep, Delta;
    var s: seq<bv8> := [0x90];
    assert s[..0] == [];
    assert Run(INITIAL, []) == INITIAL;
    assert Index(INITIAL, 0x90) == BAD_INDEX;
    assert Hits(INITIAL, s) == 1;
    StandardExactly(s);
  }
}
