/** What the consumer's operations do, on the cells decoded from the buffer. */
module RingReaders {
  import opened Common
  import Crc32
  import opened WalEntry
  import opened RingSpec
  import opened RingLemmas

  /** The cells ReadNext and ReadUnconfirmed deliver. */
  function Entries(cells: seq<Cell>): seq<Cell> {
    if cells == [] then []
    else if cells[0].IsEntry() then [cells[0]] + Entries(cells[1..])
    else Entries(cells[1..])
  }

  /** What makes a reader deliver a cell, on its fields: a number, a type, and the checksum of its whole data. */
  ghost predicate Sealed(c: Cell) {
    && c.hdr.seqNo != 0 && c.hdr.kind != 0 && |c.data| == c.hdr.dataLen
    && c.hdr.crc == if c.data == [] then 0 else Crc32.Checksum(c.data)
  }

  /** The sealed ones among the cells, in order. */
  ghost function SealedOf(cells: seq<Cell>): seq<Cell> {
    if cells == [] then []
    else
      var n := |cells| - 1;
      SealedOf(cells[..n]) + (if Sealed(cells[n]) then [cells[n]] else [])
  }

  lemma EntrySealed(c: Cell)
    ensures c.IsEntry() <==> Sealed(c)
  {
    hide Crc32.Checksum, EntrySize;
  }

  /** The readers deliver exactly the sealed cells. */
  lemma {:induction false} EntriesSealed(cells: seq<Cell>)
    ensures Entries(cells) == SealedOf(cells)
  {
    hide ValidateCrc, EntrySize, Sealed;
    if cells == [] {
    } else {
      var n := |cells| - 1;
      EntriesSealed(cells[..n]);
      EntrySealed(cells[n]);
      EntriesOne(cells[n]);
      EntriesConcat(cells[..n], [cells[n]]);
      assert cells == cells[..n] + [cells[n]];
    }
  }

  /** A cell is among them exactly when it is sealed; the cells before the first one are not. */
  lemma {:induction false} SealedMembers(cells: seq<Cell>)
    ensures forall c :: c in SealedOf(cells) <==> c in cells && Sealed(c)
  {
    hide Sealed;
    if cells == [] {
    } else {
      SealedMembers(cells[..|cells| - 1]);
      assert cells == cells[..|cells| - 1] + [cells[|cells| - 1]];
    }
  }

  function Length(cells: seq<Cell>): nat {
    if cells == [] then 0 else cells[0].Size() + Length(cells[1..])
  }

  lemma {:induction false} EntriesConcat(a: seq<Cell>, b: seq<Cell>)
    ensures Entries(a + b) == Entries(a) + Entries(b)
  {
    hide ValidateCrc, EntrySize;
    if a == [] {
      assert a + b == b;
    } else {
      assert (a + b)[0] == a[0] && (a + b)[1..] == a[1..] + b;
      EntriesConcat(a[1..], b);
      if a[0].IsEntry() {
        assert ([a[0]] + Entries(a[1..])) + Entries(b) == [a[0]] + (Entries(a[1..]) + Entries(b));
      }
    }
  }

  lemma EntriesOne(c: Cell)
    ensures Entries([c]) == if c.IsEntry() then [c] else []
  {
    hide EntrySize, ValidateCrc;
    assert [c][1..] == [];
  }

  lemma {:induction false} LengthConcat(a: seq<Cell>, b: seq<Cell>)
    ensures Length(a + b) == Length(a) + Length(b)
  {
    if a == [] {
      assert a + b == b;
    } else {
      assert (a + b)[0] == a[0] && (a + b)[1..] == a[1..] + b;
      LengthConcat(a[1..], b);
    }
  }

  /** Cells decoded one after the other: any number of them can be taken off the front. */
  lemma {:induction false} ParseDrop(buf: seq<bv8>, pos: nat, end: nat, i: nat)
    requires |buf| > 0 && Parse(buf, pos, end).Some?
    requires i <= |Parse(buf, pos, end).value|
    ensures var cells := Parse(buf, pos, end).value;
            && pos + Length(cells[..i]) <= end
            && Parse(buf, pos + Length(cells[..i]), end) == Some(cells[i..])
            && Parse(buf, pos, pos + Length(cells[..i])) == Some(cells[..i])
    decreases i
  {
    hide CellAt, EntrySize;
    var cells := Parse(buf, pos, end).value;
    ParseBound(buf, pos, end);
    if i == 0 {
      assert cells[..0] == [] && cells[0..] == cells;
    } else {
      var c := cells[0];
      var next := pos + c.Size();
      SizePositive(c);
      ParseBound(buf, next, end);
      var rest := Parse(buf, next, end).value;
      assert cells == [c] + rest;
      var front := rest[..i - 1];
      assert cells[..i] == [c] + front && cells[i..] == rest[i - 1..];
      ParseDrop(buf, next, end, i - 1);
      assert ([c] + front)[1..] == front;
      assert Length(cells[..i]) == c.Size() + Length(front);
    }
  }

  /** Two readings from one position: the shorter is the beginning of the longer. */
  lemma {:induction false} ParsePrefix(buf: seq<bv8>, pos: nat, mid: nat, end: nat)
    requires |buf| > 0 && mid <= end
    requires Parse(buf, pos, mid).Some? && Parse(buf, pos, end).Some?
    ensures Parse(buf, mid, end).Some?
    ensures Parse(buf, pos, end).value == Parse(buf, pos, mid).value + Parse(buf, mid, end).value
    decreases end - pos
  {
    hide CellAt, EntrySize;
    ParseBound(buf, pos, mid);
    if pos == mid {
      assert Parse(buf, pos, mid).value == [];
    } else {
      var c := CellAt(buf, pos % |buf|).value;
      SizePositive(c);
      ParseBound(buf, pos + c.Size(), mid);
      ParsePrefix(buf, pos + c.Size(), mid, end);
    }
  }

  lemma SizePositive(c: Cell)
    ensures c.Size() >= HEADER_SIZE
  {
  }

  lemma {:induction false} ParseLength(buf: seq<bv8>, pos: nat, end: nat)
    requires |buf| > 0 && Parse(buf, pos, end).Some?
    ensures pos + Length(Parse(buf, pos, end).value) == end
    decreases end - pos
  {
    hide CellAt, EntrySize;
    if pos >= end {
    } else {
      var cells := Parse(buf, pos, end).value;
      SizePositive(cells[0]);
      assert cells[1..] == Parse(buf, pos + cells[0].Size(), end).value;
      ParseLength(buf, pos + cells[0].Size(), end);
    }
  }

  /** A decoded cell carries as much data as its header says. */
  lemma {:induction false} ParseData(buf: seq<bv8>, pos: nat, end: nat)
    requires |buf| > 0 && Parse(buf, pos, end).Some?
    ensures forall c :: c in Parse(buf, pos, end).value ==> |c.data| == c.hdr.dataLen
    decreases end - pos
  {
    hide EntrySize;
    if pos >= end {
    } else {
      var cells := Parse(buf, pos, end).value;
      SizePositive(cells[0]);
      assert cells[1..] == Parse(buf, pos + cells[0].Size(), end).value;
      ParseData(buf, pos + cells[0].Size(), end);
      assert cells == [cells[0]] + cells[1..];
    }
  }

  // ---------------------------------------------------------------- chains that Append produces

  /** Every cell is a marker or carries a valid checksum. */
  ghost predicate Sound(cells: seq<Cell>) {
    forall i :: 0 <= i < |cells| ==>
      cells[i].hdr.seqNo == 0 || (|cells[i].data| == cells[i].hdr.dataLen && ValidateCrc(cells[i].hdr, cells[i].data))
  }

  /** Apart from markers, sequence numbers increase, and stay below bound. */
  ghost predicate Ordered(cells: seq<Cell>, bound: nat) {
    && (forall i :: 0 <= i < |cells| ==> cells[i].hdr.seqNo < bound)
    && (forall i, j :: 0 <= i < j < |cells| && cells[i].hdr.seqNo != 0 && cells[j].hdr.seqNo != 0 ==>
          cells[i].hdr.seqNo < cells[j].hdr.seqNo)
  }

  /** The entries with a sequence number above s. */
  function After(entries: seq<Cell>, s: nat): seq<Cell> {
    if entries == [] then []
    else if entries[0].hdr.seqNo > s then [entries[0]] + After(entries[1..], s)
    else After(entries[1..], s)
  }

  ghost predicate Occurs(cells: seq<Cell>, s: nat) {
    exists i :: 0 <= i < |cells| && cells[i].hdr.seqNo == s
  }

  // ---------------------------------------------------------------- Confirm

  /** How many cells Confirm(s) passes: up to and including the first with number s, none if a larger one comes first. */
  function Confirmed(cells: seq<Cell>, s: nat): (n: nat)
    ensures n <= |cells|
  {
    if cells == [] || cells[0].hdr.seqNo > s then 0
    else if cells[0].hdr.seqNo == s then 1
    else var n := Confirmed(cells[1..], s); if n == 0 then 0 else n + 1
  }

  /** Confirmed(s) seen from cell i, when no earlier cell decided it. */
  ghost predicate UndecidedBefore(cells: seq<Cell>, i: nat, s: nat) {
    && i <= |cells|
    && Confirmed(cells, s) == var m := Confirmed(cells[i..], s); if m == 0 then 0 else i + m
  }

  lemma ConfirmedStep(cells: seq<Cell>, i: nat, s: nat)
    requires i < |cells| && UndecidedBefore(cells, i, s)
    ensures cells[i].hdr.seqNo == s ==> Confirmed(cells, s) == i + 1
    ensures cells[i].hdr.seqNo > s ==> Confirmed(cells, s) == 0
    ensures cells[i].hdr.seqNo < s ==> UndecidedBefore(cells, i + 1, s)
  {
    hide EntrySize;
    assert cells[i..][1..] == cells[i + 1..];
  }

  lemma {:induction false} ConfirmedFinds(cells: seq<Cell>, s: nat, bound: nat)
    requires Ordered(cells, bound) && s >= 1
    ensures var n := Confirmed(cells, s);
            && (n > 0 ==> cells[n - 1].hdr.seqNo == s)
            && (forall i :: 0 <= i < n ==> cells[i].hdr.seqNo <= s)
            && (n == 0 ==> !Occurs(cells, s))
  {
    hide EntrySize, ValidateCrc;
    if cells != [] && cells[0].hdr.seqNo < s {
      var rest := cells[1..];
      assert forall i :: 0 <= i < |rest| ==> rest[i] == cells[i + 1];
      ConfirmedFinds(rest, s, bound);
      var n := Confirmed(rest, s);
      if n > 0 {
        assert cells[n] == rest[n - 1];
      } else {
        forall i | 0 <= i < |cells|
          ensures cells[i].hdr.seqNo != s
        {
          assert i > 0 ==> cells[i] == rest[i - 1];
        }
      }
    }
  }

  lemma {:induction false} AfterNone(cells: seq<Cell>, s: nat)
    requires forall i :: 0 <= i < |cells| ==> cells[i].hdr.seqNo <= s
    ensures After(Entries(cells), s) == []
  {
    hide ValidateCrc, EntrySize;
    if cells == [] {
    } else {
      AfterNone(cells[1..], s);
      if cells[0].IsEntry() {
        assert Entries(cells)[1..] == Entries(cells[1..]);
      }
    }
  }

  lemma {:induction false} AfterAll(cells: seq<Cell>, s: nat)
    requires forall i :: 0 <= i < |cells| && cells[i].hdr.seqNo != 0 ==> cells[i].hdr.seqNo > s
    ensures After(Entries(cells), s) == Entries(cells)
  {
    hide ValidateCrc, EntrySize;
    if cells == [] {
    } else {
      var rest := cells[1..];
      assert forall i :: 0 <= i < |rest| ==> rest[i] == cells[i + 1];
      AfterAll(rest, s);
      if cells[0].IsEntry() {
        assert Entries(cells)[1..] == Entries(rest);
      }
    }
  }

  lemma {:induction false} AfterConcat(a: seq<Cell>, b: seq<Cell>, s: nat)
    ensures After(a + b, s) == After(a, s) + After(b, s)
  {
    if a == [] {
      assert a + b == b;
    } else {
      assert (a + b)[0] == a[0] && (a + b)[1..] == a[1..] + b;
      AfterConcat(a[1..], b, s);
      if a[0].hdr.seqNo > s {
        assert ([a[0]] + After(a[1..], s)) + After(b, s) == [a[0]] + (After(a[1..], s) + After(b, s));
      }
    }
  }

  /**
   * Confirming a number s >= 1 leaves exactly the entries numbered above s when some cell in the
   * window has that number, and changes nothing when none has.
   */
  lemma ConfirmLeaves(cells: seq<Cell>, s: nat, bound: nat)
    requires Ordered(cells, bound) && s >= 1
    ensures var n := Confirmed(cells, s);
            && (Occurs(cells, s) ==> n > 0 && Entries(cells[n..]) == After(Entries(cells), s))
            && (!Occurs(cells, s) ==> n == 0)
  {
    hide Entries, After, Confirmed, EntrySize;
    ConfirmedFinds(cells, s, bound);
    var n := Confirmed(cells, s);
    if n > 0 {
      assert Occurs(cells, s);
      var a, b := cells[..n], cells[n..];
      assert cells == a + b;
      EntriesConcat(a, b);
      AfterConcat(Entries(a), Entries(b), s);
      AfterNone(a, s);
      AfterAll(b, s);
    }
  }

  // ---------------------------------------------------------------- ConfirmBatch

  /** How many cells ConfirmBatch(k) passes: through the k-th live cell, or all of them. */
  function Batch(cells: seq<Cell>, k: nat): (n: nat)
    ensures n <= |cells|
  {
    if k == 0 || cells == [] then 0
    else 1 + Batch(cells[1..], if cells[0].Live() then k - 1 else k)
  }

  lemma BatchStep(cells: seq<Cell>, i: nat, k: nat)
    requires i < |cells| && k > 0
    ensures Batch(cells[i..], k) == 1 + Batch(cells[i + 1..], if cells[i].Live() then k - 1 else k)
  {
    hide EntrySize;
    assert cells[i..][1..] == cells[i + 1..];
  }

  /** On a sound chain ConfirmBatch drops exactly the first k entries. */
  lemma {:induction false} BatchDrops(cells: seq<Cell>, k: nat)
    requires Sound(cells)
    ensures var es := Entries(cells);
            Entries(cells[Batch(cells, k)..]) == es[if k < |es| then k else |es|..]
  {
    hide ValidateCrc, EntrySize;
    if k == 0 {
      assert cells[0..] == cells && Entries(cells)[0..] == Entries(cells);
    } else if cells != [] {
      var c, rest := cells[0], cells[1..];
      var k' := if c.Live() then k - 1 else k;
      assert forall i :: 0 <= i < |rest| ==> rest[i] == cells[i + 1];
      BatchDrops(rest, k');
      assert cells[Batch(cells, k)..] == rest[Batch(rest, k')..];
      assert c.Live() <==> c.IsEntry();
      if c.Live() {
        assert Entries(cells) == [c] + Entries(rest);
      } else {
        assert Entries(cells) == Entries(rest);
      }
    }
  }

  // ---------------------------------------------------------------- ReadNext

  /** How many cells ReadNext passes: through the first entry, or all of them. */
  function Through(cells: seq<Cell>): (n: nat)
    ensures n <= |cells|
  {
    if cells == [] then 0
    else if cells[0].IsEntry() then 1
    else 1 + Through(cells[1..])
  }

  /** What ReadNext passes over before the cell it delivers is not sealed; without a sealed cell it passes all. */
  lemma {:induction false} ThroughSealed(cells: seq<Cell>)
    ensures var n := Through(cells);
            && (forall i :: 0 <= i < n - 1 ==> !Sealed(cells[i]))
            && (n > 0 && !Sealed(cells[n - 1]) ==> n == |cells|)
            && (n == 0 ==> cells == [])
  {
    hide EntrySize, ValidateCrc, Sealed;
    if cells == [] {
    } else {
      EntrySealed(cells[0]);
      ThroughSealed(cells[1..]);
      var m := Through(cells[1..]);
      if !cells[0].IsEntry() {
        assert forall i :: 0 < i < m ==> cells[i] == cells[1..][i - 1];
        assert m > 0 ==> cells[m] == cells[1..][m - 1];
      }
    }
  }

  /** ReadNext delivers the first entry and leaves the others. */
  lemma {:induction false} ThroughFirst(cells: seq<Cell>)
    ensures var n, es := Through(cells), Entries(cells);
            if es == [] then n == |cells|
            else n > 0 && cells[n - 1] == es[0] && Entries(cells[n..]) == es[1..]
  {
    hide EntrySize, ValidateCrc;
    if cells == [] {
    } else {
      ThroughFirst(cells[1..]);
      if cells[0].IsEntry() {
        assert Entries(cells) == [cells[0]] + Entries(cells[1..]);
      } else {
        var n := Through(cells[1..]);
        assert Entries(cells) == Entries(cells[1..]);
        assert cells[1..][n..] == cells[n + 1..];
        if Entries(cells) != [] {
          assert cells[1..][n - 1] == cells[n];
        }
      }
    }
  }
}
