/** Absolute positions and their offsets in a buffer of cap bytes. */
module Positions {

  lemma Monotone(cap: nat, a: nat, b: nat)
    ensures a < b ==> cap * a + cap <= cap * b
  {
    if a < b {
      assert cap * b == cap * (a + 1) + cap * (b - (a + 1));
    }
  }

  lemma ModOfSum(cap: nat, q: nat, r: nat)
    requires r < cap
    ensures (cap * q + r) % cap == r && (cap * q + r) / cap == q
  {
    var pos := cap * q + r;
    assert pos == cap * (pos / cap) + pos % cap;
    Monotone(cap, q, pos / cap);
    Monotone(cap, pos / cap, q);
  }

  /** Inside a run that does not cross the end, offsets advance with positions. */
  lemma Advance(cap: nat, pos: nat, i: nat)
    requires cap > 0 && pos % cap + i < cap
    ensures (pos + i) % cap == pos % cap + i
  {
    ModOfSum(cap, pos / cap, pos % cap + i);
  }

  /** Advancing to the end of the buffer arrives at offset zero. */
  lemma AdvanceToEnd(cap: nat, pos: nat)
    requires cap > 0
    ensures (pos + (cap - pos % cap)) % cap == 0
  {
    assert pos + (cap - pos % cap) == cap * (pos / cap + 1) + 0;
    ModOfSum(cap, pos / cap + 1, 0);
  }

  /** Positions less than a lap behind the run at pos do not share its bytes. */
  lemma NoAlias(cap: nat, pos: nat, size: nat, q: nat)
    requires cap > 0 && pos % cap + size <= cap
    requires q < pos && pos + size <= q + cap
    ensures q % cap < pos % cap || pos % cap + size <= q % cap
  {
    var off := pos % cap;
    var base := pos - off;
    assert base == cap * (pos / cap);
    if base <= q {
      ModOfSum(cap, pos / cap, q - base);
    } else {
      assert pos / cap > 0;
      assert base - cap == cap * (pos / cap - 1);
      ModOfSum(cap, pos / cap - 1, q - (base - cap));
    }
  }

  /** In a buffer of a multiple of 8 bytes, aligned positions have aligned offsets. */
  lemma Aligned(cap: nat, pos: nat)
    requires cap > 0 && cap % 8 == 0 && pos % 8 == 0
    ensures pos % cap % 8 == 0
  {
    var c, p := cap / 8, pos / 8;
    assert pos % cap == 8 * (p - c * (pos / cap)) by {
      assert pos == cap * (pos / cap) + pos % cap;
    }
  }

  lemma Sum8(a: int, b: int, c: int)
    requires a % 8 == 0 && b % 8 == 0 && c % 8 == 0
    ensures (a + (b - c)) % 8 == 0
  {
  }
}
