/** Exclusive or on and shifts of 32-bit words, under names: their laws are used without looking at the bits. */
module Bits {
  function Xor(c: bv32, d: bv32): bv32 {
    c ^ d
  }

  function Shr1(c: bv32): bv32 { c >> 1 }
  function Shr8(c: bv32): bv32 { c >> 8 }
  function Shr16(c: bv32): bv32 { c >> 16 }
  function Shr24(c: bv32): bv32 { c >> 24 }

  lemma XorTop(t: bv32, c: bv32, u: bv32, d: bv32)
    requires Shr24(Xor(t, Shr8(c))) == Shr24(Xor(u, Shr8(d)))
    ensures Shr24(t) == Shr24(u)
  {
  }

  lemma XorCancel(c: bv32, d: bv32, e: bv32)
    requires Xor(c, e) == Xor(d, e)
    ensures c == d
  {
  }

  lemma XorComm(c: bv32, d: bv32)
    ensures Xor(c, d) == Xor(d, c)
  {
  }

  lemma XorAssoc(c: bv32, d: bv32, e: bv32)
    ensures Xor(Xor(c, d), e) == Xor(c, Xor(d, e))
  {
  }

  /** Two operands of a chain change places. */
  lemma XorSwap(c: bv32, d: bv32, e: bv32)
    ensures Xor(Xor(c, d), e) == Xor(Xor(c, e), d)
  {
    hide Xor;
    XorAssoc(c, d, e);
    XorComm(d, e);
    XorAssoc(c, e, d);
  }

  lemma XorTwice(c: bv32, d: bv32)
    ensures Xor(Xor(c, d), d) == c
  {
  }

  lemma XorZero(c: bv32)
    ensures Xor(c, 0) == c
  {
  }

  lemma XorBack1(t: bv32, c: bv32, d: bv32)
    requires Shr16(Xor(t, Shr8(c))) == Shr16(Xor(t, Shr8(d)))
    ensures Shr24(c) == Shr24(d)
  {
  }

  lemma XorBack2(t: bv32, c: bv32, d: bv32)
    requires Shr8(Xor(t, Shr8(c))) == Shr8(Xor(t, Shr8(d)))
    ensures Shr16(c) == Shr16(d)
  {
  }

  lemma XorBack3(t: bv32, c: bv32, d: bv32)
    requires Xor(t, Shr8(c)) == Xor(t, Shr8(d))
    ensures Shr8(c) == Shr8(d)
  {
  }

  lemma XorShift(c: bv32, d: bv32)
    ensures Shr1(Xor(c, d)) == Xor(Shr1(c), Shr1(d))
  {
  }

  lemma XorLowBit(c: bv32, d: bv32)
    ensures Xor(c, d) & 1 == 1 <==> (c & 1 == 1) != (d & 1 == 1)
  {
  }

  lemma XorPoly(c: bv32, d: bv32, p: bv32)
    ensures Xor(Xor(c, p), Xor(d, p)) == Xor(c, d)
    ensures Xor(Xor(c, p), d) == Xor(Xor(c, d), p)
    ensures Xor(c, Xor(d, p)) == Xor(Xor(c, d), p)
  {
    hide Xor;
    XorSwap(c, p, d);
    XorAssoc(c, d, p);
    XorAssoc(Xor(c, p), d, p);
    XorTwice(Xor(c, d), p);
  }

  lemma XorSame(c: bv32, d: bv32)
    ensures Xor(c, d) == c <==> d == 0
  {
  }
}
