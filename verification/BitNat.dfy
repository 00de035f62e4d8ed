/** Shifts, masks and bitwise or on naturals, for words whose field widths are parameters. */
module BitNat {
  import opened Positions

  function Pow2(k: nat): (p: nat)
    ensures p > 0
  {
    if k == 0 then 1 else 2 * Pow2(k - 1)
  }

  function Or(a: nat, b: nat): nat
    decreases a
  {
    if a == 0 then b else if b == 0 then a
    else 2 * Or(a / 2, b / 2) + (if a % 2 == 1 || b % 2 == 1 then 1 else 0)
  }

  function And(a: nat, b: nat): nat
    decreases a
  {
    if a == 0 || b == 0 then 0
    else 2 * And(a / 2, b / 2) + (if a % 2 == 1 && b % 2 == 1 then 1 else 0)
  }

  /** A left shift in a 64-bit word loses the bits that leave it. */
  function Shl(x: nat, k: nat): nat {
    x * Pow2(k) % Pow2(64)
  }

  function Shr(x: nat, k: nat): nat {
    Quotient(x, Pow2(k))
  }

  function Quotient(x: nat, p: nat): nat
    requires p > 0
  {
    x / p
  }

  lemma {:induction false} Pow2Add(a: nat, b: nat)
    ensures Pow2(a + b) == Pow2(a) * Pow2(b)
  {
    if a == 0 {
    } else {
      Pow2Add(a - 1, b);
      assert Pow2(a) * Pow2(b) == 2 * (Pow2(a - 1) * Pow2(b));
    }
  }

  lemma {:induction false} Pow2Grows(a: nat, b: nat)
    requires a <= b
    ensures Pow2(a) <= Pow2(b)
  {
    if a >= b {
    } else {
      Pow2Grows(a, b - 1);
    }
  }

  lemma OrStep(x: nat, b: nat)
    ensures Or(2 * x, b) == 2 * Or(x, b / 2) + b % 2
  {
  }

  /** Bits below a shifted value are added to it. */
  lemma {:induction false} OrDisjoint(a: nat, b: nat, k: nat)
    requires b < Pow2(k)
    ensures Or(a * Pow2(k), b) == a * Pow2(k) + b
  {
    hide Or;
    if k > 0 {
      OrDisjoint(a, b / 2, k - 1);
      OrStep(a * Pow2(k - 1), b);
      Doubled(a, Pow2(k - 1));
    } else {
      OrNone(a * Pow2(k));
    }
  }

  lemma OrNone(a: nat)
    ensures Or(a, 0) == a
  {
  }

  /** The lowest bit of a remainder is that of the number. */
  lemma HalfMod(x: nat, p: nat)
    requires p > 0
    ensures x % (2 * p) == 2 * (x / 2 % p) + x % 2
  {
    var h := x / 2;
    var q, r := h / p, 2 * (h % p) + x % 2;
    assert h == p * q + h % p;
    Doubled(p, q);
    assert x == (2 * p) * q + r;
    ModOfSum(2 * p, q, r);
  }

  lemma Doubled(p: nat, q: nat)
    ensures 2 * (p * q) == (2 * p) * q == p * (2 * q)
  {
  }

  /** A mask of the low k bits takes the remainder. */
  lemma {:induction false} AndMask(x: nat, k: nat)
    ensures And(x, Pow2(k) - 1) == x % Pow2(k)
  {
    if k > 0 && x > 0 {
      AndMask(x / 2, k - 1);
      HalfMod(x, Pow2(k - 1));
    } else if k > 0 {
      ModOfSum(Pow2(k), 0, 0);
    }
  }

  lemma DivMod(x: nat, p: nat)
    requires p > 0
    ensures x == x / p * p + x % p && x % p < p
  {
  }

  /** A field stored above k bits is read back by shifting, and what lies below by masking. */
  lemma Fields(high: nat, low: nat, k: nat)
    requires low < Pow2(k)
    ensures Shr(high * Pow2(k) + low, k) == high
    ensures And(high * Pow2(k) + low, Pow2(k) - 1) == low
  {
    assert high * Pow2(k) + low == Pow2(k) * high + low;
    ModOfSum(Pow2(k), high, low);
    AndMask(high * Pow2(k) + low, k);
  }

  /** A field of width w shifted by k needs w + k bits. */
  lemma FieldBound(x: nat, w: nat, k: nat)
    requires x < Pow2(w)
    ensures x * Pow2(k) + Pow2(k) <= Pow2(w + k)
  {
    Pow2Add(w, k);
    assert (x + 1) * Pow2(k) == x * Pow2(k) + Pow2(k);
    Scaled(x + 1, Pow2(w), Pow2(k));
  }

  lemma Scaled(a: nat, b: nat, p: nat)
    requires a <= b
    ensures a * p <= b * p
  {
  }

  /** A shift that keeps every bit. */
  lemma ShlExact(x: nat, w: nat, k: nat)
    requires x < Pow2(w) && w + k <= 64
    ensures Shl(x, k) == x * Pow2(k)
  {
    hide Pow2;
    FieldBound(x, w, k);
    Pow2Grows(w + k, 64);
    ModOfSum(Pow2(64), 0, x * Pow2(k));
  }
}
