/** Little-endian integers in byte strings, as the packed structures of the source lay them out. */
module Bytes {
  import opened Positions

  /** The byte with value n, counted up so that no conversion from integers to bits is involved. */
  function ByteOf(n: nat): (b: bv8)
    requires n < 256
    ensures b as int == n
  {
    if n == 0 then 0 else ByteOf(n - 1) + 1
  }

  ghost function Pow256(width: nat): (p: nat)
    ensures p > 0
  {
    if width == 0 then 1 else 256 * Pow256(width - 1)
  }

  function ToLE(n: nat, width: nat): (s: seq<bv8>)
    ensures |s| == width
  {
    if width == 0 then [] else [ByteOf(n % 256)] + ToLE(n / 256, width - 1)
  }

  function FromLE(s: seq<bv8>): nat
  {
    if s == [] then 0 else (s[0] as int) + 256 * FromLE(s[1..])
  }

  /** An integer that fits its field is read back unchanged. */
  lemma {:induction false} FromToLE(n: nat, width: nat)
    requires n < Pow256(width)
    ensures FromLE(ToLE(n, width)) == n
  {
    if width == 0 {
    } else {
      FromToLE(n / 256, width - 1);
      assert ToLE(n, width)[1..] == ToLE(n / 256, width - 1);
    }
  }

  lemma DivideTwice(n: nat, p: nat)
    requires p > 0
    ensures n / 256 / p == n / (256 * p)
  {
    var q, r := n / 256, n % 256;
    var x, y := q / p, q % p;
    assert n == (256 * p) * x + (256 * y + r) by {
      assert q == p * x + y;
    }
    ModOfSum(256 * p, x, 256 * y + r);
  }

  /** Byte i of a field is digit i of the number to the base 256: the lowest byte comes first. */
  lemma {:induction false} DigitOfLE(n: nat, width: nat, i: nat)
    requires i < width
    ensures ToLE(n, width)[i] as int == n / Pow256(i) % 256
  {
    if i == 0 {
      assert n / 1 == n;
    } else {
      DigitOfLE(n / 256, width - 1, i - 1);
      DivideTwice(n, Pow256(i - 1));
    }
  }

  /** A field read from memory fits its width. */
  lemma {:induction false} FromLEBound(s: seq<bv8>)
    ensures FromLE(s) < Pow256(|s|)
  {
    if s == [] {
    } else {
      FromLEBound(s[1..]);
    }
  }

  lemma FirstDigit(a: nat, x: nat, b: nat, y: nat)
    requires a < 256 && b < 256 && a + 256 * x == b + 256 * y
    ensures a == b && x == y
  {
  }

  lemma SameByte(a: bv8, b: bv8)
    requires a as int == b as int
    ensures a == b
  {
  }

  /** Different bytes of one width are different numbers. */
  lemma {:induction false} SameLE(s: seq<bv8>, t: seq<bv8>)
    requires |s| == |t| && FromLE(s) == FromLE(t)
    ensures s == t
  {
    if s == [] {
    } else {
      FirstDigit(s[0] as int, FromLE(s[1..]), t[0] as int, FromLE(t[1..]));
      SameByte(s[0], t[0]);
      SameLE(s[1..], t[1..]);
      assert s == [s[0]] + s[1..] && t == [t[0]] + t[1..];
    }
  }

  lemma FourBytes(a: bv8, b: bv8, c: bv8, d: bv8)
    ensures FromLE([a, b, c, d]) == a as int + 0x100 * b as int + 0x1_0000 * c as int + 0x100_0000 * d as int
  {
    assert [a, b, c, d][1..] == [b, c, d] && [b, c, d][1..] == [c, d] && [c, d][1..] == [d] && [d][1..] == [];
    assert FromLE([c, d]) == c as int + 0x100 * FromLE([d]);
    assert FromLE([b, c, d]) == b as int + 0x100 * FromLE([c, d]);
  }

  lemma Pow256Values()
    ensures Pow256(2) == 0x1_0000
    ensures Pow256(4) == 0x1_0000_0000
    ensures Pow256(8) == 0x1_0000_0000_0000_0000
  {
    assert Pow256(1) == 256 * Pow256(0);
    assert Pow256(3) == 256 * Pow256(2);
    assert Pow256(5) == 256 * Pow256(4);
    assert Pow256(7) == 256 * Pow256(6);
  }
}
