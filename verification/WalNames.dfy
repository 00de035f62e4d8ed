/** File names that carry a sequence number in decimal. */
module WalNames {
  import opened WalFormat

  function Digit(d: nat): char
    requires d < 10
  {
    "0123456789"[d]
  }

  function DigitValue(c: char): nat {
    if c == '1' then 1 else if c == '2' then 2 else if c == '3' then 3
    else if c == '4' then 4 else if c == '5' then 5 else if c == '6' then 6
    else if c == '7' then 7 else if c == '8' then 8 else if c == '9' then 9 else 0
  }

  predicate IsDigit(c: char) {
    c in "0123456789"
  }

  function Decimal(n: nat): (s: string)
    ensures s != [] && forall i :: 0 <= i < |s| ==> IsDigit(s[i])
  {
    if n < 10 then [Digit(n)] else Decimal(n / 10) + [Digit(n % 10)]
  }

  function Value(s: string): nat {
    if s == [] then 0 else Value(s[..|s| - 1]) * 10 + DigitValue(s[|s| - 1])
  }

  function LeadingDigits(s: string): (n: nat)
    ensures n <= |s|
  {
    if s != [] && IsDigit(s[0]) then 1 + LeadingDigits(s[1..]) else 0
  }

  /** The number at the start of a string; 0 stands for the exceptions, which the caller swallows. */
  function Stoull(s: string): nat {
    var v := Value(s[..LeadingDigits(s)]);
    if v < LIMIT then v else 0
  }

  function Find(s: string, c: char): (i: nat)
    ensures i <= |s|
  {
    if s == [] || s[0] == c then 0 else 1 + Find(s[1..], c)
  }

  /** The number between the first underscore and the first dot. */
  function ParseSeq(name: string): nat {
    var u, d := Find(name, '_'), Find(name, '.');
    if u == |name| || d == |name| then 0
    else if u < d then Stoull(name[u + 1..d])
    else Stoull(name[u + 1..])
  }

  function Name(prefix: string, n: nat): string {
    prefix + "_" + Decimal(n) + ".wal"
  }

  /** The extension is the part from the last dot on, and a name does not consist of it alone. */
  predicate IsWal(name: string) {
    |name| > 4 && name[|name| - 4..] == ".wal"
  }

  predicate Plain(prefix: string) {
    '_' !in prefix && '.' !in prefix
  }

  lemma DigitRoundTrip(d: nat)
    requires d < 10
    ensures DigitValue(Digit(d)) == d && IsDigit(Digit(d))
  {
  }

  lemma {:induction false} DecimalValue(n: nat)
    ensures Value(Decimal(n)) == n
  {
    if n >= 10 {
      DecimalValue(n / 10);
      DigitRoundTrip(n % 10);
      assert Decimal(n)[..|Decimal(n)| - 1] == Decimal(n / 10);
    } else {
      DigitRoundTrip(n);
      assert Decimal(n)[..0] == [];
    }
  }

  lemma {:induction false} AllLead(s: string)
    requires forall i :: 0 <= i < |s| ==> IsDigit(s[i])
    ensures LeadingDigits(s) == |s|
  {
    if s == [] {
    } else {
      AllLead(s[1..]);
    }
  }

  lemma {:induction false} FindIn(s: string, c: char, rest: string)
    requires c !in s
    ensures Find(s + [c] + rest, c) == |s|
  {
    var t := s + [c] + rest;
    if s == [] {
    } else {
      assert t[1..] == s[1..] + [c] + rest;
      assert t[0] == s[0] && s[0] != c;
      FindIn(s[1..], c, rest);
    }
  }

  /** The number in a name is read back. */
  lemma ParseName(prefix: string, n: nat)
    requires Plain(prefix) && n < LIMIT
    ensures ParseSeq(Name(prefix, n)) == n && IsWal(Name(prefix, n))
  {
    var d, name := Decimal(n), Name(prefix, n);
    assert name == prefix + ['_'] + (d + ".wal");
    FindIn(prefix, '_', d + ".wal");
    assert name == (prefix + "_" + d) + ['.'] + "wal";
    NoDot(d);
    FindIn(prefix + "_" + d, '.', "wal");
    assert name[|prefix| + 1..|prefix| + 1 + |d|] == d;
    AllLead(d);
    assert d[..|d|] == d;
    DecimalValue(n);
    assert name[|name| - 4..] == ".wal";
  }

  lemma DigitText(d: nat)
    requires d < 10
    ensures Digit(d) as int == '0' as int + d
  {
    assert d in {0, 1, 2, 3, 4, 5, 6, 7, 8, 9};
  }

  /** The text of a name: the prefix, an underscore, the number in decimal, the extension. */
  lemma NameText()
    ensures Name("wal", 907) == "wal_907.wal" && Name("log", 0) == "log_0.wal"
  {
    hide Digit;
    DigitText(0);
    DigitText(7);
    DigitText(9);
    assert Decimal(90) == Decimal(9) + [Digit(0)];
    assert Decimal(907) == Decimal(90) + [Digit(7)];
    assert Decimal(907) == ['9', '0', '7'];
    assert Decimal(0) == ['0'];
  }

  lemma NoDot(d: string)
    requires forall i :: 0 <= i < |d| ==> IsDigit(d[i])
    ensures '.' !in d
  {
  }

  lemma NamesDiffer(prefix: string, m: nat, n: nat)
    requires Plain(prefix) && m < LIMIT && n < LIMIT
    ensures Name(prefix, m) == Name(prefix, n) <==> m == n
  {
    ParseName(prefix, m);
    ParseName(prefix, n);
  }

  // ---------------------------------------------------------------- names as std::sort compares them

  predicate Less(s: string, t: string) {
    if t == [] then false
    else if s == [] then true
    else if s[0] != t[0] then s[0] < t[0]
    else Less(s[1..], t[1..])
  }

  ghost predicate Sorted(names: seq<string>) {
    forall i, j :: 0 <= i < j < |names| ==> Less(names[i], names[j])
  }

  lemma {:induction false} LessTotal(s: string, t: string)
    ensures Less(s, t) || s == t || Less(t, s)
    ensures !(Less(s, t) && Less(t, s)) && !Less(s, s)
  {
    if s == [] || t == [] || s[0] != t[0] {
      LessItself(s);
    } else {
      LessTotal(s[1..], t[1..]);
      LessItself(s);
      assert s == [s[0]] + s[1..] && t == [t[0]] + t[1..];
    }
  }

  lemma {:induction false} LessItself(s: string)
    ensures !Less(s, s)
  {
    if s == [] {
    } else {
      LessItself(s[1..]);
    }
  }

  lemma {:induction false} LessTransitive(s: string, t: string, u: string)
    requires Less(s, t) && Less(t, u)
    ensures Less(s, u)
  {
    if s == [] || t == [] || u == [] || s[0] != t[0] || t[0] != u[0] {
    } else {
      LessTransitive(s[1..], t[1..], u[1..]);
    }
  }

  lemma SortedDistinct(names: seq<string>)
    requires Sorted(names)
    ensures forall i, j :: 0 <= i < j < |names| ==> names[i] != names[j]
  {
    hide Less;
    forall i, j | 0 <= i < j < |names| ensures names[i] != names[j] {
      LessItself(names[i]);
    }
  }

  /** A sorted arrangement of distinct names; the algorithm of the library is not modelled. */
  method Sort(names: seq<string>) returns (sorted: seq<string>)
    requires forall i, j :: 0 <= i < j < |names| ==> names[i] != names[j]
    ensures Sorted(sorted) && forall name :: name in sorted <==> name in names
  {
    sorted := [];
    for k := 0 to |names|
      invariant Sorted(sorted) && forall name :: name in sorted <==> name in names[..k]
    {
      assert names[..k + 1] == names[..k] + [names[k]] && names[k] !in names[..k];
      sorted := Insert(sorted, names[k]);
    }
    assert names[..|names|] == names;
  }

  method Insert(names: seq<string>, name: string) returns (more: seq<string>)
    requires Sorted(names) && name !in names
    ensures Sorted(more) && forall n :: n in more <==> n in names || n == name
  {
    hide Less;
    var i := 0;
    while i < |names| && Less(names[i], name)
      invariant i <= |names| && forall j :: 0 <= j < i ==> Less(names[j], name)
    {
      i := i + 1;
    }
    if i < |names| {
      LessTotal(names[i], name);
      forall j | i < j < |names| ensures Less(name, names[j]) {
        LessTransitive(name, names[i], names[j]);
      }
    }
    more := names[..i] + [name] + names[i..];
    Inserted(names, name, i);
  }

  lemma Inserted(names: seq<string>, name: string, i: nat)
    requires Sorted(names) && i <= |names|
    requires (forall j :: 0 <= j < i ==> Less(names[j], name)) && forall j :: i <= j < |names| ==> Less(name, names[j])
    ensures var more := names[..i] + [name] + names[i..];
            Sorted(more) && forall n :: n in more <==> n in names || n == name
  {
    hide Less;
    assert names == names[..i] + names[i..];
  }

  /** There is only one sorted arrangement. */
  lemma {:induction false} SortedUnique(a: seq<string>, b: seq<string>)
    requires Sorted(a) && Sorted(b) && forall name :: name in a <==> name in b
    ensures a == b
  {
    hide Less;
    SameNames(a, b);
    SameNames(b, a);
    if a == [] {
    } else {
      assert a[0] in b && b[0] in a;
      LessTotal(a[0], b[0]);
      FirstIsLeast(a, b[0]);
      FirstIsLeast(b, a[0]);
      forall name ensures name in a[1..] <==> name in b[1..] {
        RestOfSorted(a, name);
        RestOfSorted(b, name);
      }
      SortedUnique(a[1..], b[1..]);
    }
  }

  lemma SameNames(a: seq<string>, b: seq<string>)
    ensures (forall name :: name in b ==> name in a) && a == [] ==> b == []
  {
    if b != [] {
      assert b[0] in b;
    }
  }

  lemma FirstIsLeast(a: seq<string>, name: string)
    requires Sorted(a) && a != [] && name in a
    ensures name == a[0] || Less(a[0], name)
  {
    hide Less;
  }

  lemma RestOfSorted(a: seq<string>, name: string)
    requires Sorted(a) && a != []
    ensures name in a[1..] <==> name in a && name != a[0]
  {
    hide Less;
    LessItself(a[0]);
  }

  lemma {:induction false} LessPrefix(p: string, a: string, b: string)
    ensures Less(p + a, p + b) <==> Less(a, b)
  {
    if p == [] {
      assert p + a == a && p + b == b;
    } else {
      assert (p + a)[1..] == p[1..] + a && (p + b)[1..] == p[1..] + b;
      LessPrefix(p[1..], a, b);
    }
  }

  /** For strings of one length, what follows decides only between equal ones. */
  lemma {:induction false} LessConcat(a: string, b: string, x: string, y: string)
    requires |a| == |b|
    ensures Less(a + x, b + y) <==> Less(a, b) || (a == b && Less(x, y))
  {
    if a == [] {
      assert a + x == x && b + y == y;
    } else {
      assert (a + x)[1..] == a[1..] + x && (b + y)[1..] == b[1..] + y;
      assert a == [a[0]] + a[1..] && b == [b[0]] + b[1..];
      LessConcat(a[1..], b[1..], x, y);
    }
  }

  lemma DigitOrder(d: nat, e: nat)
    requires d < 10 && e < 10
    ensures Less([Digit(d)], [Digit(e)]) <==> d < e
  {
    assert [Digit(d)][1..] == [] && [Digit(e)][1..] == [];
  }

  lemma DecimalStep(n: nat)
    ensures Decimal(n) == (if n < 10 then [] else Decimal(n / 10)) + [Digit(n % 10)]
    ensures n >= 10 ==> |Decimal(n)| > 1
  {
  }

  /** Numbers of equally many digits are ordered as their digits. */
  lemma {:induction false} DecimalOrder(m: nat, n: nat)
    requires |Decimal(m)| == |Decimal(n)|
    ensures Less(Decimal(m), Decimal(n)) <==> m < n
    decreases m
  {
    hide Less, Decimal, Digit;
    DecimalStep(m);
    DecimalStep(n);
    DigitOrder(m % 10, n % 10);
    if m < 10 {
      assert [] + [Digit(m % 10)] == [Digit(m % 10)] && [] + [Digit(n % 10)] == [Digit(n % 10)];
    } else {
      DecimalOrder(m / 10, n / 10);
      LessConcat(Decimal(m / 10), Decimal(n / 10), [Digit(m % 10)], [Digit(n % 10)]);
      SameDecimal(m / 10, n / 10);
    }
  }

  lemma SameDecimal(m: nat, n: nat)
    ensures Decimal(m) == Decimal(n) <==> m == n
  {
    DecimalValue(m);
    DecimalValue(n);
  }

  /** Without its last k digits. */
  function Shortened(n: nat, k: nat): nat {
    if k == 0 then n else Shortened(n / 10, k - 1)
  }

  /** The number that the first d digits of n make. */
  function Leading(n: nat, d: nat): nat {
    if |Decimal(n)| <= d then n else Shortened(n, |Decimal(n)| - d)
  }

  lemma {:induction false} LeadingDecimal(n: nat, d: nat)
    requires 1 <= d <= |Decimal(n)|
    ensures Decimal(Leading(n, d)) == Decimal(n)[..d]
  {
    hide Decimal, Digit;
    if |Decimal(n)| == d {
      assert Decimal(n)[..d] == Decimal(n);
    } else {
      DecimalStep(n);
      LeadingDecimal(n / 10, d);
      assert Shortened(n / 10, 0) == n / 10;
      assert Shortened(n, |Decimal(n)| - d) == Shortened(n / 10, |Decimal(n / 10)| - d);
      assert Decimal(n)[..d] == Decimal(n / 10)[..d];
    }
  }

  /** Whether the decimal name of m comes before that of n. */
  predicate Before(m: nat, n: nat) {
    if |Decimal(m)| < |Decimal(n)| then m <= Leading(n, |Decimal(m)|) else Leading(m, |Decimal(n)|) < n
  }

  lemma AboveDot(c: char)
    requires IsDigit(c)
    ensures '.' < c
  {
  }

  lemma FirstDecides(s: string, t: string)
    requires s != [] && t != [] && s[0] < t[0]
    ensures Less(s, t) && !Less(t, s)
  {
  }

  /** Before the extension, a string that goes on with digits comes last. */
  lemma DotFirst(q: string)
    requires q != [] ==> IsDigit(q[0])
    ensures Less(".wal", q + ".wal") <==> q != []
    ensures !Less(q + ".wal", ".wal")
  {
    hide Less, IsDigit;
    LessItself(".wal");
    if q == [] {
      assert q + ".wal" == ".wal";
    } else {
      AboveDot(q[0]);
      assert (q + ".wal")[0] == q[0];
      FirstDecides(".wal", q + ".wal");
    }
  }

  /**
   * The order of two file names: with equally many digits that of the numbers; otherwise the shorter
   * number is compared with as many digits of the longer one, and comes first when they are equal.
   */
  lemma NameOrder(prefix: string, m: nat, n: nat)
    ensures Less(Name(prefix, m), Name(prefix, n)) <==> Before(m, n)
  {
    hide Less, Decimal, Leading;
    var a, b := Decimal(m), Decimal(n);
    LessPrefix(prefix + "_", a + ".wal", b + ".wal");
    assert Name(prefix, m) == prefix + "_" + (a + ".wal") && Name(prefix, n) == prefix + "_" + (b + ".wal");
    if |a| < |b| {
      LeadingDecimal(n, |a|);
      var q := b[|a|..];
      assert b + ".wal" == b[..|a|] + (q + ".wal");
      LessConcat(a, b[..|a|], ".wal", q + ".wal");
      DotFirst(q);
      DecimalOrder(m, Leading(n, |a|));
      SameDecimal(m, Leading(n, |a|));
    } else {
      LeadingDecimal(m, |b|);
      var q := a[|b|..];
      assert a + ".wal" == a[..|b|] + (q + ".wal");
      LessConcat(a[..|b|], b, q + ".wal", ".wal");
      DotFirst(q);
      DecimalOrder(Leading(m, |b|), n);
    }
  }

  /** File 10 comes before file 9. */
  lemma TenBeforeNine(prefix: string)
    ensures Less(Name(prefix, 10), Name(prefix, 9))
  {
    assert Decimal(10) == "10" && Decimal(9) == "9";
    LessPrefix(prefix + "_", "10.wal", "9.wal");
    assert Name(prefix, 10) == prefix + "_" + "10.wal";
    assert Name(prefix, 9) == prefix + "_" + "9.wal";
  }
}
