/** Dates of the proleptic Gregorian calendar, days and seconds since 1970. */
module Calendar {

  /** Integer division and remainder that round toward zero, for a positive divisor. */
  function Div(a: int, b: int): int
    requires b > 0
  {
    if a >= 0 then a / b else -(-a / b)
  }

  function Mod(a: int, b: int): int
    requires b > 0
  {
    a - b * Div(a, b)
  }

  /** The value of an integer in an unsigned 32-bit word. */
  function U32(a: int): nat {
    a % 0x1_0000_0000
  }

  /** A quotient and a remainder in range are the only ones. */
  lemma Unique(a: int, b: int, q: int, r: int)
    requires b > 0 && 0 <= r < b && a == b * q + r
    ensures a / b == q && a % b == r
  {
    Larger(b, q, a / b);
    Larger(b, a / b, q);
  }

  lemma Larger(b: int, x: int, y: int)
    requires b > 0
    ensures x < y ==> b * x + b <= b * y
  {
    if x < y {
      Distribute(b, x, y - x);
      Positive(b, y - x - 1);
      Distribute(b, y - x - 1, 1);
    }
  }

  lemma Distribute(b: int, x: int, y: int)
    ensures b * (x + y) == b * x + b * y
  {
  }

  lemma Positive(b: int, n: int)
    requires b > 0 && n >= 0
    ensures b * n >= 0
  {
  }

  datatype Date = Date(year: int, month: int, day: int)

  // The calendar itself, as the reference.

  predicate IsLeap(y: int) {
    y % 4 == 0 && (y % 100 != 0 || y % 400 == 0)
  }

  function DaysInMonth(y: int, m: int): int {
    if m == 2 then (if IsLeap(y) then 29 else 28)
    else if m == 4 || m == 6 || m == 9 || m == 11 then 30
    else 31
  }

  predicate Valid(c: Date) {
    1 <= c.month <= 12 && 1 <= c.day <= DaysInMonth(c.year, c.month)
  }

  function NextDay(c: Date): Date {
    if c.day < DaysInMonth(c.year, c.month) then Date(c.year, c.month, c.day + 1)
    else if c.month < 12 then Date(c.year, c.month + 1, 1)
    else Date(c.year + 1, 1, 1)
  }

  predicate Earlier(a: Date, b: Date) {
    || a.year < b.year
    || (a.year == b.year && (a.month < b.month || (a.month == b.month && a.day < b.day)))
  }

  // The source's conversions.

  /** Days since 1970 of a date; years start in March here, and 400 of them make an era. */
  function DaysFromCivil(year: int, m: nat, d: nat): int {
    var y := if m <= 2 then year - 1 else year;
    var era := Div(if y >= 0 then y else y - 399, 400);
    var yoe := U32(y - era * 400);
    var doy := U32(U32(153 * U32(if m > 2 then m - 3 else m + 9) + 2) / 5 + d - 1);
    var doe := U32(yoe * 365 + yoe / 4 - yoe / 100 + doy);
    era * 146097 + doe - 719468
  }

  /** The date of a number of days since 1970. */
  function CivilFromDays(days: int): Date {
    var z := days + 719468;
    var era := Div(if z >= 0 then z else z - 146096, 146097);
    CivilOfEra(era, U32(z - era * 146097))
  }

  function CivilOfEra(era: int, doe: nat): Date {
    var yoe := YearOfEra(doe);
    var doy := doe - (365 * yoe + yoe / 4 - yoe / 100);
    var mp := (5 * doy + 2) / 153;
    var mon := if mp < 10 then mp + 2 else mp - 10;
    Date(yoe + era * 400 + (if mon <= 1 then 1 else 0), mon + 1, doy - (153 * mp + 2) / 5 + 1)
  }

  function YearOfEra(doe: nat): int {
    (doe - doe / 1460 + doe / 36524 - doe / 146096) / 365
  }

  // Both in closed form.

  /** The day number of the first of March, without the shift to 1970. */
  function YearStart(y: int): int {
    365 * y + y / 4 - y / 100 + y / 400
  }

  /** The number of a month, from March on. */
  function Shifted(month: int): int {
    if month > 2 then month - 3 else month + 9
  }

  function MonthStart(mp: int): int {
    (153 * mp + 2) / 5
  }

  function MarchYear(c: Date): int {
    if c.month <= 2 then c.year - 1 else c.year
  }

  function Days(c: Date): int {
    DaysFromCivil(c.year, if c.month >= 0 then c.month else 0, if c.day >= 0 then c.day else 0)
  }

  /** Rounding down is reached by moving a negative number down before the division. */
  lemma FloorOfEra(z: int, size: int)
    requires size > 0
    ensures Div(if z >= 0 then z else z - (size - 1), size) == z / size
  {
    if z < 0 {
      var n := size - 1 - z;
      var q, r := n / size, n % size;
      assert n == size * q + r;
      Distribute(size, q, -q);
      Unique(z, size, -q, size - 1 - r);
    }
  }

  lemma EraSplit(y: int)
    ensures var era := Div(if y >= 0 then y else y - 399, 400);
            var yoe := y - era * 400;
            && 0 <= yoe < 400
            && era * 146097 + yoe * 365 + yoe / 4 - yoe / 100 == YearStart(y)
  {
    FloorOfEra(y, 400);
    hide Div, YearStart;
    PartsOfYear(y / 400, y % 400);
  }

  lemma MonthTable()
    ensures forall mp :: 0 <= mp <= 10 ==>
              MonthStart(mp + 1) - MonthStart(mp) == if mp == 1 || mp == 3 || mp == 6 || mp == 8 then 30 else 31
    ensures MonthStart(0) == 0 && MonthStart(11) == 337
  {
  }

  /** On valid dates nothing wraps. */
  lemma DaysValue(c: Date)
    requires Valid(c)
    ensures Days(c) == YearStart(MarchYear(c)) + MonthStart(Shifted(c.month)) + c.day - 1 - 719468
    ensures 0 <= MonthStart(Shifted(c.month)) + c.day - 1 <= 365
  {
    var y, mp := MarchYear(c), Shifted(c.month);
    var era := Div(if y >= 0 then y else y - 399, 400);
    EraSplit(y);
    MonthBounds(c);
    hide U32, YearStart, Div;
    Fits(y - era * 400);
    Fits(mp);
    Fits(153 * mp + 2);
    Fits(MonthStart(mp) + c.day - 1);
    YearOfEraBound(y - era * 400);
    Fits((y - era * 400) * 365 + (y - era * 400) / 4 - (y - era * 400) / 100 + (MonthStart(mp) + c.day - 1));
  }

  lemma Fits(a: int)
    requires 0 <= a < 0x1_0000_0000
    ensures U32(a) == a
  {
  }

  lemma MonthBounds(c: Date)
    requires Valid(c)
    ensures 0 <= Shifted(c.month) <= 11
    ensures 0 <= MonthStart(Shifted(c.month)) + c.day - 1 <= 365
  {
  }

  lemma YearOfEraBound(yoe: nat)
    requires yoe < 400
    ensures 0 <= yoe * 365 + yoe / 4 - yoe / 100 < 146097
  {
  }

  /** A year that starts in March ends with the February of the next calendar year. */
  lemma NextYearStart(y: int)
    ensures YearStart(y + 1) == YearStart(y) + (if IsLeap(y + 1) then 366 else 365)
  {
    Carry(y, 4);
    Carry(y, 100);
    Carry(y, 400);
  }

  lemma Carry(y: int, n: int)
    requires n == 4 || n == 100 || n == 400
    ensures (y + 1) / n == y / n + (if (y + 1) % n == 0 then 1 else 0)
  {
  }

  /** The next date has the next day number. */
  lemma SuccessorDay(c: Date)
    requires Valid(c)
    ensures Valid(NextDay(c)) && Days(NextDay(c)) == Days(c) + 1
  {
    hide Days, YearStart;
    DaysValue(c);
    DaysValue(NextDay(c));
    MonthTable();
    NextYearStart(MarchYear(c));
  }

  /** Day numbers are ordered as the dates. */
  lemma DaysIncrease(a: Date, b: Date)
    requires Valid(a) && Valid(b)
    ensures Earlier(a, b) <==> Days(a) < Days(b)
    ensures a == b <==> Days(a) == Days(b)
  {
    if Earlier(a, b) {
      EarlierDays(a, b);
    } else if a != b {
      EarlierDays(b, a);
    }
  }

  lemma EarlierDays(a: Date, b: Date)
    requires Valid(a) && Valid(b) && Earlier(a, b)
    ensures Days(a) < Days(b)
  {
    hide Days, YearStart;
    DaysValue(a);
    DaysValue(b);
    if MarchYear(a) < MarchYear(b) {
      WithinYear(a);
      YearsIncrease(MarchYear(a) + 1, MarchYear(b));
    } else {
      MonthsIncrease(a, b);
    }
  }

  /** A date lies before the end of its year. */
  lemma WithinYear(a: Date)
    requires Valid(a)
    ensures YearStart(MarchYear(a)) + MonthStart(Shifted(a.month)) + a.day - 1 < YearStart(MarchYear(a) + 1)
  {
    hide YearStart;
    NextYearStart(MarchYear(a));
  }

  lemma {:induction false} YearsIncrease(x: int, y: int)
    requires x <= y
    ensures YearStart(x) <= YearStart(y)
    decreases y - x
  {
    hide YearStart;
    if x >= y {
    } else {
      YearsIncrease(x, y - 1);
      NextYearStart(y - 1);
    }
  }

  lemma MonthsIncrease(a: Date, b: Date)
    requires Valid(a) && Valid(b) && Earlier(a, b) && MarchYear(a) == MarchYear(b)
    ensures MonthStart(Shifted(a.month)) + a.day < MonthStart(Shifted(b.month)) + b.day
  {
  }

  // From day numbers back to dates.

  /**
   * Inside an era the year is found by one division: with the centuries, the cycles of four years and
   * the years taken apart, the corrections leave the day of the year too small for a further year.
   */
  lemma YearOfDay(doe: nat)
    requires doe < 146097
    ensures var yoe := YearOfEra(doe);
            var doy := doe - (365 * yoe + yoe / 4 - yoe / 100);
            && 0 <= yoe < 400
            && 0 <= doy <= (if yoe == 399 || IsLeap(yoe + 1) then 365 else 364)
  {
    var c := if doe == 146096 then 3 else doe / 36524;
    var coc := doe - 36524 * c;
    var f, dof := coc / 1461, coc % 1461;
    var g := if dof == 1460 then 3 else dof / 365;
    var r := dof - 365 * g;
    Century(doe, c);
    hide IsLeap, YearOfEra;
    assert doe == 36524 * c + 1461 * f + 365 * g + r;
    Quadrennium(c, f, g, r);
    Corrected(c, f, g, r);
  }

  lemma Century(doe: nat, c: nat)
    requires doe < 146097 && c == if doe == 146096 then 3 else doe / 36524
    ensures c <= 3 && 0 <= doe - 36524 * c <= (if c == 3 then 36524 else 36523)
  {
  }

  lemma Quadrennium(c: nat, f: nat, g: nat, r: nat)
    requires c <= 3 && f <= 24 && g <= 3 && r <= 365
    ensures var yoe := 100 * c + 4 * f + g;
            && yoe < 400
            && 365 * yoe + yoe / 4 - yoe / 100 == 36524 * c + 1461 * f + 365 * g
            && (g == 3 && (f < 24 || c == 3) ==> yoe == 399 || IsLeap(yoe + 1))
  {
    var yoe := 100 * c + 4 * f + g;
    assert yoe / 4 == 25 * c + f;
    assert yoe / 100 == c;
  }

  lemma Corrected(c: nat, f: nat, g: nat, r: nat)
    requires c <= 3 && f <= 24 && g <= 3 && r <= 365
    requires r == 365 ==> g == 3 && (f < 24 || c == 3)
    ensures var doe := 36524 * c + 1461 * f + 365 * g + r;
            YearOfEra(doe) == 100 * c + 4 * f + g
  {
    var doe := 36524 * c + 1461 * f + 365 * g + r;
    var rest := 24 * c + f + 365 * g + r;
    var e := if rest >= 1460 then 1 else 0;
    Unique(doe, 1460, 25 * c + f + e, rest - 1460 * e);
    if doe == 146096 {
      assert doe / 36524 == 4 && doe / 146096 == 1;
    } else {
      Unique(doe, 36524, c, 1461 * f + 365 * g + r);
      Unique(doe, 146096, 0, doe);
    }
    Unique(doe - (25 * c + f + e) + c, 365, 100 * c + 4 * f + g, r - e);
  }

  /** Every day number is that of the date computed from it, and the date is valid. */
  lemma CivilRight(days: int)
    ensures Valid(CivilFromDays(days)) && Days(CivilFromDays(days)) == days
  {
    hide *;
    var z := days + 719468;
    EraDay(days);
    EraDayRight(z / 146097, z % 146097);
  }

  /** The era and the day in it are quotient and remainder. */
  lemma EraDay(days: int)
    ensures var z := days + 719468; CivilFromDays(days) == CivilOfEra(z / 146097, z % 146097)
  {
    var z := days + 719468;
    hide CivilOfEra, Div, U32;
    FloorOfEra(z, 146097);
    Fits(z % 146097);
  }

  lemma EraDayRight(era: int, doe: nat)
    requires doe < 146097
    ensures Valid(CivilOfEra(era, doe)) && Days(CivilOfEra(era, doe)) == era * 146097 + doe - 719468
  {
    hide IsLeap, Days, YearOfEra;
    YearOfDay(doe);
    var yoe := YearOfEra(doe);
    DateOfParts(era, yoe, doe - (365 * yoe + yoe / 4 - yoe / 100), CivilOfEra(era, doe));
  }

  lemma DateOfParts(era: int, yoe: nat, doy: nat, c: Date)
    requires yoe < 400 && doy <= (if yoe == 399 || IsLeap(yoe + 1) then 365 else 364)
    requires var mp := (5 * doy + 2) / 153;
             var mon := if mp < 10 then mp + 2 else mp - 10;
             c == Date(yoe + era * 400 + (if mon <= 1 then 1 else 0), mon + 1, doy - (153 * mp + 2) / 5 + 1)
    ensures Valid(c) && Days(c) == era * 146097 + 365 * yoe + yoe / 4 - yoe / 100 + doy - 719468
  {
    hide YearStart, Days, IsLeap;
    MonthOfDay(doy);
    PartsOfYear(era, yoe);
    DaysValue(c);
  }

  lemma MonthOfDay(doy: nat)
    requires doy <= 365
    ensures var mp := (5 * doy + 2) / 153;
            && 0 <= mp <= 11
            && 0 <= doy - MonthStart(mp) < (if mp == 11 then (if doy == 365 then 29 else 28)
                                            else if mp == 1 || mp == 3 || mp == 6 || mp == 8 then 30 else 31)
  {
  }

  lemma PartsOfYear(era: int, yoe: nat)
    requires yoe < 400
    ensures YearStart(era * 400 + yoe) == era * 146097 + 365 * yoe + yoe / 4 - yoe / 100
    ensures IsLeap(era * 400 + yoe + 1) <==> yoe == 399 || IsLeap(yoe + 1)
  {
    YearStartOfEra(era, yoe);
    Periodic(era, yoe + 1, 4);
    Periodic(era, yoe + 1, 100);
    Periodic(era, yoe + 1, 400);
  }

  lemma YearStartOfEra(era: int, yoe: nat)
    requires yoe < 400
    ensures YearStart(era * 400 + yoe) == era * 146097 + 365 * yoe + yoe / 4 - yoe / 100
  {
    var y := era * 400 + yoe;
    Unique(y, 4, 100 * era + yoe / 4, yoe % 4);
    Unique(y, 100, 4 * era + yoe / 100, yoe % 100);
    Unique(y, 400, era, yoe);
  }

  lemma Periodic(era: int, y: int, n: int)
    requires n == 4 || n == 100 || n == 400
    ensures (era * 400 + y) % n == y % n
  {
    if n == 4 {
      Unique(era * 400 + y, 4, 100 * era + y / 4, y % 4);
    } else if n == 100 {
      Unique(era * 400 + y, 100, 4 * era + y / 100, y % 100);
    } else {
      Unique(era * 400 + y, 400, era + y / 400, y % 400);
    }
  }

  /** Conversely, every valid date is computed from its day number. */
  lemma CivilOfDays(c: Date)
    requires Valid(c)
    ensures CivilFromDays(Days(c)) == c
  {
    hide CivilFromDays, Days;
    CivilRight(Days(c));
    DaysIncrease(c, CivilFromDays(Days(c)));
  }

  /** Some day numbers: leap days, a century without one, a day before 1970. */
  lemma KnownDays()
    ensures Days(Date(1970, 1, 1)) == 0 && Days(Date(1969, 12, 31)) == -1
    ensures Days(Date(2000, 2, 29)) == 11016 && Days(Date(2024, 1, 1)) == 19723
    ensures Days(Date(1900, 3, 1)) == -25508 && Days(Date(1900, 2, 28)) == -25509
    ensures Days(Date(1600, 2, 29)) == -135081
  {
    hide Days;
    DaysValue(Date(1970, 1, 1));
    DaysValue(Date(1969, 12, 31));
    DaysValue(Date(2000, 2, 29));
    DaysValue(Date(2024, 1, 1));
    DaysValue(Date(1900, 3, 1));
    DaysValue(Date(1900, 2, 28));
    DaysValue(Date(1600, 2, 29));
  }
}
