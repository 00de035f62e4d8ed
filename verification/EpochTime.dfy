/** Broken-down time and seconds since 1970, in both directions. */
module EpochTime {
  import opened Calendar

  /** The fields of struct tm that the conversions set; month and day of the year start at 0, years at 1900. */
  datatype Tm = Tm(sec: int, min: int, hour: int, mday: int, mon: int, year: int, wday: int, yday: int)

  function FastTimegm(tm: Tm): int {
    var days := DaysFromCivil(tm.year + 1900, U32(tm.mon + 1), U32(tm.mday));
    days * 86400 + tm.hour * 3600 + tm.min * 60 + tm.sec
  }

  const MONTH_DAYS: seq<int> := [0, 31, 59, 90, 120, 151, 181, 212, 243, 273, 304, 334]

  /** The number of whole days of an epoch; a negative remainder takes one more day back. */
  function EpochDay(epoch: int): int {
    if epoch < 0 && Mod(epoch, 86400) != 0 then Div(epoch, 86400) - 1 else Div(epoch, 86400)
  }

  function CivilFromEpoch(epoch: int): (tm: Tm)
    ensures 0 <= tm.mon <= 11
  {
    var s := Mod(epoch, 86400);
    var c := CivilFromDays(EpochDay(epoch));
    CivilRight(EpochDay(epoch));
    var marchYear := if c.month <= 2 then c.year - 1 else c.year;
    var isLeap := if marchYear % 4 == 0 && (marchYear % 100 != 0 || marchYear % 400 == 0) then 1 else 0;
    var wday := Mod(Div(epoch, 86400) + 4, 7);
    Tm(Mod(s, 60), Div(Mod(s, 3600), 60), Div(s, 3600),
       c.day, c.month - 1, c.year - 1900,
       if wday < 0 then wday + 7 else wday,
       MONTH_DAYS[c.month - 1] + c.day - 1 + (if c.month - 1 > 1 then isLeap else 0))
  }

  function DateOf(tm: Tm): Date {
    Date(tm.year + 1900, tm.mon + 1, tm.mday)
  }

  predicate ValidClock(tm: Tm) {
    0 <= tm.hour <= 23 && 0 <= tm.min <= 59 && 0 <= tm.sec <= 59
  }

  function ClockSeconds(tm: Tm): int {
    tm.hour * 3600 + tm.min * 60 + tm.sec
  }

  /** Where the remainder by days behaves: on and after 1970, and at every midnight. */
  predicate Regular(epoch: int) {
    epoch >= 0 || epoch % 86400 == 0
  }

  lemma Rounding(a: int, b: int)
    requires b > 0
    ensures Mod(a, b) == if a >= 0 || a % b == 0 then a % b else a % b - b
    ensures Div(a, b) == if a >= 0 || a % b == 0 then a / b else a / b + 1
  {
    if a < 0 {
      NegativeDivision(-a, b);
    }
  }

  lemma NegativeDivision(n: int, b: int)
    requires n > 0 && b > 0
    ensures if n % b == 0 then (-n) / b == -(n / b) && (-n) % b == 0
            else (-n) / b == -(n / b) - 1 && (-n) % b == b - n % b
  {
    var q, r := n / b, n % b;
    assert n == b * q + r;
    if r == 0 {
      assert -n == b * (-q) + 0;
      Unique(-n, b, -q, 0);
    } else {
      assert b * (-q - 1) == b * (-q) - b;
      assert -n == b * (-q - 1) + (b - r);
      Unique(-n, b, -q - 1, b - r);
    }
  }

  /** The day count is the one rounded down, on every epoch. */
  lemma EpochDayFloor(epoch: int)
    ensures EpochDay(epoch) == epoch / 86400
  {
    Rounding(epoch, 86400);
  }

  /** The date is that of the day, on every epoch. */
  lemma CivilDate(epoch: int)
    ensures DateOf(CivilFromEpoch(epoch)) == CivilFromDays(epoch / 86400)
    ensures Valid(DateOf(CivilFromEpoch(epoch))) && Days(DateOf(CivilFromEpoch(epoch))) == epoch / 86400
  {
    hide CivilFromDays, Days, Valid, EpochDay;
    EpochDayFloor(epoch);
    CivilRight(epoch / 86400);
  }

  /** The clock is valid exactly on regular epochs; elsewhere its fields count back from midnight. */
  lemma CivilClock(epoch: int)
    ensures var tm := CivilFromEpoch(epoch);
            && ClockSeconds(tm) == (if Regular(epoch) then epoch % 86400 else epoch % 86400 - 86400)
            && (ValidClock(tm) <==> Regular(epoch))
  {
    Rounding(epoch, 86400);
    ClockFields(epoch);
    hide CivilFromDays, Div, Mod, EpochDay;
    SplitSeconds(Mod(epoch, 86400));
  }

  lemma ClockFields(epoch: int)
    ensures var tm, s := CivilFromEpoch(epoch), Mod(epoch, 86400);
            tm.hour == Div(s, 3600) && tm.min == Div(Mod(s, 3600), 60) && tm.sec == Mod(s, 60)
  {
  }

  lemma SplitSeconds(s: int)
    requires -86400 < s < 86400
    ensures Div(s, 3600) * 3600 + Div(Mod(s, 3600), 60) * 60 + Mod(s, 60) == s
    ensures 0 <= Div(s, 3600) <= 23 && 0 <= Div(Mod(s, 3600), 60) <= 59 && 0 <= Mod(s, 60) <= 59 <==> s >= 0
  {
  }

  /** An epoch is recovered from its broken-down time, unless it lies before 1970 and off midnight: then a day is lost. */
  lemma EpochRecovered(epoch: int)
    ensures FastTimegm(CivilFromEpoch(epoch)) == if Regular(epoch) then epoch else epoch - 86400
  {
    hide Days, CivilFromEpoch, DaysFromCivil;
    CivilDate(epoch);
    CivilClock(epoch);
    TimegmOfValid(CivilFromEpoch(epoch));
  }

  lemma TimegmOfValid(tm: Tm)
    requires Valid(DateOf(tm))
    ensures FastTimegm(tm) == Days(DateOf(tm)) * 86400 + ClockSeconds(tm)
  {
    hide DaysFromCivil, U32;
    Fits(tm.mon + 1);
    Fits(tm.mday);
  }

  /** The dates with a nonnegative epoch are those from 1970 on. */
  lemma EpochSign(tm: Tm)
    requires Valid(DateOf(tm)) && ValidClock(tm)
    ensures FastTimegm(tm) >= 0 <==> DateOf(tm).year >= 1970
    ensures FastTimegm(tm) / 86400 == Days(DateOf(tm)) && FastTimegm(tm) % 86400 == ClockSeconds(tm)
  {
    hide Days, DaysFromCivil;
    TimegmOfValid(tm);
    Unique(FastTimegm(tm), 86400, Days(DateOf(tm)), ClockSeconds(tm));
    DayZero();
    DaysIncrease(DateOf(tm), Date(1970, 1, 1));
  }

  lemma DayZero()
    ensures Days(Date(1970, 1, 1)) == 0
  {
    hide Days;
    DaysValue(Date(1970, 1, 1));
  }

  /** A valid date and time is recovered from its epoch exactly when that epoch is regular, so always from 1970 on. */
  lemma TmRecovered(tm: Tm)
    requires Valid(DateOf(tm)) && ValidClock(tm)
    ensures var back := CivilFromEpoch(FastTimegm(tm));
            && DateOf(back) == DateOf(tm)
            && (back.hour == tm.hour && back.min == tm.min && back.sec == tm.sec <==> Regular(FastTimegm(tm)))
    ensures DateOf(tm).year >= 1970 ==> Regular(FastTimegm(tm))
  {
    hide Days, DaysFromCivil, CivilFromEpoch, FastTimegm, CivilFromDays, Valid, ValidClock, ClockSeconds;
    var epoch := FastTimegm(tm);
    EpochSign(tm);
    CivilDate(epoch);
    CivilClock(epoch);
    CivilOfDays(DateOf(tm));
    SameClock(CivilFromEpoch(epoch), tm);
  }

  lemma SameClock(a: Tm, b: Tm)
    requires ValidClock(b)
    ensures a.hour == b.hour && a.min == b.min && a.sec == b.sec <==> ValidClock(a) && ClockSeconds(a) == ClockSeconds(b)
  {
    if ValidClock(a) && ClockSeconds(a) == ClockSeconds(b) {
      Unique(ClockSeconds(a), 3600, a.hour, a.min * 60 + a.sec);
      Unique(ClockSeconds(a), 3600, b.hour, b.min * 60 + b.sec);
      Unique(a.min * 60 + a.sec, 60, a.min, a.sec);
      Unique(b.min * 60 + b.sec, 60, b.min, b.sec);
    }
  }

  /** The day of the week is the right one exactly on regular epochs; 1970 began on a Thursday. */
  lemma WeekdayRight(epoch: int)
    ensures var tm := CivilFromEpoch(epoch);
            && 0 <= tm.wday <= 6
            && (tm.wday == (epoch / 86400 + 4) % 7 <==> Regular(epoch))
  {
    hide CivilFromDays, Div, Mod, EpochDay;
    Rounding(epoch, 86400);
    WeekdayField(epoch);
    Weekday(Div(epoch, 86400) + 4);
    if !Regular(epoch) {
      Weekday(epoch / 86400 + 4);
    }
  }

  lemma WeekdayField(epoch: int)
    ensures var w := Mod(Div(epoch, 86400) + 4, 7);
            CivilFromEpoch(epoch).wday == if w < 0 then w + 7 else w
  {
  }

  lemma Weekday(n: int)
    ensures (if Mod(n, 7) < 0 then Mod(n, 7) + 7 else Mod(n, 7)) == n % 7
  {
    Rounding(n, 7);
  }

  /** The day of the year counts from the first of January of the same year. */
  lemma DayOfYearRight(epoch: int)
    ensures var tm := CivilFromEpoch(epoch);
            tm.yday == epoch / 86400 - Days(Date(tm.year + 1900, 1, 1))
  {
    hide Days, YearStart, CivilFromDays, Mod, Div;
    CivilDate(epoch);
    var tm := CivilFromEpoch(epoch);
    var c := DateOf(tm);
    assert Valid(Date(c.year, 1, 1));
    DaysValue(c);
    DaysValue(Date(c.year, 1, 1));
    NextYearStart(c.year - 1);
    YearDays(c);
    DayOfYearField(epoch);
  }

  lemma DayOfYearField(epoch: int)
    ensures var tm := CivilFromEpoch(epoch);
            tm.yday == MONTH_DAYS[tm.mon] + tm.mday - 1 + (if tm.mon > 1 && IsLeap(tm.year + 1900) then 1 else 0)
  {
    hide CivilFromDays, Days, Mod, Div;
    CivilRight(EpochDay(epoch));
  }

  /** The table of the days before each month, against the formula for years that start in March. */
  lemma YearDays(c: Date)
    requires Valid(c)
    ensures MONTH_DAYS[c.month - 1] == if c.month > 2 then MonthStart(c.month - 3) + 59 else MonthStart(c.month + 9) - 306
  {
    assert MONTH_DAYS == [0, 31, 59, 90, 120, 151, 181, 212, 243, 273, 304, 334];
  }

  /** Seconds Since the Epoch, section 4.16 of POSIX.1-2017 XBD. */
  lemma SecondsSinceTheEpoch(epoch: int)
    requires epoch >= 0
    ensures var tm := CivilFromEpoch(epoch);
            && tm.year >= 70
            && epoch == tm.sec + tm.min * 60 + tm.hour * 3600 + tm.yday * 86400
                        + (tm.year - 70) * 31536000 + (tm.year - 69) / 4 * 86400
                        - (tm.year - 1) / 100 * 86400 + (tm.year + 299) / 400 * 86400
  {
    hide Days, YearStart, CivilFromEpoch;
    var tm := CivilFromEpoch(epoch);
    CivilDate(epoch);
    CivilClock(epoch);
    DayOfYearRight(epoch);
    NewYear(tm.year);
    DayZero();
    DaysIncrease(DateOf(tm), Date(1970, 1, 1));
  }

  lemma NewYear(year: int)
    ensures Days(Date(year + 1900, 1, 1))
            == (year - 70) * 365 + (year - 69) / 4 - (year - 1) / 100 + (year + 299) / 400
  {
    DaysValue(Date(year + 1900, 1, 1));
    assert (year + 1899) / 4 == (year - 69) / 4 + 492;
    assert (year + 1899) / 100 == (year - 1) / 100 + 19;
    assert (year + 1899) / 400 == (year + 299) / 400 + 4;
  }

  function DaysLater(c: Date, n: nat): Date {
    if n == 0 then c else NextDay(DaysLater(c, n - 1))
  }

  /** Moving an epoch by whole days moves the date by as many days, in either direction. */
  lemma {:induction false} DayShift(epoch: int, n: nat)
    ensures DateOf(CivilFromEpoch(epoch + 86400 * n)) == DaysLater(DateOf(CivilFromEpoch(epoch)), n)
  {
    hide CivilFromEpoch, Days, CivilFromDays, Valid, NextDay;
    CivilDate(epoch + 86400 * n);
    if n == 0 {
    } else {
      var m := n - 1;
      DayShift(epoch, m);
      CivilDate(epoch + 86400 * m);
      SuccessorDay(DateOf(CivilFromEpoch(epoch + 86400 * m)));
      assert (epoch + 86400 * n) / 86400 == (epoch + 86400 * m) / 86400 + 1;
      DaysIncrease(NextDay(DateOf(CivilFromEpoch(epoch + 86400 * m))), DateOf(CivilFromEpoch(epoch + 86400 * n)));
    }
  }

  /** One second before 1970: the clock goes below zero, and the way back loses a day. */
  lemma OneSecondBefore()
    ensures CivilFromEpoch(-1).sec == -1 && CivilFromEpoch(-1).hour == 0
    ensures FastTimegm(CivilFromEpoch(-1)) == -86401
  {
    hide CivilFromEpoch, FastTimegm, Div, Mod;
    MinusOne(86400);
    MinusOne(3600);
    MinusOne(60);
    Unique(-1, 86400, -1, 86399);
    EpochRecovered(-1);
    ClockFields(-1);
  }

  lemma MinusOne(b: int)
    requires b > 1
    ensures Div(-1, b) == 0 && Mod(-1, b) == -1
  {
    Unique(1, b, 0, 1);
  }
}
