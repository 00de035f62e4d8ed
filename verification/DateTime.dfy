/** The UTC date-time object, with its cached broken-down time. */
module DateTime {
  import opened Calendar
  import opened EpochTime

  const GIGA: int := 1_000_000_000
  const NO_EPOCH: int := -1

  /** The field a setter replaces. */
  datatype Field = Year | Mon | Day | Hour | Min | Sec

  function Replaced(tm: Tm, f: Field, v: int): Tm {
    match f
    case Year => tm.(year := v - 1900)
    case Mon => tm.(mon := v - 1)
    case Day => tm.(mday := v)
    case Hour => tm.(hour := v)
    case Min => tm.(min := v)
    case Sec => tm.(sec := v)
  }

  /** When the date exists, the epoch is its day number in seconds, plus the time of day; a clock in range is then read back. */
  ghost predicate StandsFor(epoch: int, date: Date, hour: int, min: int, sec: int) {
    Valid(date) ==>
      && epoch == Days(date) * 86400 + hour * 3600 + min * 60 + sec
      && (0 <= hour <= 23 && 0 <= min <= 59 && 0 <= sec <= 59 ==>
            CivilFromDays(epoch / 86400) == date && epoch % 86400 == hour * 3600 + min * 60 + sec)
  }

  lemma TmStandsFor(tm: Tm)
    ensures StandsFor(FastTimegm(tm), DateOf(tm), tm.hour, tm.min, tm.sec)
  {
    hide CivilFromDays, Days, FastTimegm, Valid;
    if Valid(DateOf(tm)) {
      TimegmOfValid(tm);
      if ValidClock(tm) {
        Unique(FastTimegm(tm), 86400, Days(DateOf(tm)), ClockSeconds(tm));
        CivilOfDays(DateOf(tm));
      }
    }
  }

  class DateTime {
    var sec: int
    var nsec: int
    var tm: Tm
    var cachedEpoch: int

    /** The cache, when set, belongs to its epoch. */
    ghost predicate Coherent()
      reads this
    {
      cachedEpoch != NO_EPOCH ==> tm == CivilFromEpoch(cachedEpoch)
    }

    /** The epoch that is also the mark of an empty cache, while the cache is empty. */
    ghost predicate Collides()
      reads this
    {
      sec == NO_EPOCH && cachedEpoch == NO_EPOCH
    }

    /** The broken-down time the getters and setters go by. */
    ghost function Current(): Tm
      reads this
    {
      if Collides() then tm else CivilFromEpoch(sec)
    }

    function Epoch19(): int
      reads this
    {
      sec * GIGA + nsec
    }

    constructor (epoch10: int)
      ensures Coherent() && sec == epoch10 && nsec == 0
      ensures cachedEpoch == NO_EPOCH && tm == Tm(0, 0, 0, 0, 0, 0, 0, 0)
    {
      sec, nsec := epoch10, 0;
      tm := Tm(0, 0, 0, 0, 0, 0, 0, 0);
      cachedEpoch := NO_EPOCH;
    }

    /** After it the broken-down time is that of the epoch, unless the epoch collides with the mark. */
    method UpdateTM()
      requires Coherent()
      modifies this`tm, this`cachedEpoch
      ensures Coherent() && cachedEpoch == sec
      ensures tm == old(Current())
    {
      hide CivilFromEpoch;
      if sec == cachedEpoch {
        return;
      }
      tm := CivilFromEpoch(sec);
      cachedEpoch := sec;
    }

    method UpdateEpoch()
      modifies this`sec, this`cachedEpoch
      ensures Coherent() && sec == FastTimegm(tm) && cachedEpoch == NO_EPOCH
      ensures StandsFor(sec, DateOf(tm), tm.hour, tm.min, tm.sec)
    {
      TmStandsFor(tm);
      sec := FastTimegm(tm);
      cachedEpoch := NO_EPOCH;
    }

    /** Hour, minute and second in decimal; they are those of the day on regular epochs. */
    method GetHMS() returns (r: int)
      requires Coherent()
      modifies this`tm, this`cachedEpoch
      ensures Coherent() && cachedEpoch == sec
      ensures var t := old(Current()); r == t.hour * 10000 + t.min * 100 + t.sec
      ensures !old(Collides()) && Regular(sec) ==>
                && 0 <= r && r / 10000 == sec % 86400 / 3600
                && r / 100 % 100 == sec % 3600 / 60 && r % 100 == sec % 60
    {
      UpdateTM();
      r := tm.hour * 10000 + tm.min * 100 + tm.sec;
      if !old(Collides()) && Regular(sec) {
        CivilClock(sec);
        Digits(tm.hour, tm.min, tm.sec);
        ClockDigits(tm, sec % 86400);
        SecondsOfDay(sec);
      }
    }

    /** Year, month and day in decimal; they are those of the epoch's day, before 1970 as well. */
    method GetYmd() returns (r: int)
      requires Coherent()
      modifies this`tm, this`cachedEpoch
      ensures Coherent() && cachedEpoch == sec
      ensures var t := old(Current()); r == (t.year + 1900) * 10000 + (t.mon + 1) * 100 + t.mday
      ensures !old(Collides()) ==>
                var c := CivilFromDays(sec / 86400);
                r == c.year * 10000 + c.month * 100 + c.day && (c.year >= 0 ==> Date(r / 10000, r / 100 % 100, r % 100) == c)
    {
      hide CivilFromDays, CivilFromEpoch;
      UpdateTM();
      r := (tm.year + 1900) * 10000 + (tm.mon + 1) * 100 + tm.mday;
      if !old(Collides()) {
        CivilDate(sec);
        if tm.year + 1900 >= 0 {
          Digits(tm.year + 1900, tm.mon + 1, tm.mday);
        }
      }
    }

    /** What the six setters do to the epoch; the nanoseconds stay. */
    twostate predicate Put(f: Field, v: int)
      reads this
    {
      && Coherent() && nsec == old(nsec) && cachedEpoch == NO_EPOCH
      && sec == FastTimegm(Replaced(old(Current()), f, v))
    }

    method SetYear(year: int)
      requires Coherent()
      modifies this
      ensures Put(Year, year)
      ensures var t := old(Current()); StandsFor(sec, Date(year, t.mon + 1, t.mday), t.hour, t.min, t.sec)
    {
      hide FastTimegm, CivilFromEpoch, StandsFor;
      UpdateTM();
      tm := tm.(year := year - 1900);
      UpdateEpoch();
    }

    method SetMon(mon: int)
      requires Coherent()
      modifies this
      ensures Put(Mon, mon)
      ensures var t := old(Current()); StandsFor(sec, Date(t.year + 1900, mon, t.mday), t.hour, t.min, t.sec)
    {
      hide FastTimegm, CivilFromEpoch, StandsFor;
      UpdateTM();
      tm := tm.(mon := mon - 1);
      UpdateEpoch();
    }

    method SetDay(day: int)
      requires Coherent()
      modifies this
      ensures Put(Day, day)
      ensures var t := old(Current()); StandsFor(sec, Date(t.year + 1900, t.mon + 1, day), t.hour, t.min, t.sec)
    {
      hide FastTimegm, CivilFromEpoch, StandsFor;
      UpdateTM();
      tm := tm.(mday := day);
      UpdateEpoch();
    }

    method SetHour(hour: int)
      requires Coherent()
      modifies this
      ensures Put(Hour, hour)
      ensures var t := old(Current()); StandsFor(sec, Date(t.year + 1900, t.mon + 1, t.mday), hour, t.min, t.sec)
    {
      hide FastTimegm, CivilFromEpoch, StandsFor;
      UpdateTM();
      tm := tm.(hour := hour);
      UpdateEpoch();
    }

    method SetMin(min: int)
      requires Coherent()
      modifies this
      ensures Put(Min, min)
      ensures var t := old(Current()); StandsFor(sec, Date(t.year + 1900, t.mon + 1, t.mday), t.hour, min, t.sec)
    {
      hide FastTimegm, CivilFromEpoch, StandsFor;
      UpdateTM();
      tm := tm.(min := min);
      UpdateEpoch();
    }

    method SetSec(second: int)
      requires Coherent()
      modifies this
      ensures Put(Sec, second)
      ensures var t := old(Current()); StandsFor(sec, Date(t.year + 1900, t.mon + 1, t.mday), t.hour, t.min, second)
    {
      hide FastTimegm, CivilFromEpoch, StandsFor;
      UpdateTM();
      tm := tm.(sec := second);
      UpdateEpoch();
    }

    method SetNano(nano: int)
      requires Coherent()
      modifies this`nsec
      ensures Coherent() && nsec == nano
    {
      nsec := nano;
    }

    /** The date moves by whole days, across months and years, and the time of day stays. */
    method OffsetDay(day: int)
      modifies this`sec, this`cachedEpoch
      ensures Coherent() && sec == old(sec) + 86400 * day
      ensures day >= 0 ==> CivilFromDays(sec / 86400) == DaysLater(CivilFromDays(old(sec) / 86400), day)
      ensures day < 0 ==> DaysLater(CivilFromDays(sec / 86400), -day) == CivilFromDays(old(sec) / 86400)
      ensures sec % 86400 == old(sec) % 86400
    {
      sec := sec + day * 86400;
      cachedEpoch := NO_EPOCH;
      DaysMoved(old(sec), day);
    }

    method OffsetHour(hour: int)
      modifies this`sec, this`cachedEpoch
      ensures Coherent() && sec * 1_000_000_000 + nsec == old(sec * 1_000_000_000 + nsec) + hour * 3_600_000_000_000
    {
      sec := sec + hour * 3600;
      cachedEpoch := NO_EPOCH;
    }

    method OffsetMin(min: int)
      modifies this`sec, this`cachedEpoch
      ensures Coherent() && sec * 1_000_000_000 + nsec == old(sec * 1_000_000_000 + nsec) + min * 60_000_000_000
    {
      sec := sec + min * 60;
      cachedEpoch := NO_EPOCH;
    }

    method OffsetSec(seconds: int)
      modifies this`sec, this`cachedEpoch
      ensures Coherent() && sec * 1_000_000_000 + nsec == old(sec * 1_000_000_000 + nsec) + seconds * 1_000_000_000
    {
      sec := sec + seconds;
      cachedEpoch := NO_EPOCH;
    }

    /** The sum is exact; its nanoseconds take the sign of the whole time. */
    method OffsetNano(nano: int)
      modifies this
      ensures Coherent() && sec * 1_000_000_000 + nsec == old(sec * 1_000_000_000 + nsec) + nano
      ensures -1_000_000_000 < nsec < 1_000_000_000
      ensures (sec > 0 ==> nsec >= 0) && (sec < 0 ==> nsec <= 0)
    {
      var time := Epoch19() + nano;
      sec := Div(time, GIGA);
      nsec := Mod(time, GIGA);
      cachedEpoch := NO_EPOCH;
    }
  }

  /** Three numbers packed in decimal, the last two below a hundred. */
  lemma Digits(a: int, b: int, c: int)
    requires a >= 0 && 0 <= b < 100 && 0 <= c < 100
    ensures var r := a * 10000 + b * 100 + c; r / 10000 == a && r / 100 % 100 == b && r % 100 == c
  {
    var r := a * 10000 + b * 100 + c;
    Unique(r, 10000, a, b * 100 + c);
    Unique(r, 100, a * 100 + b, c);
    Unique(a * 100 + b, 100, a, b);
  }

  lemma ClockDigits(tm: Tm, s: int)
    requires ValidClock(tm) && ClockSeconds(tm) == s
    ensures tm.hour == s / 3600 && tm.min == s % 3600 / 60 && tm.sec == s % 60
  {
  }

  lemma SecondsOfDay(sec: int)
    ensures sec % 86400 % 3600 == sec % 3600 && sec % 86400 % 60 == sec % 60
  {
    var q, r := sec / 86400, sec % 86400;
    Unique(sec, 3600, 24 * q + r / 3600, r % 3600);
    Unique(sec, 60, 1440 * q + r / 60, r % 60);
  }

  lemma DaysMoved(sec: int, day: int)
    ensures var moved := sec + day * 86400;
            && (day >= 0 ==> CivilFromDays(moved / 86400) == DaysLater(CivilFromDays(sec / 86400), day))
            && (day < 0 ==> DaysLater(CivilFromDays(moved / 86400), -day) == CivilFromDays(sec / 86400))
            && moved % 86400 == sec % 86400
  {
    hide CivilFromDays, CivilFromEpoch;
    var moved := sec + day * 86400;
    CivilDate(moved);
    CivilDate(sec);
    Unique(moved, 86400, sec / 86400 + day, sec % 86400);
    if day >= 0 {
      DayShift(sec, day);
    } else {
      DayShift(moved, -day);
    }
  }

  /**
   * The date that a setter aims at, when date and time exist, is what the epoch then stands for; the
   * time of day is so exactly when the new epoch is regular, and always from 1970 on.
   */
  lemma SetterReadsBack(epoch: int, f: Field, v: int)
    requires var aim := Replaced(CivilFromEpoch(epoch), f, v); Valid(DateOf(aim)) && ValidClock(aim)
    ensures var aim := Replaced(CivilFromEpoch(epoch), f, v);
            var back := CivilFromEpoch(FastTimegm(aim));
            && DateOf(back) == DateOf(aim)
            && (back.hour == aim.hour && back.min == aim.min && back.sec == aim.sec <==> Regular(FastTimegm(aim)))
            && (aim.year >= 70 ==> Regular(FastTimegm(aim)))
  {
    hide CivilFromEpoch, FastTimegm, Valid, ValidClock, Regular;
    TmRecovered(Replaced(CivilFromEpoch(epoch), f, v));
  }

  /** The mark of the empty cache is an epoch too: a fresh object at that epoch answers from an empty record. */
  method StaleCache() returns (r: int)
    ensures r == 19000100 && CivilFromDays(-1) == Date(1969, 12, 31)
  {
    hide CivilFromDays, CivilFromEpoch, Days;
    var d := new DateTime(-1);
    r := d.GetYmd();
    SuccessorDay(Date(1969, 12, 31));
    DayZero();
    CivilOfDays(Date(1969, 12, 31));
  }
}
