/** Calendar arithmetic: differences of dates and shifts by up to a day. */
module Calendar {
  import opened Arith

  const TM_YEAR_ORIGIN := 1900

  function IsLeap(y: int): bool {
    y % 4 == 0 && (y % 100 != 0 || y % 400 == 0)
  }

  /** Days in the year before each month. */
  const MONTH_YDAY: seq<int> := [0, 31, 59, 90, 120, 151, 181, 212, 243, 273, 304, 334, 365]

  function MonthDays(year: int, mon: int): int
    requires 0 <= mon < 12
  {
    MONTH_YDAY[mon + 1] - MONTH_YDAY[mon] + if mon == 1 && IsLeap(year + TM_YEAR_ORIGIN) then 1 else 0
  }

  /** The day of the year, as tm2time fills it in. */
  function YearDay(year: int, mon: int, mday: int): int
    requires 0 <= mon < 12
  {
    MONTH_YDAY[mon] + mday - if mon < 2 || !IsLeap(year + TM_YEAR_ORIGIN) then 1 else 0
  }

  // ---- leap days ----

  function Rem(a: int, b: int): int
    requires b > 0
  {
    a - b * Quotient(a, b)
  }

  lemma {:induction false} QuotFloor(a: int)
    ensures Quotient(a, 100) - (if Rem(a, 100) < 0 then 1 else 0) == a / 100
  {
  }

  /** Leap days up to the end of year y. */
  function LeapDays(y: int): int {
    y / 4 - y / 100 + y / 400
  }

  lemma {:induction false} StepQuotient(y: int, n: int)
    requires n > 1
    ensures y / n - (y - 1) / n == if y % n == 0 then 1 else 0
  {
    var q, r := (y - 1) / n, (y - 1) % n;
    assert y - 1 == n * q + r;
    if r == n - 1 {
      assert y == n * (q + 1) by {
        assert n * (q + 1) == n * q + n;
      }
      ModUnique(y, n, q + 1, 0);
    } else {
      ModUnique(y, n, q, r + 1);
    }
  }

  /** A year adds a leap day just when it is a leap year. */
  lemma {:induction false} LeapStep(y: int)
    ensures LeapDays(y) - LeapDays(y - 1) == if IsLeap(y) then 1 else 0
  {
    StepQuotient(y, 4);
    StepQuotient(y, 100);
    StepQuotient(y, 400);
  }

  /** Leap years after year b up to year a, counted one by one. */
  ghost function CountLeaps(b: int, a: int): int
    requires b <= a
    decreases a - b
  {
    if a == b then 0 else CountLeaps(b, a - 1) + if IsLeap(a) then 1 else 0
  }

  /** The closed form agrees with counting. */
  lemma {:induction false} LeapsCounted(b: int, a: int)
    requires b <= a
    ensures LeapDays(a) - LeapDays(b) == CountLeaps(b, a)
    decreases a - b
  {
    if b < a {
      LeapsCounted(b, a - 1);
      LeapStep(a);
    }
  }

  // ---- times ----

  datatype Time = Time(year: int, yday: int, hour: int, min: int, sec: int)

  /** Days since the start of year 1. */
  ghost function DayNumber(year: int, yday: int): int {
    var y := year + (TM_YEAR_ORIGIN - 1);
    y * 365 + LeapDays(y) + yday
  }

  ghost function Seconds(t: Time): int {
    ((DayNumber(t.year, t.yday) * 24 + t.hour) * 60 + t.min) * 60 + t.sec
  }

  /** difftm: the difference in seconds, whatever the two years. */
  method DiffTm(a: Time, b: Time) returns (d: int)
    ensures d == Seconds(a) - Seconds(b)
  {
    var ay, yb := a.year + (TM_YEAR_ORIGIN - 1), b.year + (TM_YEAR_ORIGIN - 1);
    var ac := Quotient(ay, 100) - if Rem(ay, 100) < 0 then 1 else 0;
    var bc := Quotient(yb, 100) - if Rem(yb, 100) < 0 then 1 else 0;
    QuotFloor(ay);
    QuotFloor(yb);
    FourCenturies(ay);
    FourCenturies(yb);
    var leaps := (ay / 4 - yb / 4) - (ac - bc) + (ac / 4 - bc / 4);
    var days := (ay - yb) * 365 + (leaps + (a.yday - b.yday));
    d := ((days * 24 + (a.hour - b.hour)) * 60 + (a.min - b.min)) * 60 + (a.sec - b.sec);
  }

  lemma {:induction false} FourCenturies(y: int)
    ensures y / 100 / 4 == y / 400
  {
  }

  /** A year later. */
  lemma {:induction false} NextYear(year: int)
    ensures DayNumber(year + 1, 0) - DayNumber(year, 0) == 365 + if IsLeap(year + TM_YEAR_ORIGIN) then 1 else 0
  {
    LeapStep(year + TM_YEAR_ORIGIN);
  }

  ghost function DateDay(year: int, mon: int, mday: int): int
    requires 0 <= mon < 12
  {
    DayNumber(year, YearDay(year, mon, mday))
  }

  /**
   * The day by months counted from March, so that the leap day ends the year: no table, and no case for leap years.
   * Day 0 is the first of January of year 1.
   */
  ghost function CivilDay(y: int, mon: int, mday: int): int
    requires 0 <= mon < 12
  {
    var year := if mon < 2 then y - 1 else y;
    365 * year + LeapDays(year) + (153 * ((mon + 10) % 12) + 2) / 5 + mday - 307
  }

  /** The table and the leap years give that day. */
  lemma {:induction false} DayIsCivil(year: int, mon: int, mday: int)
    requires 0 <= mon < 12
    ensures DateDay(year, mon, mday) == CivilDay(year + TM_YEAR_ORIGIN, mon, mday)
  {
    LeapStep(year + TM_YEAR_ORIGIN);
  }

  /** Thirty days have September, April, June and November. */
  lemma {:induction false} MonthLengths(year: int, mon: int)
    requires 0 <= mon < 12
    ensures MonthDays(year, mon)
         == if mon == 1 then (if IsLeap(year + TM_YEAR_ORIGIN) then 29 else 28) else if mon in {3, 5, 8, 10} then 30 else 31
  {
    assert mon in {0, 1, 2, 3, 4, 5, 6, 7, 8, 9, 10, 11};
  }

  /** The first of the next month is the day after the last of this one. */
  lemma {:induction false} NextMonth(year: int, mon: int)
    requires 0 <= mon < 12
    ensures mon < 11 ==> DateDay(year, mon + 1, 1) == DateDay(year, mon, MonthDays(year, mon)) + 1
    ensures mon == 11 ==> DateDay(year + 1, 0, 1) == DateDay(year, 11, MonthDays(year, 11)) + 1
  {
    NextYear(year);
  }

  ghost predicate DateOk(year: int, mon: int, mday: int) {
    0 <= mon < 12 && 1 <= mday <= MonthDays(year, mon)
  }

  method DateBefore(year0: int, mon0: int, mday0: int) returns (year: int, mon: int, mday: int)
    requires DateOk(year0, mon0, mday0)
    ensures DateOk(year, mon, mday) && DateDay(year, mon, mday) == DateDay(year0, mon0, mday0) - 1
  {
    year, mon, mday := year0, mon0, mday0 - 1;
    if mday <= 0 {
      mon := mon - 1;
      if mon < 0 {
        year := year - 1;
        mon := 11;
      }
      NextMonth(year, mon);
      mday := MonthDays(year, mon);
    }
  }

  method DateAfter(year0: int, mon0: int, mday0: int) returns (year: int, mon: int, mday: int)
    requires DateOk(year0, mon0, mday0)
    ensures DateOk(year, mon, mday) && DateDay(year, mon, mday) == DateDay(year0, mon0, mday0) + 1
  {
    year, mon, mday := year0, mon0, mday0 + 1;
    if MonthDays(year, mon) < mday {
      NextMonth(year, mon);
      mon := mon + 1;
      if 11 < mon {
        year := year + 1;
        mon := 0;
      }
      mday := 1;
    }
  }

  // ---- shifting ----

  /** The day of the week some days later, if it is defined at all. */
  function WeekdayAfter(wday: int, days: int): int {
    if wday < 0 then wday else (wday + days) % 7
  }

  /** The seconds without a leap second, which is the sixtieth. */
  function NoLeap(sec: int): int {
    if sec == 60 then 59 else sec
  }

  class Tm {
    var tm_sec: int
    var tm_min: int
    var tm_hour: int
    var tm_mday: int
    var tm_mon: int
    var tm_year: int
    /** Negative if not defined. */
    var tm_wday: int

    constructor (year: int, mon: int, mday: int, hour: int, min: int, sec: int, wday: int)
      ensures tm_year == year && tm_mon == mon && tm_mday == mday && tm_hour == hour && tm_min == min && tm_sec == sec && tm_wday == wday
    {
      tm_year, tm_mon, tm_mday, tm_hour, tm_min, tm_sec, tm_wday := year, mon, mday, hour, min, sec, wday;
    }

    ghost predicate ValidDate()
      reads this
    {
      DateOk(tm_year, tm_mon, tm_mday) && tm_wday < 7
    }

    ghost predicate Valid()
      reads this
    {
      ValidDate() && 0 <= tm_hour < 24 && 0 <= tm_min < 60 && 0 <= tm_sec <= 60
    }

    ghost function Day(): int
      requires 0 <= tm_mon < 12
      reads this
    {
      DateDay(tm_year, tm_mon, tm_mday)
    }

    /** The moment, with the day of the year as tm2time computes it. */
    ghost function Moment(): Time
      requires 0 <= tm_mon < 12
      reads this
    {
      Time(tm_year, YearDay(tm_year, tm_mon, tm_mday), tm_hour, tm_min, tm_sec)
    }

    method DayBefore()
      requires ValidDate()
      modifies this`tm_wday, this`tm_mday, this`tm_mon, this`tm_year
      ensures ValidDate() && Day() == old(Day()) - 1
      ensures tm_wday == WeekdayAfter(old(tm_wday), -1)
    {
      if tm_wday >= 0 {
        tm_wday := tm_wday - 1;
        if tm_wday < 0 {
          tm_wday := 6;
        }
      }
      tm_year, tm_mon, tm_mday := DateBefore(tm_year, tm_mon, tm_mday);
    }

    method DayAfter()
      requires ValidDate()
      modifies this`tm_wday, this`tm_mday, this`tm_mon, this`tm_year
      ensures ValidDate() && Day() == old(Day()) + 1
      ensures tm_wday == WeekdayAfter(old(tm_wday), 1)
    {
      if tm_wday >= 0 {
        tm_wday := tm_wday + 1;
        if tm_wday == 7 {
          tm_wday := 0;
        }
      }
      tm_year, tm_mon, tm_mday := DateAfter(tm_year, tm_mon, tm_mday);
    }

    /** Carries seconds into minutes, hours and days. */
    method Shift(sec0: int) returns (sec: int)
      requires Valid() && -86400 <= sec0 <= 86400 + 59
      modifies this`tm_hour, this`tm_min, this`tm_wday, this`tm_mday, this`tm_mon, this`tm_year
      ensures ValidDate() && 0 <= tm_hour < 24 && 0 <= tm_min
      ensures 86400 * Day() + Clock(tm_hour, tm_min % 60) + sec % 60 == old(86400 * Day() + Clock(tm_hour, tm_min)) + sec0
      ensures sec % 60 == sec0 % 60 && tm_wday == WeekdayAfter(old(tm_wday), Day() - old(Day()))
    {
      sec := sec0;
      var borrow, carry := false, false;
      if sec < 0 {
        tm_hour, tm_min, borrow := Backward(tm_hour, tm_min, sec);
        if borrow {
          DayBefore();
        }
        sec := sec + 24 * 60 * 60;
      } else {
        tm_hour, tm_min, carry := Forward(tm_hour, tm_min, sec);
        if carry {
          DayAfter();
        }
      }
    }

    /** adjzone: moves the time by up to a day either way, exactly. */
    method AdjZone(seconds: int)
      requires Valid() && -86400 <= seconds <= 86400
      modifies this
      ensures Valid() && Seconds(Moment()) == old(Seconds(Moment())) + seconds
      ensures tm_wday == WeekdayAfter(old(tm_wday), Day() - old(Day()))
      ensures tm_sec == (seconds + NoLeap(old(tm_sec))) % 60 + old(tm_sec) - NoLeap(old(tm_sec))
      ensures seconds % 60 == 0 ==> tm_sec == old(tm_sec)
    {
      WholeMinutes(seconds, tm_sec);
      var leap_second := if tm_sec == 60 then 1 else 0;
      var sec := seconds + (tm_sec - leap_second);
      ghost var goal := 86400 * Day() + Clock(tm_hour, tm_min) + sec;
      sec := Shift(sec);
      assert 86400 * Day() + Clock(tm_hour, tm_min % 60) + sec % 60 == goal;
      tm_min := tm_min % 60;
      tm_sec := sec % 60 + leap_second;
      SecondsOf(tm_year, tm_mon, tm_mday, tm_hour, tm_min, tm_sec);
      SecondsOf(old(tm_year), old(tm_mon), old(tm_mday), old(tm_hour), old(tm_min), old(tm_sec));
    }
  }

  lemma {:induction false} WholeMinutes(seconds: int, sec: int)
    requires 0 <= sec <= 60
    ensures seconds % 60 == 0 ==> (seconds + NoLeap(sec)) % 60 == NoLeap(sec)
  {
    if seconds % 60 == 0 {
      ModUnique(seconds + NoLeap(sec), 60, seconds / 60, NoLeap(sec));
    }
  }

  lemma {:induction false} SecondsOf(year: int, mon: int, mday: int, hour: int, min: int, sec: int)
    requires 0 <= mon < 12
    ensures Seconds(Time(year, YearDay(year, mon, mday), hour, min, sec)) == 86400 * DateDay(year, mon, mday) + Clock(hour, min) + sec
  {
  }

  function Clock(hour: int, min: int): int {
    (hour * 60 + min) * 60
  }

  /** Minutes and hours when the seconds have gone below zero; borrow says that a day was passed. */
  method Backward(hour0: int, min0: int, sec: int) returns (hour: int, min: int, borrow: bool)
    requires 0 <= hour0 < 24 && 0 <= min0 < 60 && -86400 <= sec < 0
    ensures 0 <= hour < 24 && 0 <= min
    ensures Clock(hour, min % 60) + (sec + 86400) % 60 == Clock(hour0, min0) + sec + if borrow then 86400 else 0
  {
    hour, borrow := hour0, false;
    min := min0 - (59 - sec) / 60;
    BackMinutes(sec);
    if min < 0 {
      hour := hour0 - (59 - min) / 60;
      BackHours(min);
      if hour < 0 {
        hour := hour + 24;
        borrow := true;
      }
      min := min + 24 * 60;
    }
  }

  lemma {:induction false} BackMinutes(sec: int)
    requires -86400 <= sec < 0
    ensures 60 * ((59 - sec) / 60) == (sec + 86400) % 60 - sec && 1 <= (59 - sec) / 60 <= 1440
  {
  }

  lemma {:induction false} BackHours(min: int)
    requires -1440 <= min < 0
    ensures 60 * ((59 - min) / 60) == (min + 1440) % 60 - min && 1 <= (59 - min) / 60 <= 24
  {
  }

  /** Minutes and hours when the seconds have gone up; carry says that a day was passed. */
  method Forward(hour0: int, min0: int, sec: int) returns (hour: int, min: int, carry: bool)
    requires 0 <= hour0 < 24 && 0 <= min0 < 60 && 0 <= sec <= 86400 + 59
    ensures 0 <= hour < 24 && 0 <= min
    ensures Clock(hour, min % 60) + sec % 60 == Clock(hour0, min0) + sec - if carry then 86400 else 0
  {
    hour, carry := hour0, false;
    min := min0 + sec / 60;
    if 60 <= min {
      hour := hour0 + min / 60;
      if 24 <= hour {
        hour := hour - 24;
        carry := true;
      }
    }
  }
}
