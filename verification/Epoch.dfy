/** Calendar time to seconds since the Epoch, against section 4.16 of POSIX.1-2017. */
module Epoch {

  import opened Basics

  const FALLBACK := 1704067200

  predicate IsLeapYear(year: nat)
  {
    (year % 4 == 0 && year % 100 != 0) || year % 400 == 0
  }

  function DaysBeforeMonth(month: nat): nat
    requires 1 <= month <= 12
  {
    [0, 0, 31, 59, 90, 120, 151, 181, 212, 243, 273, 304, 334][month]
  }

  /** The days of the years from 1970 up to `year`, counted one by one. */
  function DaysOfYears(year: nat): nat
    requires year >= 1970
  {
    if year == 1970 then 0 else DaysOfYears(year - 1) + (if IsLeapYear(year - 1) then 366 else 365)
  }

  /** The zero-based day of the year; a day of 0 is the day before the month begins. */
  function DayOfYear(year: nat, month: nat, day: nat): int
    requires 1 <= month <= 12
  {
    DaysBeforeMonth(month) + (if month > 2 && IsLeapYear(year) then 1 else 0) + day - 1
  }

  /** The formula of the standard, on the year since 1900, the zero-based day of the year and the time. */
  function Posix(tmYear: nat, tmYday: int, hour: nat, min: nat, sec: nat): int
    requires tmYear >= 70
  {
    sec + min * 60 + hour * 3600 + tmYday * 86400 + (tmYear - 70) * 31536000
    + (tmYear - 69) / 4 * 86400 - (tmYear - 1) / 100 * 86400 + (tmYear + 299) / 400 * 86400
  }

  function LeapsBefore(year: nat): int
    requires year >= 1970
  {
    (year - 1969) / 4 - (year - 1901) / 100 + (year - 1601) / 400
  }

  /** Counting year by year gives the closed form. */
  lemma {:induction false} DaysClosedForm(year: nat)
    requires year >= 1970
    ensures DaysOfYears(year) == (year - 1970) * 365 + LeapsBefore(year)
  {
    if year > 1970 {
      DaysClosedForm(year - 1);
      LeapStep(year - 1);
    }
  }

  lemma LeapStep(year: nat)
    requires year >= 1970
    ensures LeapsBefore(year + 1) == LeapsBefore(year) + if IsLeapYear(year) then 1 else 0
  {
    FoursStep(year);
    CenturiesStep(year);
    FourCenturiesStep(year);
    Divisible(year);
  }

  lemma Divisible(year: nat)
    ensures year % 400 == 0 ==> year % 100 == 0
    ensures year % 100 == 0 ==> year % 4 == 0
  {
    if year % 400 == 0 {
      var k := 4 * (year / 400);
      assert year == 100 * k;
    }
    if year % 100 == 0 {
      var k := 25 * (year / 100);
      assert year == 4 * k;
    }
  }

  lemma FoursStep(year: nat)
    requires year >= 1970
    ensures (year - 1968) / 4 == (year - 1969) / 4 + if year % 4 == 0 then 1 else 0
  {
  }

  lemma CenturiesStep(year: nat)
    requires year >= 1970
    ensures (year - 1900) / 100 == (year - 1901) / 100 + if year % 100 == 0 then 1 else 0
  {
  }

  lemma FourCenturiesStep(year: nat)
    requires year >= 1970
    ensures (year - 1600) / 400 == (year - 1601) / 400 + if year % 400 == 0 then 1 else 0
  {
  }

  // ----- the kernel's clock, in 64-bit arithmetic that wraps around

  function Wrap(x: int): nat
  {
    x % TWO_64
  }

  lemma WrapAdd(a: int, b: int)
    ensures Wrap(Wrap(a) + b) == Wrap(a + b)
  {
  }

  lemma WrapMul(a: int, k: nat)
    ensures Wrap(Wrap(a) * k) == Wrap(a * k)
  {
    var q, r := a / TWO_64, a % TWO_64;
    assert a == q * TWO_64 + r;
    assert a * k == (q * k) * TWO_64 + r * k by { assert q * TWO_64 * k == (q * k) * TWO_64; }
    WrapMultiple(r * k, q * k);
  }

  lemma WrapMultiple(x: int, q: int)
    ensures Wrap(q * TWO_64 + x) == Wrap(x)
  {
  }

  /** `date_to_epoch`, on any six numbers. */
  method DateToEpoch(year: nat, month: nat, day: nat, hour: nat, min: nat, sec: nat) returns (t: nat)
    ensures month < 1 || month > 12 || year < 1970 ==> t == 1704067200
    ensures 1 <= month <= 12 && year >= 1970 ==>
              t == Posix(year - 1900, DayOfYear(year, month, day), hour, min, sec) % 0x1_0000_0000_0000_0000
  {
    if month < 1 || month > 12 || year < 1970 {
      return FALLBACK;
    }
    hide Wrap, Posix, DaysOfYears, IsLeapYear;
    var days := DaysUntil(year);
    ghost var exact: int := DaysOfYears(year);
    WrapAdd(exact, DaysBeforeMonth(month));
    days := Wrap(days + DaysBeforeMonth(month));
    exact := exact + DaysBeforeMonth(month);
    if month > 2 && IsLeapYear(year) {
      WrapAdd(exact, 1);
      days := Wrap(days + 1);
      exact := exact + 1;
    }
    WrapAdd(day - 1, exact);
    WrapAdd(exact, Wrap(day - 1));
    days := Wrap(days + Wrap(day - 1));
    exact := exact + day - 1;
    PosixByDays(year, DayOfYear(year, month, day), hour, min, sec);
    t := Total(days, exact, hour, min, sec);
    WrapIs(Posix(year - 1900, DayOfYear(year, month, day), hour, min, sec));
  }

  lemma WrapIs(x: int)
    ensures Wrap(x) == x % 0x1_0000_0000_0000_0000
  {
  }

  method DaysUntil(year: nat) returns (days: nat)
    requires year >= 1970
    ensures days == Wrap(DaysOfYears(year))
  {
    hide Wrap, IsLeapYear;
    days := 0;
    assert 0 == Wrap(0) by { WrapZero(); }
    for y := 1970 to year
      invariant days == Wrap(DaysOfYears(y))
    {
      WrapAdd(DaysOfYears(y), if IsLeapYear(y) then 366 else 365);
      days := Wrap(days + if IsLeapYear(y) then 366 else 365);
    }
  }

  lemma WrapZero()
    ensures Wrap(0) == 0
  {
  }

  lemma PosixByDays(year: nat, yday: int, hour: nat, min: nat, sec: nat)
    requires year >= 1970
    ensures Posix(year - 1900, yday, hour, min, sec)
            == (DaysOfYears(year) + yday) * 86400 + hour * 3600 + min * 60 + sec
  {
    DaysClosedForm(year);
  }

  method Total(days: nat, ghost exact: int, hour: nat, min: nat, sec: nat) returns (t: nat)
    requires days == Wrap(exact)
    ensures t == Wrap(exact * 86400 + hour * 3600 + min * 60 + sec)
  {
    hide Wrap;
    WrapMul(exact, 86400);
    t := Wrap(days * 86400);
    WrapAdd(hour * 3600, exact * 86400);
    WrapAdd(exact * 86400, Wrap(hour * 3600));
    t := Wrap(t + Wrap(hour * 3600));
    WrapAdd(min * 60, exact * 86400 + hour * 3600);
    WrapAdd(exact * 86400 + hour * 3600, Wrap(min * 60));
    t := Wrap(t + Wrap(min * 60));
    WrapAdd(exact * 86400 + hour * 3600 + min * 60, sec);
    t := Wrap(t + sec);
  }

  // ----- order

  datatype Time = Time(year: nat, month: nat, day: nat, hour: nat, min: nat, sec: nat)

  function DaysInMonth(year: nat, month: nat): nat
    requires 1 <= month <= 12
  {
    if month == 2 then (if IsLeapYear(year) then 29 else 28)
    else if month == 4 || month == 6 || month == 9 || month == 11 then 30
    else 31
  }

  /** A date that exists in the calendar, with a time of day. */
  predicate IsTime(t: Time)
  {
    && t.year >= 1970 && 1 <= t.month <= 12 && 1 <= t.day <= DaysInMonth(t.year, t.month)
    && t.hour < 24 && t.min < 60 && t.sec < 60
  }

  predicate Before(a: Time, b: Time)
  {
    a.year < b.year || (a.year == b.year && (
      a.month < b.month || (a.month == b.month && (
        a.day < b.day || (a.day == b.day && (
          a.hour < b.hour || (a.hour == b.hour && (
            a.min < b.min || (a.min == b.min && a.sec < b.sec)))))))))
  }

  function Seconds(t: Time): int
    requires IsTime(t)
  {
    Posix(t.year - 1900, DayOfYear(t.year, t.month, t.day), t.hour, t.min, t.sec)
  }

  function Day(t: Time): int
    requires IsTime(t)
  {
    DaysOfYears(t.year) + DayOfYear(t.year, t.month, t.day)
  }

  lemma SecondsOfDay(t: Time)
    requires IsTime(t)
    ensures Seconds(t) == Day(t) * 86400 + t.hour * 3600 + t.min * 60 + t.sec
  {
    PosixByDays(t.year, DayOfYear(t.year, t.month, t.day), t.hour, t.min, t.sec);
  }

  lemma {:induction false} DaysBounded(year: nat)
    requires year >= 1970
    ensures DaysOfYears(year) <= (year - 1970) * 366
  {
    hide IsLeapYear;
    if year > 1970 { DaysBounded(year - 1); }
  }

  /** The calendar day that follows. */
  function NextDay(t: Time): Time
    requires IsTime(t)
  {
    if t.day < DaysInMonth(t.year, t.month) then t.(day := t.day + 1)
    else if t.month < 12 then t.(month := t.month + 1, day := 1)
    else t.(year := t.year + 1, month := 1, day := 1)
  }

  /** A day later is 86400 seconds more, through all months and leap years. */
  lemma DaysAreDays(t: Time)
    requires IsTime(t)
    ensures IsTime(NextDay(t))
    ensures Seconds(NextDay(t)) == Seconds(t) + 86400
  {
    NextDayOfYear(t);
    SecondsOfDay(t);
    SecondsOfDay(NextDay(t));
    hide Seconds, Day, IsTime, DaysInMonth;
  }

  lemma NextDayOfYear(t: Time)
    requires IsTime(t)
    ensures IsTime(NextDay(t)) && Day(NextDay(t)) == Day(t) + 1
  {
  }

  /** The count starts with 1970, and the fallback is the first second of 2024. */
  lemma KnownSeconds(year: nat)
    requires year == 1970 || year == 2024
    ensures IsTime(Time(year, 1, 1, 0, 0, 0))
    ensures Seconds(Time(year, 1, 1, 0, 0, 0)) == if year == 1970 then 0 else FALLBACK
  {
    FirstOfYear(year);
    hide Seconds, IsTime, DaysInMonth;
  }

  lemma FirstOfYear(year: nat)
    requires year >= 1970
    ensures IsTime(Time(year, 1, 1, 0, 0, 0)) && Seconds(Time(year, 1, 1, 0, 0, 0)) == Posix(year - 1900, 0, 0, 0, 0)
  {
    hide Posix;
  }

  /** For half a million million years nothing wraps around. */
  lemma NoWrapYet(t: Time)
    requires IsTime(t) && t.year <= 500_000_000_000
    ensures Wrap(Seconds(t)) == Seconds(t)
  {
    SecondsOfDay(t);
    DaysBounded(t.year);
    DayWithinYear(t);
    hide Seconds, DaysOfYears, DayOfYear, IsLeapYear, DaysInMonth, Wrap;
    assert 0 <= Day(t) <= 500_000_000_000 * 366;
    hide Day;
    WrapSmall(Seconds(t));
  }

  lemma WrapSmall(x: int)
    requires 0 <= x < TWO_64
    ensures Wrap(x) == x
  {
  }

  lemma {:induction false} YearsGrow(year: nat, later: nat)
    requires 1970 <= year < later
    ensures DaysOfYears(year) + (if IsLeapYear(year) then 366 else 365) <= DaysOfYears(later)
    decreases later
  {
    hide IsLeapYear;
    if year + 1 < later { YearsGrow(year, later - 1); }
  }

  lemma DayWithinYear(t: Time)
    requires IsTime(t)
    ensures DayOfYear(t.year, t.month, t.day) < if IsLeapYear(t.year) then 366 else 365
    ensures t.month < 12 ==> DayOfYear(t.year, t.month, t.day) < DayOfYear(t.year, t.month + 1, 1)
  {
  }

  lemma {:induction false} MonthsGrow(year: nat, month: nat, later: nat)
    requires 1 <= month <= later <= 12
    ensures DayOfYear(year, month, 1) <= DayOfYear(year, later, 1)
    decreases later
  {
  }

  lemma DaysGrow(a: Time, b: Time)
    requires IsTime(a) && IsTime(b)
    requires a.year < b.year || (a.year == b.year && (a.month < b.month || (a.month == b.month && a.day < b.day)))
    ensures Day(a) < Day(b)
  {
    if a.year < b.year {
      YearsGrow(a.year, b.year);
      DayWithinYear(a);
    } else if a.month < b.month {
      DayWithinYear(a);
      MonthsGrow(a.year, a.month + 1, b.month);
    }
  }

  /** Seconds order times exactly as the calendar and the clock do, so different times never collide. */
  lemma SecondsInOrder(a: Time, b: Time)
    requires IsTime(a) && IsTime(b)
    ensures Seconds(a) < Seconds(b) <==> Before(a, b)
    ensures Seconds(a) == Seconds(b) <==> a == b
  {
    SecondsOfDay(a);
    SecondsOfDay(b);
    if Before(a, b) { LaterIsMore(a, b); }
    if Before(b, a) { LaterIsMore(b, a); }
    assert Before(a, b) || Before(b, a) || a == b;
  }

  lemma LaterIsMore(a: Time, b: Time)
    requires IsTime(a) && IsTime(b) && Before(a, b)
    ensures Seconds(a) < Seconds(b)
  {
    SecondsOfDay(a);
    SecondsOfDay(b);
    if a.year != b.year || a.month != b.month || a.day != b.day {
      DaysGrow(a, b);
    }
  }
}
