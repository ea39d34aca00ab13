/** Unix timestamps: the closed formula of rtc_get_timestamp in kernel/src/core/drivers/rtc/rtc.c, and the loops of
    get_rtc_timestamp in kernel/src/fs/ext2.c. */
module Calendar {

  const SPAN: nat := 0x1_0000_0000    // both compute in 32 bits

  datatype Time = Time(year: nat, month: nat, day: nat, hour: nat, minute: nat, second: nat)

  predicate Leap(year: nat) {
    (year % 4 == 0 && year % 100 != 0) || year % 400 == 0
  }

  /** days_in_month */
  function MonthLength(month: nat): nat
    requires 1 <= month <= 12
  {
    [31, 28, 31, 30, 31, 30, 31, 31, 30, 31, 30, 31][month - 1]
  }

  predicate ValidTime(t: Time) {
    && t.year >= 1970 && 1 <= t.month <= 12
    && 1 <= t.day <= MonthLength(t.month) + (if t.month == 2 && Leap(t.year) then 1 else 0)
    && t.hour < 24 && t.minute < 60 && t.second < 60
  }

  /** days_before_month */
  function BeforeMonth(month: nat): nat
    requires 1 <= month <= 12
  {
    [0, 31, 59, 90, 120, 151, 181, 212, 243, 273, 304, 334][month - 1]
  }

  /** The closed formula, as an integer. */
  function Days(t: Time): int
    requires ValidTime(t)
  {
    YearDays(t.year) + BeforeMonth(t.month) + t.day - 1 + if t.month > 2 && Leap(t.year) then 1 else 0
  }

  function YearDays(year: nat): int
    requires year >= 1970
  {
    (year - 1970) * 365 + (year - 1969) / 4 - (year - 1901) / 100 + (year - 1601) / 400
  }

  function Seconds(t: Time): int
    requires ValidTime(t)
  {
    Days(t) * 86400 + t.hour * 3600 + t.minute * 60 + t.second
  }

  /** rtc_get_timestamp, of the time it has read. */
  function ClosedTimestamp(t: Time): nat
    requires ValidTime(t)
  {
    Seconds(t) % SPAN
  }

  function YearLength(year: nat): nat {
    if Leap(year) then 366 else 365
  }

  /** The closed formula grows by the length of each year. */
  lemma NextYear(year: nat)
    requires year >= 1970
    ensures YearDays(year + 1) == YearDays(year) + YearLength(year)
  {
    FourthYears(year);
    HundredthYears(year);
    FourHundredthYears(year);
    Multiples(year);
  }

  lemma Multiples(year: nat)
    ensures year % 400 == 0 ==> year % 100 == 0
    ensures year % 100 == 0 ==> year % 4 == 0
  {
    if year % 400 == 0 {
      assert year == 100 * (4 * (year / 400));
    }
    if year % 100 == 0 {
      assert year == 4 * (25 * (year / 100));
    }
  }

  /** Each of the three quotients steps up exactly after the multiples of its divisor. */
  lemma FourthYears(year: nat)
    requires year >= 1969
    ensures (year + 1 - 1969) / 4 == (year - 1969) / 4 + if year % 4 == 0 then 1 else 0
  {
  }

  lemma HundredthYears(year: nat)
    requires year >= 1901
    ensures (year + 1 - 1901) / 100 == (year - 1901) / 100 + if year % 100 == 0 then 1 else 0
  {
  }

  lemma FourHundredthYears(year: nat)
    requires year >= 1601
    ensures (year + 1 - 1601) / 400 == (year - 1601) / 400 + if year % 400 == 0 then 1 else 0
  {
  }

  /** The days of the months before `month`, as the month loop adds them up. */
  function MonthDays(year: nat, month: nat): nat
    requires 1 <= month <= 12
  {
    if month == 1 then 0
    else MonthDays(year, month - 1) + MonthLength(month - 1) + if month - 1 == 2 && Leap(year) then 1 else 0
  }

  lemma {:induction false} MonthTable(year: nat, month: nat)
    requires 1 <= month <= 12
    ensures MonthDays(year, month) == BeforeMonth(month) + if month > 2 && Leap(year) then 1 else 0
  {
    if month > 1 {
      MonthTable(year, month - 1);
    }
  }

  lemma ModAdd(a: int, b: int)
    ensures (a % SPAN + b) % SPAN == (a + b) % SPAN
  {
    var q := a / SPAN;
    assert a + b == q * SPAN + (a % SPAN + b);
    Shift(a % SPAN + b, q);
  }

  lemma Shift(x: int, q: int)
    ensures (x + q * SPAN) % SPAN == x % SPAN
  {
  }

  lemma ModMul(a: int, k: nat)
    ensures (a % SPAN * k) % SPAN == (a * k) % SPAN
  {
    var q := a / SPAN;
    assert a * k == a % SPAN * k + (q * k) * SPAN by {
      assert a == q * SPAN + a % SPAN;
      assert (q * SPAN) * k == (q * k) * SPAN;
    }
    Shift(a % SPAN * k, q * k);
  }

  /** The year loop of get_rtc_timestamp. */
  method AddYears(year: nat) returns (days: nat)
    requires year >= 1970
    ensures days == YearDays(year) % SPAN
  {
    days := 0;
    var y := 1970;
    while y < year
      invariant 1970 <= y <= year && days == YearDays(y) % SPAN
    {
      NextYear(y);
      ModAdd(YearDays(y), YearLength(y));
      days := (days + if Leap(y) then 366 else 365) % SPAN;
      y := y + 1;
    }
  }

  /** The month loop of get_rtc_timestamp, which starts from `days`. */
  method AddMonths(days: nat, year: nat, month: nat, ghost total: int) returns (days': nat)
    requires 1 <= month <= 12 && days == total % SPAN
    ensures days' == (total + MonthDays(year, month)) % SPAN
  {
    days' := days;
    var m := 1;
    while m < month
      invariant 1 <= m <= month && days' == (total + MonthDays(year, m)) % SPAN
    {
      ghost var before := total + MonthDays(year, m);
      ModAdd(before, MonthLength(m));
      days' := (days' + MonthLength(m)) % SPAN;
      if m == 2 && Leap(year) {
        ModAdd(before + MonthLength(m), 1);
        days' := (days' + 1) % SPAN;
      }
      m := m + 1;
    }
  }

  /** get_rtc_timestamp, of the time it has read: the loops over years and months agree with the closed formula, on
      every date from 1970 on, in 32-bit arithmetic. */
  method LoopedTimestamp(t: Time) returns (timestamp: nat)
    requires ValidTime(t)
    ensures timestamp == ClosedTimestamp(t)
  {
    var days := AddYears(t.year);
    days := AddMonths(days, t.year, t.month, YearDays(t.year));
    DayInYear(t);
    ModAdd(YearDays(t.year) + MonthDays(t.year, t.month), t.day - 1);
    days := (days + t.day - 1) % SPAN;
    WrapSeconds(Days(t), t.hour * 3600, t.minute * 60, t.second);
    timestamp := days * 86400 % SPAN;
    timestamp := (timestamp + t.hour * 3600) % SPAN;
    timestamp := (timestamp + t.minute * 60) % SPAN;
    timestamp := (timestamp + t.second) % SPAN;
  }

  lemma WrapSeconds(d: int, h: int, m: int, s: int)
    ensures (((d % SPAN * 86400 % SPAN + h) % SPAN + m) % SPAN + s) % SPAN == (d * 86400 + h + m + s) % SPAN
  {
    ModMul(d, 86400);
    ModAdd(d * 86400, h);
    ModAdd(d * 86400 + h, m);
    ModAdd(d * 86400 + h + m, s);
  }

  /** Calendar order. */
  predicate Before(t: Time, u: Time) {
    t.year < u.year || (t.year == u.year && (
    t.month < u.month || (t.month == u.month && (
    t.day < u.day || (t.day == u.day && (
    t.hour < u.hour || (t.hour == u.hour && (
    t.minute < u.minute || (t.minute == u.minute && t.second < u.second)))))))))
  }

  /** Years begin in order, and every day of a year comes before the next year. */
  lemma {:induction false} YearsOrdered(y: nat, z: nat)
    requires 1970 <= y < z
    ensures YearDays(y) + YearLength(y) <= YearDays(z)
  {
    NextYear(z - 1);
    if y < z - 1 {
      YearsOrdered(y, z - 1);
    }
  }

  lemma {:induction false} MonthsOrdered(year: nat, m: nat, n: nat)
    requires 1 <= m < n <= 12
    ensures MonthDays(year, m) + MonthLength(m) + (if m == 2 && Leap(year) then 1 else 0) <= MonthDays(year, n)
  {
    if m < n - 1 {
      MonthsOrdered(year, m, n - 1);
    }
  }

  lemma DayInYear(t: Time)
    requires ValidTime(t)
    ensures Days(t) == YearDays(t.year) + MonthDays(t.year, t.month) + t.day - 1
    ensures YearDays(t.year) <= Days(t) < YearDays(t.year) + YearLength(t.year)
  {
    MonthTable(t.year, t.month);
    MonthTable(t.year, 12);
    if t.month < 12 {
      MonthsOrdered(t.year, t.month, 12);
    }
  }

  lemma Increasing(t: Time, u: Time)
    requires ValidTime(t) && ValidTime(u) && Before(t, u)
    ensures Seconds(t) < Seconds(u)
  {
    DayInYear(t);
    DayInYear(u);
    if t.year < u.year {
      YearsOrdered(t.year, u.year);
    } else if t.month < u.month {
      MonthsOrdered(t.year, t.month, u.month);
    }
  }

  /** The integer value orders times exactly as the calendar does. */
  lemma CalendarOrder(t: Time, u: Time)
    requires ValidTime(t) && ValidTime(u)
    ensures Before(t, u) <==> Seconds(t) < Seconds(u)
    ensures t == u <==> Seconds(t) == Seconds(u)
  {
    if Before(t, u) {
      Increasing(t, u);
    } else if Before(u, t) {
      Increasing(u, t);
    }
  }
}
