/**
 Calendar arithmetic: mktime() of time.c against the Gregorian calendar and
 against the formula of section 4.15 of POSIX:2008.
 */
module Calendar {
  import opened Words

  // ---- The calendar -------------------------------------------------------

  // A leap year of the Gregorian calendar
  predicate Gregorian(year: int) {
    year % 4 == 0 && (year % 100 != 0 || year % 400 == 0)
  }

  /** A day: years since 1900, month from 0, and day of the month from 1 */
  datatype Date = Date(year: int, month: int, day: int)

  function MonthLength(year: int, month: int): int {
    if month == 1 then if Gregorian(1900 + year) then 29 else 28
    else if month == 3 || month == 5 || month == 8 || month == 10 then 30
    else 31
  }

  ghost predicate Valid(t: Date) {
    t.year >= 0 && 0 <= t.month < 12 && 1 <= t.day <= MonthLength(t.year, t.month)
  }

  // The day after
  function Next(t: Date): Date {
    if t.day < MonthLength(t.year, t.month) then t.(day := t.day + 1)
    else if t.month < 11 then Date(t.year, t.month + 1, 1)
    else Date(t.year + 1, 0, 1)
  }

  // ---- The program --------------------------------------------------------

  // Division in C, which rounds towards zero
  function Div(a: int, b: int): int
    requires b > 0
  {
    if a >= 0 then a / b else -((-a) / b)
  }

  // is_leap_year()
  function IsLeapYear(year: int): (leap: bool)
    requires year >= 0
    ensures leap <==> Gregorian(1900 + year)
  {
    Remainders(year);
    if year % 400 == 100 then true else if year % 100 == 0 then false else year % 4 == 0
  }

  lemma Remainders(year: int)
    ensures (1900 + year) % 4 == year % 4 && (1900 + year) % 100 == year % 100
    ensures (1900 + year) % 400 == 0 <==> year % 400 == 100
    ensures year % 400 == 100 ==> year % 100 == 0 && year % 4 == 0
    ensures year % 100 == 0 ==> year % 4 == 0
  {
    ModShift(year, 475, 4);
    ModShift(year, 19, 100);
    ModShift(year + 300, 4, 400);
    ModMod(year, 400, 100);
    ModMod(year, 100, 4);
    assert 1900 + year == (year + 300) + 4 * 400;
    Wrapped(year);
  }

  lemma Wrapped(year: int)
    ensures (year + 300) % 400 == 0 <==> year % 400 == 100
  {
  }

  // leap_years_to_end()
  function LeapYearsToEnd(year: int): int {
    Div(year, 4) - Div(year, 100) + Div(year + 300, 400)
  }

  const OFFSETS := [1, 4, 3, 6, 1, 4, 6, 2, 5, 0, 3, 5]

  // day_of_week()
  function DayOfWeek(t: Date): int
    requires Valid(t)
  {
    var pseudoYear := if t.month < 2 then t.year - 1 else t.year;
    (pseudoYear + LeapYearsToEnd(pseudoYear) + OFFSETS[t.month] + t.day) % 7
  }

  const MONTH_STARTS := [0, 31, 59, 90, 120, 151, 181, 212, 243, 273, 304, 334]

  function YearDay(t: Date): int
    requires Valid(t)
  {
    t.day - 1 + MONTH_STARTS[t.month] + (if t.month >= 2 && IsLeapYear(t.year) then 1 else 0)
  }

  function EpochDays(t: Date): int
    requires Valid(t)
  {
    YearDay(t) + 365 * t.year - 25567 + LeapYearsToEnd(t.year - 1)
  }

  class Tm {
    var sec: int
    var min: int
    var hour: int
    var mday: int
    var mon: int
    var year: int
    var wday: int
    var yday: int

    ghost predicate IsDate(t: Date)
      reads this
    {
      Valid(t) && t == Date(year, mon, mday)
    }

    // mktime()
    method Mktime(ghost t: Date) returns (seconds: int)
      requires IsDate(t)
      modifies this`wday, this`yday
      ensures yday == YearDay(t) && wday == (EpochDays(t) + 4) % 7
      ensures seconds == EpochDays(t) * 86400 + hour * 3600 + min * 60 + sec
    {
      hide LeapYearsToEnd, IsLeapYear, MonthLength;
      yday := mday - 1 + MONTH_STARTS[mon];
      if mon >= 2 && IsLeapYear(year) {
        yday := yday + 1;
      }
      var pseudoYear := year;
      if mon < 2 {
        pseudoYear := pseudoYear - 1;
      }
      wday := (pseudoYear + LeapYearsToEnd(pseudoYear) + OFFSETS[mon] + mday) % 7;
      Weekday(t);
      var days := yday + 365 * year - 25567 + LeapYearsToEnd(year - 1);
      seconds := days * 86400 + ((hour * 60 + min) * 60 + sec);
    }
  }

  // ---- What it computes ---------------------------------------------------

  function LeapYears(year: int): int {
    if year <= 0 then 0 else LeapYears(year - 1) + (if Gregorian(1900 + year) then 1 else 0)
  }

  lemma NextQuotient(n: int, k: int)
    requires n >= 0 && (k == 4 || k == 100 || k == 400)
    ensures (n + 1) / k == n / k + (if (n + 1) % k == 0 then 1 else 0)
  {
    var q, r := n / k, n % k;
    if r + 1 < k {
      DivModUnique(n + 1, k, q, r + 1);
    } else {
      DivModUnique(n + 1, k, q + 1, 0);
    }
  }

  lemma LeapYearsStep(year: int)
    requires year >= 1
    ensures LeapYearsToEnd(year) == LeapYearsToEnd(year - 1) + (if Gregorian(1900 + year) then 1 else 0)
  {
    NextQuotient(year - 1, 4);
    NextQuotient(year - 1, 100);
    NextQuotient(year - 1 + 300, 400);
    Remainders(year);
    Wrapped(year);
  }

  // The leap years from 1901 on are counted exactly, and before 1901 none.
  lemma {:induction false} LeapYearsCounted(year: int)
    requires year >= -1
    ensures LeapYearsToEnd(year) == LeapYears(year)
  {
    if year > 0 {
      LeapYearsCounted(year - 1);
      LeapYearsStep(year);
    }
  }

  // The next day is one day later.
  lemma NextDay(t: Date)
    requires Valid(t)
    ensures Valid(Next(t)) && EpochDays(Next(t)) == EpochDays(t) + 1
  {
    hide LeapYearsToEnd;
    if t.day == MonthLength(t.year, t.month) && t.month == 11 {
      if t.year == 0 {
        FirstYears();
      } else {
        LeapYearsStep(t.year);
      }
    }
  }

  lemma FirstYears()
    ensures LeapYearsToEnd(-1) == 0 && LeapYearsToEnd(0) == 0 && !Gregorian(1900)
  {
  }

  function After(n: nat): Date {
    if n == 0 then Date(0, 0, 1) else Next(After(n - 1))
  }

  // So each day is numbered by its distance from 1 January 1900, and hence
  // 1 January 1970 by zero.
  lemma {:induction false} DaysCounted(n: nat)
    ensures Valid(After(n)) && EpochDays(After(n)) == n - 25567
  {
    hide EpochDays, Next, Valid;
    if n == 0 {
      FirstDay();
    } else {
      DaysCounted(n - 1);
      NextDay(After(n - 1));
    }
  }

  // The day before, from the second day on
  function Previous(t: Date): Date {
    if t.day > 1 then t.(day := t.day - 1)
    else if t.month > 0 then Date(t.year, t.month - 1, MonthLength(t.year, t.month - 1))
    else Date(t.year - 1, 11, 31)
  }

  lemma PreviousDay(t: Date)
    requires Valid(t) && t != Date(0, 0, 1)
    ensures Valid(Previous(t)) && Next(Previous(t)) == t
  {
  }

  // And every date is reached: the number of a date determines it.
  lemma {:induction false} EveryDate(t: Date)
    requires Valid(t)
    ensures EpochDays(t) >= -25567 && t == After(EpochDays(t) + 25567)
    decreases t.year, t.month, t.day
  {
    hide EpochDays, Next, Valid, MonthLength;
    if t == Date(0, 0, 1) {
      FirstDay();
    } else {
      PreviousDay(t);
      DatesFall(t);
      EveryDate(Previous(t));
      NextDay(Previous(t));
    }
  }

  lemma DatesFall(t: Date)
    requires Valid(t) && t != Date(0, 0, 1)
    ensures var p := Previous(t); 0 <= p.year && 0 <= p.month && 0 <= p.day
    ensures var p := Previous(t);
            p.year < t.year || (p.year == t.year && (p.month < t.month || (p.month == t.month && p.day < t.day)))
  {
  }

  lemma FirstDay()
    ensures Valid(Date(0, 0, 1)) && EpochDays(Date(0, 0, 1)) == -25567
  {
    hide LeapYearsToEnd;
    FirstYears();
  }

  lemma Epoch()
    ensures Valid(Date(70, 0, 1)) && EpochDays(Date(70, 0, 1)) == 0
  {
  }

  // The day of the week follows the days; 1 January 1970 was a Thursday.
  lemma Weekday(t: Date)
    requires Valid(t)
    ensures DayOfWeek(t) == (EpochDays(t) + 4) % 7
  {
    hide LeapYearsToEnd;
    if t.month >= 2 {
      if t.year == 0 {
        FirstYears();
      } else {
        LeapYearsStep(t.year);
      }
    }
    MonthOffset(t.month);
    var k := 52 * t.year - 3652 + Weeks(t.month);
    var pseudoYear := if t.month < 2 then t.year - 1 else t.year;
    var sum := pseudoYear + LeapYearsToEnd(pseudoYear) + OFFSETS[t.month] + t.day;
    assert EpochDays(t) + 4 == sum + k * 7;
    ModShift(sum, k, 7);
  }

  // Whole weeks before the start of a month
  function Weeks(month: int): int
    requires 0 <= month < 12
  {
    MONTH_STARTS[month] / 7
  }

  lemma MonthOffset(month: int)
    requires 0 <= month < 12
    ensures MONTH_STARTS[month] == 7 * Weeks(month) + OFFSETS[month] - (if month < 2 then 1 else 0)
  {
  }

  // From 1970 on, the seconds are those of section 4.15 of POSIX:2008.
  lemma Posix(t: Date)
    requires Valid(t) && t.year >= 70
    ensures EpochDays(t) * 86400 ==
            YearDay(t) * 86400 + (t.year - 70) * 31536000 + ((t.year - 69) / 4) * 86400
            - ((t.year - 1) / 100) * 86400 + ((t.year + 299) / 400) * 86400
  {
    assert (t.year - 1) / 4 == (t.year - 69) / 4 + 17;
  }
}
