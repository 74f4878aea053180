/** Dates as the runtime computes them: the day, year, month and date of a time value, and
    `Date.UTC`, after section 21.4.1 of ECMA-262.  A time value is an integer number of
    milliseconds; days are counted from 1970-01-01. */
module Calendar {
  const MS_PER_DAY: int := 86_400_000

  function Day(t: int): int {
    t / MS_PER_DAY
  }

  predicate IsLeap(y: int) {
    y % 4 == 0 && (y % 100 != 0 || y % 400 == 0)
  }

  /** The number of the first day of a year. */
  function DayFromYear(y: int): int {
    365 * (y - 1970) + (y - 1969) / 4 - (y - 1901) / 100 + (y - 1601) / 400
  }

  lemma FourthYear(y: int)
    ensures (y - 1968) / 4 == (y - 1969) / 4 + if y % 4 == 0 then 1 else 0
  {
  }

  lemma HundredthYear(y: int)
    ensures (y - 1900) / 100 == (y - 1901) / 100 + if y % 100 == 0 then 1 else 0
  {
  }

  lemma FourHundredthYear(y: int)
    ensures (y - 1600) / 400 == (y - 1601) / 400 + if y % 400 == 0 then 1 else 0
  {
  }

  lemma LeapRule(y: int)
    ensures y % 100 == 0 ==> y % 4 == 0
    ensures y % 400 == 0 ==> y % 100 == 0
  {
  }

  lemma YearLength(y: int)
    ensures DayFromYear(y + 1) == DayFromYear(y) + if IsLeap(y) then 366 else 365
  {
    FourthYear(y);
    HundredthYear(y);
    FourHundredthYear(y);
    LeapRule(y);
  }

  function SearchYear(day: int, y: int): (r: int)
    requires DayFromYear(y) <= day
    ensures DayFromYear(r) <= day < DayFromYear(r + 1)
    decreases day - DayFromYear(y)
  {
    YearLength(y);
    if day < DayFromYear(y + 1) then y else SearchYear(day, y + 1)
  }

  lemma GregorianPeriod(k: int)
    ensures DayFromYear(1970 + 400 * k) == 146097 * k
  {
    assert (400 * k + 1) / 4 == 100 * k;
    assert (400 * k + 69) / 100 == 4 * k;
    assert (400 * k + 369) / 400 == k;
  }

  /** YearFromTime: the year a day lies in, searched from the start of its 400-year period. */
  function YearOf(day: int): (y: int)
    ensures DayFromYear(y) <= day < DayFromYear(y + 1)
  {
    GregorianPeriod(day / 146097);
    SearchYear(day, 1970 + 400 * (day / 146097))
  }

  lemma DayFromYearMonotone(y: int, z: int)
    requires y <= z
    ensures DayFromYear(y) <= DayFromYear(z)
    decreases z - y
  {
  }

  /** YearOf is the largest year that starts no later than the day. */
  lemma YearOfUnique(day: int, y: int)
    requires DayFromYear(y) <= day < DayFromYear(y + 1)
    ensures YearOf(day) == y
  {
    var r := YearOf(day);
    if r < y {
      DayFromYearMonotone(r + 1, y);
    } else if y < r {
      DayFromYearMonotone(y + 1, r);
    }
  }

  /** Days of a year before the month, counting months from 0. */
  function DaysBefore(month: int, leap: bool): int
    requires 0 <= month <= 12
  {
    var l := if leap then 1 else 0;
    if month == 0 then 0
    else if month == 1 then 31
    else l + [59, 90, 120, 151, 181, 212, 243, 273, 304, 334, 365][month - 2]
  }

  /** MonthFromTime. */
  function MonthOf(day: int): (m: int)
    ensures 0 <= m <= 11
  {
    var n, l := day - DayFromYear(YearOf(day)), if IsLeap(YearOf(day)) then 1 else 0;
    if n < 31 then 0
    else if n < 59 + l then 1
    else if n < 90 + l then 2
    else if n < 120 + l then 3
    else if n < 151 + l then 4
    else if n < 181 + l then 5
    else if n < 212 + l then 6
    else if n < 243 + l then 7
    else if n < 273 + l then 8
    else if n < 304 + l then 9
    else if n < 334 + l then 10
    else 11
  }

  /** DateFromTime: the day of the month, from 1. */
  function DateOf(day: int): int {
    day - DayFromYear(YearOf(day)) - DaysBefore(MonthOf(day), IsLeap(YearOf(day))) + 1
  }

  /** The length of a month, counted from 0, by the usual rule. */
  function DaysInMonth(y: int, month: int): int {
    if month == 1 then (if IsLeap(y) then 29 else 28)
    else if month == 3 || month == 5 || month == 8 || month == 10 then 30
    else 31
  }

  /** MakeDay for a month of 0 to 11; the date may be any integer. */
  function MakeDay(y: int, month: int, date: int): int
    requires 0 <= month <= 11
  {
    DayFromYear(y) + DaysBefore(month, IsLeap(y)) + date - 1
  }

  /** `Date.UTC(y, month, date)`: years 0 to 99 mean 1900 to 1999. */
  function DateUTC(y: int, month: int, date: int): int
    requires 0 <= month <= 11
  {
    MakeDay(if 0 <= y <= 99 then 1900 + y else y, month, date) * MS_PER_DAY
  }

  lemma MonthLength(y: int, month: int)
    requires 0 <= month <= 11
    ensures DaysBefore(month + 1, IsLeap(y)) == DaysBefore(month, IsLeap(y)) + DaysInMonth(y, month)
    ensures DaysBefore(12, IsLeap(y)) == if IsLeap(y) then 366 else 365
  {
  }

  lemma MonthOfUnique(day: int, y: int, month: int)
    requires 0 <= month <= 11
    requires DayFromYear(y) + DaysBefore(month, IsLeap(y)) <= day < DayFromYear(y) + DaysBefore(month + 1, IsLeap(y))
    ensures YearOf(day) == y && MonthOf(day) == month
  {
    YearLength(y);
    YearOfUnique(day, y);
  }

  /** Every valid date is the date of its own day number. */
  lemma DayOfDate(y: int, month: int, date: int)
    requires 0 <= month <= 11 && 1 <= date <= DaysInMonth(y, month)
    ensures var day := MakeDay(y, month, date);
            YearOf(day) == y && MonthOf(day) == month && DateOf(day) == date
  {
    MonthLength(y, month);
    MonthOfUnique(MakeDay(y, month, date), y, month);
  }

  /** Every day number is the number of its own, valid date. */
  lemma DateOfDay(day: int)
    ensures 1 <= DateOf(day) <= DaysInMonth(YearOf(day), MonthOf(day))
    ensures MakeDay(YearOf(day), MonthOf(day), DateOf(day)) == day
  {
    YearLength(YearOf(day));
    MonthLength(YearOf(day), MonthOf(day));
  }

  /** The first of January 1970 is the time 0, and a day has 86400 seconds. */
  lemma Epoch()
    ensures DateUTC(1970, 0, 1) == 0 && DateUTC(1970, 0, 2) == 86_400_000
  {
  }

  /** From the first of a month to that of the next it is the usual number of days. */
  lemma UsualMonths(y: int, month: int)
    requires 0 <= month <= 11
    ensures var leap := y % 4 == 0 && (y % 100 != 0 || y % 400 == 0);
            (if month < 11 then MakeDay(y, month + 1, 1) else MakeDay(y + 1, 0, 1)) - MakeDay(y, month, 1)
            == if month == 1 then (if leap then 29 else 28) else if month in {3, 5, 8, 10} then 30 else 31
  {
    if month == 11 {
      YearLength(y);
    } else {
      MonthLength(y, month);
    }
  }

  predicate RoundTrips(y: int, month: int, date: int)
    requires 0 <= month <= 11
  {
    var day := Day(DateUTC(y, month, date));
    YearOf(day) == y && MonthOf(day) == month && DateOf(day) == date
  }

  /** The validity test of parseDateParts: reading a date back from `Date.UTC` gives the same
      fields exactly for the dates of the Gregorian calendar outside the years 0 to 99. */
  lemma RoundTripsIff(y: int, month: int, date: int)
    requires 0 <= month <= 11 && 1 <= date <= 31
    ensures RoundTrips(y, month, date) <==> !(0 <= y <= 99) && date <= DaysInMonth(y, month)
  {
    var year := if 0 <= y <= 99 then 1900 + y else y;
    var day := MakeDay(year, month, date);
    assert Day(DateUTC(y, month, date)) == day;
    MonthLength(year, month);
    if date <= DaysInMonth(year, month) {
      DayOfDate(year, month, date);
    } else {
      MonthLength(year, month + 1);
      MonthOfUnique(day, year, month + 1);
    }
  }

  /** Time values lie within a hundred million days of 1970-01-01. */
  const MAX_TIME: int := 8_640_000_000_000_000

  /** The years a version can name are well inside: `Date.UTC` never answers NaN for them. */
  lemma VersionDatesAreTimeValues(y: int, month: int, date: int)
    requires 0 <= y <= 9999 && 0 <= month <= 11 && 1 <= date <= 31
    ensures -MAX_TIME <= DateUTC(y, month, date) <= MAX_TIME
  {
    var year := if y <= 99 then 1900 + y else y;
    DayFromYearMonotone(0, year);
    DayFromYearMonotone(year, 9999);
    assert 0 <= DaysBefore(month, IsLeap(year)) <= 366;
  }

  // ---------- distances ----------

  /** startOfUtcDay. */
  function StartOfUtcDay(t: int): int {
    var day := Day(t);
    DateUTC(YearOf(day), MonthOf(day), DateOf(day))
  }

  function Abs(n: int): nat {
    if n < 0 then -n else n
  }

  /** utcCalendarDayDistance; the difference is a whole number of days, so nothing is rounded. */
  function UtcCalendarDayDistance(left: int, right: int): nat {
    Abs(StartOfUtcDay(left) - StartOfUtcDay(right)) / MS_PER_DAY
  }

  /** The days by which the rereading of years 0 to 99 moves a day: 1900 years, and one day
      more before the missing 29 February 1900. */
  function CenturyShift(day: int): int {
    if !(0 <= YearOf(day) <= 99) then 0
    else if YearOf(day) == 0 && day < DayFromYear(0) + 60 then 693961
    else 693960
  }

  lemma LeapYearsMoved(y: int)
    requires 0 <= y <= 99
    ensures IsLeap(1900 + y) <==> IsLeap(y) && y != 0
  {
  }

  lemma CenturyDistance(y: int)
    requires 0 <= y <= 99
    ensures DayFromYear(1900 + y) - DayFromYear(y) == if y == 0 then 693961 else 693960
  {
    assert (y - 69) / 4 == (y - 1969) / 4 + 475;
    assert (y - 1) / 100 == (y - 1901) / 100 + 19;
    assert (y + 299) / 400 == 0;
    assert (y - 1601) / 400 == if y == 0 then -5 else -4;
  }

  lemma MovedDay(y: int, month: int, date: int)
    requires 0 <= y <= 99 && 0 <= month <= 11
    ensures MakeDay(1900 + y, month, date) == MakeDay(y, month, date) + if y == 0 && month < 2 then 693961 else 693960
  {
    CenturyDistance(y);
    LeapYearsMoved(y);
    assert IsLeap(0);
  }

  lemma StartOfDayShift(t: int)
    ensures StartOfUtcDay(t) == (Day(t) + CenturyShift(Day(t))) * MS_PER_DAY
  {
    var day := Day(t);
    var y := YearOf(day);
    DateOfDay(day);
    if 0 <= y <= 99 {
      MovedDay(y, MonthOf(day), DateOf(day));
      assert IsLeap(0);
      assert y == 0 ==> (MonthOf(day) < 2 <==> day < DayFromYear(y) + 60);
    }
  }

  lemma WholeDays(m: int, n: int)
    ensures Abs(m * MS_PER_DAY - n * MS_PER_DAY) / MS_PER_DAY == Abs(m - n)
  {
  }

  lemma DistanceIsShiftedDifference(left: int, right: int)
    ensures UtcCalendarDayDistance(left, right)
            == Abs(Day(left) + CenturyShift(Day(left)) - (Day(right) + CenturyShift(Day(right))))
  {
    StartOfDayShift(left);
    StartOfDayShift(right);
    WholeDays(Day(left) + CenturyShift(Day(left)), Day(right) + CenturyShift(Day(right)));
  }

  /** The distance is the absolute difference of the day numbers, whatever the times of day,
      exactly when both days are moved alike or the move mirrors their difference; in
      particular for all dates outside the years 0 to 99. */
  lemma DistanceIsDayDifferenceIff(left: int, right: int)
    ensures UtcCalendarDayDistance(left, right) == Abs(Day(left) - Day(right)) <==>
              var shift := CenturyShift(Day(left)) - CenturyShift(Day(right));
              shift == 0 || 2 * (Day(right) - Day(left)) == shift
  {
    DistanceIsShiftedDifference(left, right);
  }

  lemma DistanceOutsideFirstCentury(left: int, right: int)
    requires !(0 <= YearOf(Day(left)) <= 99) && !(0 <= YearOf(Day(right)) <= 99)
    ensures UtcCalendarDayDistance(left, right) == Abs(Day(left) - Day(right))
  {
    DistanceIsShiftedDifference(left, right);
  }

  /** The distance of a day outside those years to any present. */
  lemma DistanceFromDay(day: int, now: int)
    requires !(0 <= YearOf(day) <= 99)
    ensures UtcCalendarDayDistance(day * MS_PER_DAY, now) == Abs(day - Day(now)) <==>
            !(0 <= YearOf(Day(now)) <= 99) || 2 * (day - Day(now)) == CenturyShift(Day(now))
  {
    assert Day(day * MS_PER_DAY) == day;
    DistanceIsDayDifferenceIff(day * MS_PER_DAY, now);
  }

  lemma ShiftBound(day: int)
    ensures CenturyShift(day) == 0 || (day < 0 && 0 < CenturyShift(day) <= 693961)
  {
    if 0 <= YearOf(day) <= 99 {
      DayFromYearMonotone(YearOf(day) + 1, 1970);
    }
  }

  lemma DayOfTimeValue(t: int)
    requires -MAX_TIME <= t <= MAX_TIME
    ensures -100_000_000 <= Day(t) <= 100_000_000
  {
  }

  lemma StartIsTimeValue(day: int, shift: int)
    requires -100_000_000 <= day <= 100_000_000 && (shift == 0 || (day < 0 && 0 < shift <= 693961))
    ensures -MAX_TIME <= (day + shift) * MS_PER_DAY <= MAX_TIME
  {
  }

  /** The start of the day of a time value is a time value. */
  lemma StartOfDayIsTimeValue(t: int)
    requires -MAX_TIME <= t <= MAX_TIME
    ensures -MAX_TIME <= StartOfUtcDay(t) <= MAX_TIME
  {
    StartOfDayShift(t);
    ShiftBound(Day(t));
    DayOfTimeValue(t);
    StartIsTimeValue(Day(t), CenturyShift(Day(t)));
  }

  lemma DistanceOfDays(m: int, n: int)
    ensures UtcCalendarDayDistance(m * MS_PER_DAY, n * MS_PER_DAY) == Abs(m + CenturyShift(m) - (n + CenturyShift(n)))
  {
    assert Day(m * MS_PER_DAY) == m && Day(n * MS_PER_DAY) == n;
    DistanceIsShiftedDifference(m * MS_PER_DAY, n * MS_PER_DAY);
  }

  lemma ShiftBefore(y: int, day: int)
    requires 0 < y <= 99 && day == DayFromYear(y + 1)
    ensures CenturyShift(day - 1) == 693960
  {
    YearLength(y);
    YearOfUnique(day - 1, y);
  }

  lemma ShiftAfter(y: int, day: int)
    requires y > 99 && day == DayFromYear(y)
    ensures CenturyShift(day) == 0
  {
    YearLength(y);
    YearOfUnique(day, y);
  }

  /** A pair of days on which the distance is off: the last day of the year 99 and the first of the
      year 100 are next to each other, and are taken for almost nineteen centuries apart. */
  lemma DistanceAcrossCentury(y: int, day: int)
    requires y == 99 && day == DayFromYear(y + 1)
    ensures UtcCalendarDayDistance((day - 1) * MS_PER_DAY, day * MS_PER_DAY) == 693959
  {
    ShiftBefore(y, day);
    ShiftAfter(y + 1, day);
    var shift, none := CenturyShift(day - 1), CenturyShift(day);
    var distance := UtcCalendarDayDistance((day - 1) * MS_PER_DAY, day * MS_PER_DAY);
    assert distance == Abs(day - 1 + shift - (day + none)) by {
      DistanceOfDays(day - 1, day);
    }
  }
}
