/** The proleptic Gregorian calendar: day numbers of valid dates, and the closed-form conversions of
    src/sqli_result_value.c and src/sqli_types.c, which count years from March. */
module Calendar {
  import opened Status

  datatype Day = Day(year: int, month: int, day: int)

  predicate Leap(year: int) {
    year % 4 == 0 && (year % 100 != 0 || year % 400 == 0)
  }

  function DaysInMonth(year: int, month: int): (d: nat)
    requires 1 <= month <= 12
    ensures 28 <= d <= 31
  {
    if month == 2 then if Leap(year) then 29 else 28
    else if month in {4, 6, 9, 11} then 30
    else 31
  }

  function DaysInYear(year: int): nat {
    if Leap(year) then 366 else 365
  }

  predicate ValidDay(d: Day) {
    1 <= d.month <= 12 && 1 <= d.day <= DaysInMonth(d.year, d.month)
  }

  /** Days from the first of January of year 1 to that of the given year. */
  function DaysBeforeYear(year: int): int {
    365 * (year - 1) + (year - 1) / 4 - (year - 1) / 100 + (year - 1) / 400
  }

  function DaysBeforeMonth(year: int, month: int): nat
    requires 1 <= month <= 13
  {
    if month == 1 then 0 else DaysBeforeMonth(year, month - 1) + DaysInMonth(year, month - 1)
  }

  /** Number of a day, 0 being the first of January of year 1. */
  function DayNumber(d: Day): int
    requires 1 <= d.month <= 12
  {
    DaysBeforeYear(d.year) + DaysBeforeMonth(d.year, d.month) + d.day - 1
  }

  /** Day 0 of DATE values is 1899-12-31, and of Unix time 1970-01-01. */
  const IFX_EPOCH: int := DayNumber(Day(1899, 12, 31))
  const UNIX_EPOCH: int := DayNumber(Day(1970, 1, 1))

  // ---- The closed form of the year sum counts leap days as the rule says -----------------------

  lemma YearStep(year: int)
    ensures DaysBeforeYear(year + 1) == DaysBeforeYear(year) + DaysInYear(year)
    ensures DaysBeforeYear(1) == 0
  {
    Multiples(year, 4);
    Multiples(year, 100);
    Multiples(year, 400);
    Divides(year, 4, 25);
    Divides(year, 100, 4);
  }

  lemma Divides(year: int, k: int, m: int)
    requires (k == 4 && m == 25) || (k == 100 && m == 4)
    ensures year % (k * m) == 0 ==> year % k == 0
  {
  }

  lemma Multiples(year: int, k: int)
    requires k in {4, 100, 400}
    ensures year / k == (year - 1) / k + if year % k == 0 then 1 else 0
  {
  }

  lemma MonthSums(year: int)
    ensures DaysBeforeMonth(year, 2) == 31 && DaysBeforeMonth(year, 3) == 31 + DaysInMonth(year, 2)
    ensures var m := DaysBeforeMonth(year, 3);
            && DaysBeforeMonth(year, 4) == m + 31 && DaysBeforeMonth(year, 5) == m + 61
            && DaysBeforeMonth(year, 6) == m + 92 && DaysBeforeMonth(year, 7) == m + 122
            && DaysBeforeMonth(year, 8) == m + 153 && DaysBeforeMonth(year, 9) == m + 184
            && DaysBeforeMonth(year, 10) == m + 214 && DaysBeforeMonth(year, 11) == m + 245
            && DaysBeforeMonth(year, 12) == m + 275 && DaysBeforeMonth(year, 13) == m + 306 == DaysInYear(year)
  {
    assert DaysBeforeMonth(year, 1) == 0;
    assert DaysBeforeMonth(year, 2) == 31;
    assert DaysBeforeMonth(year, 4) == DaysBeforeMonth(year, 3) + 31;
    assert DaysBeforeMonth(year, 6) == DaysBeforeMonth(year, 5) + 31;
    assert DaysBeforeMonth(year, 8) == DaysBeforeMonth(year, 7) + 31;
    assert DaysBeforeMonth(year, 10) == DaysBeforeMonth(year, 9) + 30;
    assert DaysBeforeMonth(year, 12) == DaysBeforeMonth(year, 11) + 30;
  }

  function Tomorrow(d: Day): Day
    requires ValidDay(d)
  {
    if d.day < DaysInMonth(d.year, d.month) then d.(day := d.day + 1)
    else if d.month < 12 then Day(d.year, d.month + 1, 1)
    else Day(d.year + 1, 1, 1)
  }

  /** Consecutive days have consecutive numbers. */
  lemma TomorrowIsNext(d: Day)
    requires ValidDay(d)
    ensures ValidDay(Tomorrow(d)) && DayNumber(Tomorrow(d)) == DayNumber(d) + 1
  {
    MonthSums(d.year);
    YearStep(d.year);
    if d.month < 12 {
      assert DaysBeforeMonth(d.year, d.month + 1) == DaysBeforeMonth(d.year, d.month) + DaysInMonth(d.year, d.month);
    }
  }

  lemma {:induction false} YearsGrow(a: int, b: int)
    requires a <= b
    ensures DaysBeforeYear(a) + 365 * (b - a) <= DaysBeforeYear(b)
    decreases b - a
  {
    if a < b {
      YearsGrow(a, b - 1);
      YearStep(b - 1);
    }
  }

  lemma {:induction false} MonthsGrow(year: int, a: int, b: int)
    requires 1 <= a < b <= 13
    ensures DaysBeforeMonth(year, a) + DaysInMonth(year, a) <= DaysBeforeMonth(year, b)
    decreases b - a
  {
    if a + 1 < b { MonthsGrow(year, a, b - 1); }
  }

  lemma InItsYear(d: Day)
    requires ValidDay(d)
    ensures DaysBeforeYear(d.year) <= DayNumber(d) < DaysBeforeYear(d.year + 1)
  {
    MonthsGrow(d.year, d.month, 13);
    MonthSums(d.year);
    YearStep(d.year);
  }

  predicate Earlier(a: Day, b: Day) {
    a.year < b.year || (a.year == b.year && (a.month < b.month || (a.month == b.month && a.day < b.day)))
  }

  /** Day numbers order valid dates as the calendar does; so each number has at most one date. */
  lemma NumbersOrderDays(a: Day, b: Day)
    requires ValidDay(a) && ValidDay(b)
    ensures DayNumber(a) < DayNumber(b) <==> Earlier(a, b)
    ensures DayNumber(a) == DayNumber(b) <==> a == b
  {
    InItsYear(a);
    InItsYear(b);
    if a.year < b.year { YearsGrow(a.year + 1, b.year); }
    if b.year < a.year { YearsGrow(b.year + 1, a.year); }
    if a.year == b.year && a.month < b.month { MonthsGrow(a.year, a.month, b.month); }
    if a.year == b.year && b.month < a.month { MonthsGrow(a.year, b.month, a.month); }
  }

  // ---- Years counted from March -------------------------------------------------------------

  /** Days from the first of March of year 0 to that of a year within one 400-year cycle. */
  function MarchDays(yoe: nat): int {
    365 * yoe + yoe / 4 - yoe / 100
  }

  /** First of March of a year, as a day number. */
  lemma FirstOfMarch(yoe: nat, era: int)
    requires yoe < 400
    ensures DayNumber(Day(yoe + 400 * era, 3, 1)) == MarchDays(yoe) + 146097 * era - 306
    ensures DayNumber(Day(yoe + 400 * era, 3, 1)) == DaysBeforeYear(yoe + 400 * era + 1) - 306
  {
    var y := yoe + 400 * era;
    MonthSums(y);
    YearStep(y);
    assert y / 4 == yoe / 4 + 100 * era && y / 100 == yoe / 100 + 4 * era && y / 400 == era;
  }

  /** Days in the months from March up to the given one, by the linear formula. */
  lemma MarchMonths(mp: nat, year: int)
    requires mp < 12
    ensures var month := if mp < 10 then mp + 3 else mp - 9;
            var y := if mp < 10 then year else year + 1;
            DayNumber(Day(y, month, 1)) == DayNumber(Day(year, 3, 1)) + (153 * mp + 2) / 5
    ensures mp < 11 ==>
              (153 * (mp + 1) + 2) / 5 - (153 * mp + 2) / 5 == DaysInMonth(year, if mp < 10 then mp + 3 else mp - 9)
  {
    MonthSums(year);
    MonthSums(year + 1);
    YearStep(year);
    assert mp in {0, 1, 2, 3, 4, 5, 6, 7, 8, 9, 10, 11};
    assert DaysBeforeMonth(year + 1, 1) == 0;
  }

  /** The day of the cycle split into centuries, four-year groups, years and days. */
  lemma Decompose(doe: nat) returns (c: nat, q: nat, r: nat, d: nat)
    requires doe < 146097
    ensures doe == 36524 * c + 1461 * q + 365 * r + d
    ensures c <= 3 && q <= 24 && r <= 3 && d <= 365
    ensures d == 365 ==> r == 3 && (q < 24 || c == 3)
  {
    c := if doe / 36524 > 3 then 3 else doe / 36524;
    var x := doe - 36524 * c;
    q := x / 1461;
    var y := x - 1461 * q;
    r := if y / 365 > 3 then 3 else y / 365;
    d := y - 365 * r;
  }

  /** The corrected division finds the year of the cycle. */
  lemma YearOfEra(doe: nat, c: nat, q: nat, r: nat, d: nat)
    requires doe == 36524 * c + 1461 * q + 365 * r + d
    requires c <= 3 && q <= 24 && r <= 3 && d <= 365
    requires d == 365 ==> r == 3 && (q < 24 || c == 3)
    ensures (doe - doe / 1460 + doe / 36524 - doe / 146096) / 365 == 100 * c + 4 * q + r
    ensures MarchDays(100 * c + 4 * q + r) == doe - d
  {
    var low := 24 * c + q + 365 * r + d;
    assert doe == 1460 * (25 * c + q) + low && low < 2 * 1460;
    var high := 1461 * q + 365 * r + d;
    assert doe == 36524 * c + high && high <= 36524;
    assert high == 36524 ==> q == 24 && r == 3 && d == 365;
    var one := if low >= 1460 then 1 else 0;
    var turn := if high == 36524 then 1 else 0;
    assert doe / 1460 == 25 * c + q + one;
    assert doe / 36524 == c + turn;
    assert doe / 146096 == turn;
  }

  // ---- The closed forms ---------------------------------------------------------------------

  /** C division: the quotient is truncated toward zero. */
  function Truncated(a: int, b: nat): int
    requires b > 0
  {
    if a >= 0 then a / b else -(-a / b)
  }

  function TruncatedRemainder(a: int, b: nat): int
    requires b > 0
  {
    if a >= 0 then a % b else -(-a % b)
  }

  /** The date of a day counted from 1899-12-31. */
  method DaysToYmd(ifxDays: int) returns (date: Day)
    ensures ValidDay(date) && DayNumber(date) == IFX_EPOCH + ifxDays
  {
    var z := ifxDays - 25568;
    z := z + 719468;
    var era := Truncated(if z >= 0 then z else z - 146096, 146097);
    FloorByShift(z, 146097);
    var doe := z - era * 146097;
    var yoe := (doe - doe / 1460 + doe / 36524 - doe / 146096) / 365;
    ghost var c, q, r, d := Decompose(doe);
    YearOfEra(doe, c, q, r, d);
    var yy := yoe + era * 400;
    var doy := doe - (365 * yoe + yoe / 4 - yoe / 100);
    var mp := (5 * doy + 2) / 153;
    var dd := doy - (153 * mp + 2) / 5 + 1;
    var mm := mp + if mp < 10 then 3 else -9;
    CivilDay(c, q, r, d, era, mp, dd);
    if mm <= 2 { yy := yy + 1; }
    date := Day(yy, mm, dd);
    Epochs();
  }

  lemma FloorByShift(z: int, b: nat)
    requires b == 146097 || b == 400
    ensures Truncated(if z >= 0 then z else z - (b - 1), b) == z / b
  {
  }

  lemma Epochs()
    ensures IFX_EPOCH == 693594 && UNIX_EPOCH == 719162
  {
    MonthSums(1899);
    MonthSums(1970);
    assert DaysBeforeMonth(1970, 1) == 0;
  }

  /** The day of a March year split into month and day is the day it counts, and a valid one. */
  lemma CivilDay(c: nat, q: nat, r: nat, d: nat, era: int, mp: nat, dd: int)
    requires c <= 3 && q <= 24 && r <= 3 && d <= 365
    requires d == 365 ==> r == 3 && (q < 24 || c == 3)
    requires mp == (5 * d + 2) / 153 && dd == d - (153 * mp + 2) / 5 + 1
    ensures mp < 12
    ensures var year := 100 * c + 4 * q + r + 400 * era;
            var date := Day(if mp < 10 then year else year + 1, if mp < 10 then mp + 3 else mp - 9, dd);
            ValidDay(date) && DayNumber(date) == MarchDays(100 * c + 4 * q + r) + 146097 * era + d - 306
  {
    var yoe := 100 * c + 4 * q + r;
    var year := yoe + 400 * era;
    MonthOfDay(d, mp);
    MarchMonths(mp, year);
    FirstOfMarch(yoe, era);
    if mp == 11 && d == 365 { LeapEnd(c, q, era); }
  }

  lemma MonthOfDay(d: nat, mp: nat)
    requires d <= 365 && mp == (5 * d + 2) / 153
    ensures mp < 12 && (153 * mp + 2) / 5 <= d && (mp < 11 ==> d < (153 * (mp + 1) + 2) / 5)
    ensures (153 * 11 + 2) / 5 == 337
  {
  }

  /** A March year with 366 days ends in the February of a leap year. */
  lemma LeapEnd(c: nat, q: nat, era: int)
    requires c <= 3 && q <= 24 && (q < 24 || c == 3)
    ensures Leap(100 * c + 4 * q + 3 + 400 * era + 1)
  {
    var y := 100 * c + 4 * (q + 1) + 400 * era;
    assert y == 4 * (25 * c + q + 1 + 100 * era);
    if q < 24 { assert y == 100 * (c + 4 * era) + 4 * (q + 1); } else { assert y == 400 * (era + 1); }
  }

  /** Days since 1970-01-01, of any month and any day count within it. */
  function YmdToDays(date: Day): int
    requires 1 <= date.month <= 12 && date.day >= 1
  {
    var y := if date.month <= 2 then date.year - 1 else date.year;
    var m := if date.month <= 2 then date.month + 12 else date.month;
    var era := Truncated(if y >= 0 then y else y - 399, 400);
    var yoe := y - era * 400;
    var doy := (153 * (m - 3) + 2) / 5 + date.day - 1;
    var doe := yoe * 365 + yoe / 4 - yoe / 100 + doy;
    era * 146097 + doe - 719468
  }

  /** What the closed form computes in signed 32-bit integers stays within them: the year before a January or
      February, a negative year less 399, and the terms of month and day. */
  predicate YmdDefined(date: Day)
    requires 1 <= date.month <= 12
  {
    var y := if date.month <= 2 then date.year - 1 else date.year;
    var m := if date.month <= 2 then date.month + 12 else date.month;
    && IsInt32(y) && (y < 0 ==> IsInt32(y - 399))
    && IsInt32(153 * (m - 3) + 2) && IsInt32((153 * (m - 3) + 2) / 5 + date.day - 1)
  }

  /** For a valid date it does so exactly if the year is not among the lowest ones. */
  lemma YmdDefinedExactly(date: Day)
    requires ValidDay(date) && IsInt32(date.year)
    ensures YmdDefined(date) <==> date.year >= INT32_MIN + 399 + (if date.month <= 2 then 1 else 0)
    ensures date == Day(INT32_MIN + 398, 3, 1) ==> !YmdDefined(date)
  {
  }

  /** The day count of any 32-bit year is small enough to be made into seconds in 64 bits. */
  lemma YmdToDaysIsSmall(date: Day)
    requires ValidDay(date) && IsInt32(date.year)
    ensures -800_000_000_000 < YmdToDays(date) < 800_000_000_000
  {
    var year := if date.month <= 2 then date.year - 1 else date.year;
    FloorByShift(year, 400);
  }

  lemma YmdToDaysIsExact(date: Day)
    requires 1 <= date.month <= 12 && date.day >= 1
    ensures YmdToDays(date) == DayNumber(date) - UNIX_EPOCH
  {
    var year := if date.month <= 2 then date.year - 1 else date.year;
    var mp := if date.month <= 2 then date.month + 9 else date.month - 3;
    YmdInMarchYears(date, year, mp);
    MarchMonths(mp, year);
    FirstOfMarch(year % 400, year / 400);
    Epochs();
  }

  /** The closed form in years that begin with March, in whole 400-year cycles and the rest. */
  lemma YmdInMarchYears(date: Day, year: int, mp: nat)
    requires 1 <= date.month <= 12 && date.day >= 1
    requires year == if date.month <= 2 then date.year - 1 else date.year
    requires mp == if date.month <= 2 then date.month + 9 else date.month - 3
    ensures YmdToDays(date)
            == year / 400 * 146097 + MarchDays(year % 400) + (153 * mp + 2) / 5 + date.day - 1 - 719468
  {
    FloorByShift(year, 400);
  }

  /** The inverse of both conversions: each date is the one day of its number. */
  lemma OneDate(a: Day, b: Day)
    requires ValidDay(a) && ValidDay(b) && YmdToDays(a) == YmdToDays(b)
    ensures a == b
  {
    YmdToDaysIsExact(a);
    YmdToDaysIsExact(b);
    NumbersOrderDays(a, b);
  }
}
