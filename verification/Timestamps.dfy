/** Timestamps and Unix time (src/sqli_types.c:244-299). */
module Timestamps {
  import opened Status
  import opened Calendar

  datatype Timestamp =
    | NullTime
    | Time(date: Day, hour: int, minute: int, second: int, microsecond: int)

  predicate ValidTime(t: Timestamp) {
    t.Time? ==>
      && ValidDay(t.date) && 0 <= t.hour < 24 && 0 <= t.minute < 60 && 0 <= t.second < 60
      && 0 <= t.microsecond < 1_000_000
  }

  function EpochSeconds(t: Timestamp): int
    requires t.Time? ==> 1 <= t.date.month <= 12 && t.date.day >= 1
  {
    if t.NullTime? then 0
    else YmdToDays(t.date) * 86400 + t.hour * 3600 + t.minute * 60 + t.second
  }

  function EpochMilliseconds(t: Timestamp): int
    requires t.Time? ==> 1 <= t.date.month <= 12 && t.date.day >= 1
  {
    if t.NullTime? then 0 else EpochSeconds(t) * 1000 + Truncated(t.microsecond, 1000)
  }

  /** Conversion to a 32-bit integer, modulo 2^32. */
  function Narrow32(x: int): (n: int)
    ensures IsInt32(n)
  {
    (x + 0x8000_0000) % 0x1_0000_0000 - 0x8000_0000
  }

  predicate Denotes(t: Timestamp, sec: int) {
    t.Time? && ValidTime(t) && EpochSeconds(t) == sec
  }

  predicate DenotesMilliseconds(t: Timestamp, ms: int) {
    t.Time? && ValidTime(t) && EpochMilliseconds(t) == ms
  }

  /** Days, hours, minutes and seconds are determined by the seconds they make. */
  lemma OneSplit(d: int, h: int, m: int, s: int, e: int, i: int, n: int, t: int)
    requires 0 <= h < 24 && 0 <= m < 60 && 0 <= s < 60 && 0 <= i < 24 && 0 <= n < 60 && 0 <= t < 60
    requires d * 86400 + h * 3600 + m * 60 + s == e * 86400 + i * 3600 + n * 60 + t
    ensures d == e && h == i && m == n && s == t
  {
  }

  /** A time of day is determined by its seconds, and a valid timestamp by its Unix time. */
  lemma OneTime(a: Timestamp, b: Timestamp)
    requires a.Time? && b.Time? && ValidTime(a) && ValidTime(b)
    requires EpochSeconds(a) == EpochSeconds(b) && a.microsecond == b.microsecond
    ensures a == b
  {
    OneSplit(YmdToDays(a.date), a.hour, a.minute, a.second, YmdToDays(b.date), b.hour, b.minute, b.second);
    OneDate(a.date, b.date);
  }

  /** Adding the offset between the two epochs to the narrowed day count overflows a signed 32-bit integer. */
  predicate Overflows(day: int) {
    Narrow32(day) + 25568 > INT32_MAX
  }

  /** That happens for 25568 day counts in every 2^32. Counted from the Unix epoch the first is day 2147458080,
      so the first second count the conversion is undefined for is 185540378112000. The first one it is defined
      but wrong for is 185542587187200, of day 2^31. */
  lemma OverflowsExactly(sec: int)
    ensures Overflows(sec / 86400) <==> (sec / 86400 - 2147458080) % 0x1_0000_0000 < 25568
    ensures Overflows(185540378112000 / 86400)
    ensures 0 <= sec < 185540378112000 ==> !Overflows(sec / 86400)
    ensures !Overflows(185542587187200 / 86400) && !IsInt32(185542587187200 / 86400)
    ensures 0 <= sec < 185542587187200 ==> IsInt32(sec / 86400)
  {
    OverflowingDays(sec / 86400);
    OverflowingDays(2147458080);
    OverflowingDays(2147483648);
    assert 185540378112000 / 86400 == 2147458080 && 185542587187200 / 86400 == 2147483648;
  }

  lemma OverflowingDays(day: int)
    ensures Overflows(day) <==> (day - 2147458080) % 0x1_0000_0000 < 25568
  {
  }

  /** Days and time of day of Unix seconds. The conversion is defined unless the addition overflows, and
      exact wherever it is defined and the day count fits the 32 bits it is passed in. */
  method FromEpochSeconds(sec: int) returns (defined: bool, t: Timestamp)
    requires INT64_MIN <= sec <= INT64_MAX
    ensures defined <==> !Overflows(sec / 86400)
    ensures defined ==>
              t.Time? && ValidTime(t) && t.microsecond == 0 && (EpochSeconds(t) == sec <==> IsInt32(sec / 86400))
    ensures defined && IsInt32(sec / 86400) ==> forall u: Timestamp :: Denotes(u, sec) && u.microsecond == 0 ==> u == t
  {
    var days := Truncated(sec, 86400);
    var rem := TruncatedRemainder(sec, 86400);
    if rem < 0 {
      days := days - 1;
      rem := rem + 86400;
    }
    FloorDivision(sec, 86400, days, rem);
    if Narrow32(days) > INT32_MAX - 25568 { return false, NullTime; }
    t := Assemble(Narrow32(days), rem);
    OnlyTime(t);
    NarrowingKeeps(days, rem);
    defined := true;
  }

  /** Narrowing keeps the time exactly if the day count fits. */
  lemma NarrowingKeeps(days: int, seconds: int)
    ensures Narrow32(days) * 86400 + seconds == days * 86400 + seconds <==> IsInt32(days)
  {
  }

  lemma OnlyTime(t: Timestamp)
    requires t.Time? && ValidTime(t) && t.microsecond == 0
    ensures forall u: Timestamp :: Denotes(u, EpochSeconds(t)) && u.microsecond == 0 ==> u == t
  {
    forall u: Timestamp | Denotes(u, EpochSeconds(t)) && u.microsecond == 0 ensures u == t {
      OneTime(u, t);
    }
  }

  /** The date of a day and the time of day of a number of seconds. */
  method Assemble(days: int, seconds: int) returns (t: Timestamp)
    requires 0 <= seconds < 86400
    ensures t.Time? && ValidTime(t) && t.microsecond == 0 && EpochSeconds(t) == days * 86400 + seconds
  {
    var hour := seconds / 3600;
    var rem := seconds % 3600;
    var date := DaysToYmd(days + 25568);
    YmdToDaysIsExact(date);
    Epochs();
    t := Time(date, hour, rem / 60, rem % 60, 0);
  }

  /** A day count is made into a date with the same addition and no narrowing: defined for all but the largest
      25568 counts, and the inverse of counting the days of a timestamp. */
  method FromEpochDays(days: int) returns (defined: bool, t: Timestamp)
    requires IsInt32(days)
    ensures defined <==> days <= INT32_MAX - 25568
    ensures defined ==> t.Time? && ValidTime(t) && YmdToDays(t.date) == days && EpochSeconds(t) == days * 86400
  {
    if days > INT32_MAX - 25568 { return false, NullTime; }
    t := Assemble(days, 0);
    defined := true;
  }

  predicate IsInt64(x: int) {
    INT64_MIN <= x <= INT64_MAX
  }

  /** Seconds of a timestamp with a 32-bit year always fit 64 bits. Milliseconds do, product and sum, exactly up
      to about 292 million years from the Unix epoch, and so for every year up to 9999. */
  lemma MillisecondsFitExactly(t: Timestamp)
    requires t.Time? && ValidTime(t) && IsInt32(t.date.year)
    ensures var sec, ms := EpochSeconds(t), t.microsecond / 1000;
            && IsInt64(YmdToDays(t.date) * 86400) && IsInt64(sec)
            && (IsInt64(sec * 1000) && IsInt64(EpochMilliseconds(t)) <==>
                  -9223372036854775 <= sec < 9223372036854775 || (sec == 9223372036854775 && ms <= 807))
            && (1 <= t.date.year <= 9999 ==> IsInt64(sec * 1000) && IsInt64(EpochMilliseconds(t)))
  {
    YmdToDaysIsSmall(t.date);
    if 1 <= t.date.year <= 9999 { FloorByShift(if t.date.month <= 2 then t.date.year - 1 else t.date.year, 400); }
  }

  /** Truncating division, stepped down when the remainder is negative, is division rounding down. */
  lemma FloorDivision(x: int, b: int, q: int, r: int)
    requires b == 86400 || b == 1000
    requires if TruncatedRemainder(x, b) < 0 then q == Truncated(x, b) - 1 && r == TruncatedRemainder(x, b) + b
             else q == Truncated(x, b) && r == TruncatedRemainder(x, b)
    ensures q == x / b && r == x % b
  {
  }

  method FromEpochMilliseconds(ms: int) returns (defined: bool, t: Timestamp)
    requires INT64_MIN <= ms <= INT64_MAX
    ensures defined <==> !Overflows(ms / 1000 / 86400)
    ensures defined ==>
              && t.Time? && ValidTime(t) && t.microsecond == ms % 1000 * 1000
              && (EpochMilliseconds(t) == ms <==> IsInt32(ms / 1000 / 86400))
    ensures defined && IsInt32(ms / 1000 / 86400) ==>
              forall u: Timestamp :: DenotesMilliseconds(u, ms) && u.microsecond % 1000 == 0 ==> u == t
  {
    var sec := Truncated(ms, 1000);
    var rem := TruncatedRemainder(ms, 1000);
    if rem < 0 {
      sec := sec - 1;
      rem := rem + 1000;
    }
    FloorDivision(ms, 1000, sec, rem);
    defined, t := FromEpochSeconds(sec);
    if !defined { return; }
    t := t.(microsecond := rem * 1000);
    OnlyMilliseconds(t);
  }

  lemma OnlyMilliseconds(t: Timestamp)
    requires t.Time? && ValidTime(t) && t.microsecond % 1000 == 0
    ensures forall u: Timestamp :: DenotesMilliseconds(u, EpochMilliseconds(t)) && u.microsecond % 1000 == 0 ==> u == t
  {
    forall u: Timestamp | DenotesMilliseconds(u, EpochMilliseconds(t)) && u.microsecond % 1000 == 0 ensures u == t {
      OneTime(u, t);
    }
  }
}
