/** Qualified DATETIME and INTERVAL values and their validation (src/sqli_temporal.c:51-129 and 205-317). */
module Temporals {
  import opened Status
  import opened Radix
  import opened Numbers
  import Calendar

  // Fields in their order; UNKNOWN only as the range of SQL NULL.
  const UNKNOWN: nat := 0
  const YEAR: nat := 1
  const MONTH: nat := 2
  const DAY: nat := 3
  const HOUR: nat := 4
  const MINUTE: nat := 5
  const SECOND: nat := 6
  const FRACTION: nat := 7

  datatype Range = Range(first: nat, last: nat, digits: nat)

  const NO_RANGE: Range := Range(UNKNOWN, UNKNOWN, 0)
  const NO_VALUES: seq<int> := [0, 0, 0, 0, 0, 0, 0]

  /** values holds the integral fields by their number; number 0 is not used. */
  datatype Parts = Parts(range: Range, values: seq<int>, nanosecond: nat, negative: bool, isNull: bool)

  function NullParts(range: Range): Parts {
    Parts(range, NO_VALUES, 0, false, true)
  }

  /** What the C types of the fields can hold. */
  predicate Typed(p: Parts, interval: bool) {
    && |p.values| == 7 && p.values[0] == 0 && p.nanosecond < 0x1_0000_0000
    && (interval ==> forall f :: 0 <= f < 7 ==> 0 <= p.values[f] <= UINT64_MAX)
    && (!interval ==> IsInt32(p.values[YEAR]) && !p.negative && forall f :: MONTH <= f < 7 ==> 0 <= p.values[f] < 256)
  }

  function RangeStatus(r: Range, interval: bool, allowUnknown: bool): (s: Status)
    ensures s == Ok || s == InvalidArgument
  {
    if r == NO_RANGE then if allowUnknown then Ok else InvalidArgument
    else if r.first < YEAR || r.last > FRACTION || r.first > r.last then InvalidArgument
    else if interval && r.first <= MONTH && r.last > MONTH then InvalidArgument
    else if r.last == FRACTION then if 1 <= r.digits <= 9 then Ok else InvalidArgument
    else if r.digits == 0 then Ok else InvalidArgument
  }

  function Maximum(f: nat, interval: bool): nat {
    if f == YEAR then 9999 else if f == MONTH then (if interval then 11 else 12)
    else if f == DAY then 31 else if f == HOUR then 23 else 59
  }

  function Minimum(f: nat, interval: bool): nat {
    if !interval && f <= DAY then 1 else 0
  }

  /** A field outside the range must be zero; one inside has its limits, except the leading field of an interval. */
  function FieldStatus(p: Parts, interval: bool, f: nat): (s: Status)
    requires f < |p.values|
    ensures s in {Ok, InvalidArgument, OutOfRange}
  {
    if f < p.range.first || f > p.range.last then if p.values[f] == 0 then Ok else InvalidArgument
    else if interval && f == p.range.first then Ok
    else if Minimum(f, interval) <= p.values[f] <= Maximum(f, interval) then Ok else OutOfRange
  }

  /** The first complaint about the fields from f on. */
  function FieldsStatus(p: Parts, interval: bool, f: nat): (s: Status)
    requires |p.values| == 7
    ensures s in {Ok, InvalidArgument, OutOfRange}
    decreases 7 - f
  {
    if f >= 7 then Ok
    else if FieldStatus(p, interval, f) != Ok then FieldStatus(p, interval, f)
    else FieldsStatus(p, interval, f + 1)
  }

  /** Day and month together, February with its most days if no year is known. */
  predicate DayFits(p: Parts, interval: bool)
    requires |p.values| == 7
  {
    !interval && 1 <= p.values[MONTH] <= 12 && p.values[DAY] != 0 ==>
      p.values[DAY] <= Calendar.DaysInMonth(p.values[YEAR], p.values[MONTH])
  }

  /** Number of nanoseconds one unit of the last fraction digit stands for. */
  function Factor(digits: nat): (p: nat)
    requires digits <= 9
    ensures p > 0
  {
    Pow10(9 - digits)
  }

  /** Nanoseconds in units of the last fraction digit. */
  function Units(nanosecond: nat, digits: nat): nat
    requires digits <= 9
  {
    if digits == 0 then nanosecond / 1_000_000_000 else Cut(nanosecond, 9 - digits)
  }

  /** Whether so many fraction digits are enough. */
  predicate Whole(nanosecond: nat, digits: nat)
    requires digits <= 9
  {
    if digits == 0 then nanosecond % 1_000_000_000 == 0 else Rounded(nanosecond, 9 - digits)
  }

  /** The nanoseconds of units of the last fraction digit. */
  function Nanoseconds(units: nat, digits: nat): nat
    requires digits <= 9
  {
    if digits == 0 then units * 1_000_000_000 else Shifted(units, 9 - digits)
  }

  lemma {:induction false} Billion()
    ensures Pow10(9) == 1_000_000_000
  {
    assert Pow10(3) == 1000 && Pow10(6) == 1_000_000;
  }

  /** These are the quotient, the remainder and the product by the factor. */
  lemma UnitsOfFactor(n: nat, digits: nat)
    requires digits <= 9
    ensures Units(n, digits) == Quotient(n, Factor(digits))
    ensures Whole(n, digits) <==> Remainder(n, Factor(digits)) == 0
    ensures Nanoseconds(n, digits) == Product(n, Factor(digits))
  {
    if digits == 0 { Billion(); }
    CutIs(n, 9 - digits);
    ShiftedIs(n, 9 - digits);
  }

  lemma UnitsOfNanoseconds(units: nat, digits: nat)
    requires digits <= 9
    ensures Units(Nanoseconds(units, digits), digits) == units && Whole(Nanoseconds(units, digits), digits)
  {
    CutOfShifted(units, 9 - digits);
  }

  lemma NanosecondsOfUnits(nanosecond: nat, digits: nat)
    requires digits <= 9 && Whole(nanosecond, digits)
    ensures Nanoseconds(Units(nanosecond, digits), digits) == nanosecond
  {
    if digits > 0 { ShiftedOfCut(nanosecond, 9 - digits); }
  }

  lemma NoFraction(digits: nat)
    requires digits <= 9
    ensures Units(0, digits) == 0 && Whole(0, digits) && Nanoseconds(0, digits) == 0
  {
    NothingCut(9 - digits);
  }

  /** Less than a second is less than 10^digits units, and the other way round. */
  lemma UnitsFit(nanosecond: nat, units: nat, digits: nat)
    requires digits <= 9
    ensures nanosecond < 1_000_000_000 ==> Units(nanosecond, digits) < Pow10(digits)
    ensures units < Pow10(digits) ==> Nanoseconds(units, digits) < 1_000_000_000
  {
    Billion();
    if digits > 0 {
      if nanosecond < 1_000_000_000 { CutBelow(nanosecond, 9 - digits, digits); }
      if units < Pow10(digits) { ShiftedBelow(units, 9 - digits, digits); }
    }
  }

  function FractionStatus(p: Parts): Status {
    if p.range.last != FRACTION then if p.nanosecond == 0 then Ok else InvalidArgument
    else if p.nanosecond >= 1_000_000_000 then OutOfRange
    else if p.range.digits > 9 || !Whole(p.nanosecond, p.range.digits) then Inexact
    else Ok
  }

  function Validated(p: Parts, interval: bool): Status
    requires |p.values| == 7
  {
    var range := RangeStatus(p.range, interval, p.isNull);
    if range != Ok || p.isNull then range
    else if FieldsStatus(p, interval, YEAR) != Ok then FieldsStatus(p, interval, YEAR)
    else if !DayFits(p, interval) then OutOfRange
    else FractionStatus(p)
  }

  predicate IsZero(p: Parts) {
    p.nanosecond == 0 && forall f :: 0 <= f < |p.values| ==> p.values[f] == 0
  }

  /** What importing parts stores: NULL clears the fields, and an interval of zero has no sign. */
  function Imported(p: Parts, interval: bool): Result<Parts>
    requires |p.values| == 7
  {
    if !interval && !p.isNull && p.values[YEAR] < 0 then Bad(OutOfRange)
    else if Validated(p, interval) != Ok then Bad(Validated(p, interval))
    else if p.isNull then Good(NullParts(p.range))
    else Good(p.(negative := p.negative && !IsZero(p)))
  }

  /** What every stored value satisfies. */
  ghost predicate Stored(p: Parts, interval: bool) {
    Typed(p, interval) && Imported(p, interval) == Good(p)
  }

  /** Importing keeps or refuses: what it stores is stored again unchanged. */
  lemma ImportedIsStored(p: Parts, interval: bool)
    requires Typed(p, interval) && Imported(p, interval).Good?
    ensures Stored(Imported(p, interval).value, interval)
  {
    var q := Imported(p, interval).value;
    if !p.isNull { SameStatus(p, q, interval, YEAR); }
  }

  lemma {:induction false} SameStatus(p: Parts, q: Parts, interval: bool, f: nat)
    requires |p.values| == 7 && q.values == p.values && q.range.first == p.range.first && q.range.last == p.range.last
    ensures FieldsStatus(p, interval, f) == FieldsStatus(q, interval, f)
    decreases 7 - f
  {
    if f < 7 { SameStatus(p, q, interval, f + 1); }
  }

  /** No complaint means none about any field. */
  lemma {:induction false} NoComplaint(p: Parts, interval: bool, from: nat, f: nat)
    requires |p.values| == 7 && FieldsStatus(p, interval, from) == Ok && from <= f < 7
    ensures FieldStatus(p, interval, f) == Ok
    decreases f - from
  {
    if from < f { NoComplaint(p, interval, from + 1, f); }
  }

  /** A non-NULL value is valid exactly if its range is, fields outside it are zero, those inside have their
      limits except the leading field of an interval, the day exists, and the fraction is no finer than stated. */
  lemma ValidExactly(p: Parts, interval: bool)
    requires |p.values| == 7 && !p.isNull
    ensures Validated(p, interval) == Ok <==>
              && RangeStatus(p.range, interval, false) == Ok
              && (forall f :: YEAR <= f <= SECOND ==>
                    if p.range.first <= f <= p.range.last
                    then (interval && f == p.range.first) || Minimum(f, interval) <= p.values[f] <= Maximum(f, interval)
                    else p.values[f] == 0)
              && DayFits(p, interval)
              && (if p.range.last == FRACTION
                  then p.nanosecond < 1_000_000_000 && Whole(p.nanosecond, p.range.digits)
                  else p.nanosecond == 0)
  {
    if FieldsStatus(p, interval, YEAR) == Ok {
      forall f | YEAR <= f <= SECOND ensures FieldStatus(p, interval, f) == Ok { NoComplaint(p, interval, YEAR, f); }
    } else {
      var f := FirstComplaint(p, interval, YEAR);
    }
  }

  lemma {:induction false} FirstComplaint(p: Parts, interval: bool, from: nat) returns (f: nat)
    requires |p.values| == 7 && FieldsStatus(p, interval, from) != Ok
    ensures from <= f < 7 && FieldStatus(p, interval, f) != Ok
    decreases 7 - from
  {
    if FieldStatus(p, interval, from) != Ok { f := from; } else { f := FirstComplaint(p, interval, from + 1); }
  }

  /** A valid DATETIME with year, month and day is a date of the calendar. */
  lemma ValidIsADay(p: Parts)
    requires |p.values| == 7 && !p.isNull && Validated(p, false) == Ok && p.range.first == YEAR && p.range.last >= DAY
    ensures 1 <= p.values[YEAR] <= 9999
    ensures Calendar.ValidDay(Calendar.Day(p.values[YEAR], p.values[MONTH], p.values[DAY]))
  {
    NoComplaint(p, false, YEAR, YEAR);
    NoComplaint(p, false, YEAR, MONTH);
    NoComplaint(p, false, YEAR, DAY);
  }

  method Validate(p: Parts, interval: bool) returns (status: Status)
    requires |p.values| == 7
    ensures status == Validated(p, interval)
  {
    status := RangeStatus(p.range, interval, p.isNull);
    if status != Ok || p.isNull { return; }
    status := ValidateFields(p, interval);
    if status != Ok { return; }
    if !interval && p.values[MONTH] != 0 && p.values[DAY] != 0 {
      NoComplaint(p, interval, YEAR, MONTH);
      if p.values[DAY] > Calendar.DaysInMonth(p.values[YEAR], p.values[MONTH]) { return OutOfRange; }
    }
    if p.range.last != FRACTION { return if p.nanosecond == 0 then Ok else InvalidArgument; }
    if p.nanosecond >= 1_000_000_000 { return OutOfRange; }
    UnitsOfFactor(p.nanosecond, p.range.digits);
    if Remainder(p.nanosecond, Factor(p.range.digits)) != 0 { return Inexact; }
    return Ok;
  }

  method ValidateFields(p: Parts, interval: bool) returns (status: Status)
    requires |p.values| == 7
    ensures status == FieldsStatus(p, interval, YEAR)
  {
    for field := YEAR to FRACTION
      invariant FieldsStatus(p, interval, YEAR) == FieldsStatus(p, interval, field)
    {
      var magnitude := p.values[field];
      if field < p.range.first || field > p.range.last {
        if magnitude != 0 { return InvalidArgument; }
      } else if !(interval && field == p.range.first) {
        var minimum := if !interval && field <= DAY then 1 else 0;
        var maximum := if field == YEAR then 9999 else if field == MONTH then (if interval then 11 else 12)
          else if field == DAY then 31 else if field == HOUR then 23 else 59;
        if magnitude < minimum || magnitude > maximum { return OutOfRange; }
      }
    }
    return Ok;
  }

  /** A stored value; the source has one such object for DATETIME and one for INTERVAL. */
  class Temporal {
    const interval: bool
    var parts: Parts

    ghost predicate Valid()
      reads this
    {
      Stored(parts, interval)
    }

    constructor (interval: bool)
      ensures Valid() && this.interval == interval && parts == NullParts(NO_RANGE)
    {
      this.interval := interval;
      parts := NullParts(NO_RANGE);
    }

    method SetNull()
      requires Valid()
      modifies this
      ensures Valid() && parts == NullParts(old(parts.range))
    {
      parts := NullParts(parts.range);
    }

    method SetParts(p: Parts) returns (status: Status)
      requires Valid() && Typed(p, interval)
      modifies this
      ensures Valid() && status == Imported(p, interval).Code()
      ensures status == Ok ==> Imported(p, interval) == Good(parts)
      ensures status != Ok ==> parts == old(parts)
    {
      if !interval && !p.isNull && p.values[YEAR] < 0 { return OutOfRange; }
      status := Validate(p, interval);
      if status != Ok { return; }
      ImportedIsStored(p, interval);
      if p.isNull {
        parts := NullParts(p.range);
        return;
      }
      var zero := p.nanosecond == 0;
      for field := YEAR to FRACTION
        invariant zero == (p.nanosecond == 0 && forall f :: 0 <= f < field ==> p.values[f] == 0)
      {
        zero := zero && p.values[field] == 0;
      }
      parts := if zero then p.(negative := false) else p;
    }
  }
}
