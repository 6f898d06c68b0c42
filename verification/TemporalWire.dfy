/** DATETIME and INTERVAL payloads (src/sqli_temporal_codec.c:114-403): each field in base-100 groups, the
    groups shifted left past leading zeros with the exponent lowered as much, complemented if negative. */
module TemporalWire {
  import opened Status
  import opened Radix
  import opened Base100
  import opened Numbers
  import DecimalWire
  import opened Temporals

  const WIRE_CAPACITY: nat := 12

  /** A decoded qualifier: leading is the precision of the first field, exponent the base-100 exponent
      a payload has if none of its groups is dropped. */
  datatype WireRange = WireRange(range: Range, leading: nat, fields: nat, fraction: nat, exponent: nat) {
    function Groups(): nat {
      fields + fraction
    }

    function Width(): nat {
      1 + Groups()
    }

    /** Last integral field. */
    function LastField(): nat {
      if range.last > SECOND then SECOND else range.last
    }
  }

  /** The three parts of a qualifier: total digits, and the codes of first and last field. */
  function ReadCodes(digits: nat, start: nat, end: nat, interval: bool): Result<WireRange>
    requires start < 16 && end < 16
  {
    if start > 12 || start % 2 != 0 || (end <= 10 && (end % 2 != 0 || end < start)) || (start == 12 && end <= 10)
    then Bad(ProtoError)
    else
      var range := if end > 10 then Range(start / 2 + YEAR, FRACTION, end - 10)
                   else Range(start / 2 + YEAR, end / 2 + YEAR, 0);
      if interval && range.first <= MONTH && range.last > MONTH then Bad(ProtoError)
      else if start == 12 then
        if digits != range.digits then Bad(ProtoError) else Good(WireRange(range, 0, 0, (range.digits + 1) / 2, 0))
      else if digits <= end - start then Bad(ProtoError)
      else
        var leading := digits - (end - start);
        if interval && leading > 9 then Bad(ProtoError)
        else if !interval && leading != (if start == 0 then 4 else 2) then Bad(ProtoError)
        else
          var last := if end > 10 then 10 else end;
          var fields := (leading + 1) / 2 + (last - start) / 2;
          Good(WireRange(range, leading, fields, (range.digits + 1) / 2, fields + (10 - last) / 2))
  }

  function ReadQualifier(qualifier: nat, interval: bool): Result<WireRange>
    requires qualifier < 0x1_0000
  {
    ReadCodes(qualifier / 256, qualifier / 16 % 16, qualifier % 16, interval)
  }

  function DecodeQualifier(qualifier: nat, interval: bool): Result<WireRange>
    requires qualifier < 0x1_0000
  {
    match ReadQualifier(qualifier, interval)
    case Bad(s) => Bad(s)
    case Good(r) => if r.Width() > WIRE_CAPACITY then Bad(ProtoError) else Good(r)
  }

  /** What decoding a qualifier establishes. */
  predicate WellFormed(r: WireRange) {
    && YEAR <= r.range.first <= r.range.last <= FRACTION
    && (if r.range.last == FRACTION then 1 <= r.range.digits <= 5 else r.range.digits == 0)
    && r.fraction == (r.range.digits + 1) / 2
    && (if r.range.first == FRACTION then r.leading == 0 && r.fields == 0
        else 1 <= r.leading <= 9 && r.fields == (r.leading + 1) / 2 + r.LastField() - r.range.first)
    && r.Width() <= WIRE_CAPACITY && r.exponent <= WIRE_CAPACITY
  }

  /** Every qualifier that is read is well formed and stands for a valid range; its payload always fits
      the capacity, so that check refuses none. */
  lemma {:induction false} QualifierIsWellFormed(qualifier: nat, interval: bool)
    requires qualifier < 0x1_0000
    ensures DecodeQualifier(qualifier, interval) == ReadQualifier(qualifier, interval)
    ensures DecodeQualifier(qualifier, interval).Good? ==>
              var r := DecodeQualifier(qualifier, interval).value;
              && WellFormed(r) && RangeStatus(r.range, interval, false) == Ok
              && r.exponent == (if r.range.first == FRACTION then 0 else r.fields + SECOND - r.LastField())
              && (!interval && r.leading > 0 ==> r.leading == if r.range.first == YEAR then 4 else 2)
  {
    if ReadQualifier(qualifier, interval).Good? {
      CodesAreWellFormed(qualifier / 256, qualifier / 16 % 16, qualifier % 16, interval);
    }
  }

  lemma {:induction false} CodesAreWellFormed(digits: nat, start: nat, end: nat, interval: bool)
    requires start < 16 && end < 16 && ReadCodes(digits, start, end, interval).Good?
    ensures var r := ReadCodes(digits, start, end, interval).value;
            && WellFormed(r) && RangeStatus(r.range, interval, false) == Ok
            && r.exponent == (if r.range.first == FRACTION then 0 else r.fields + SECOND - r.LastField())
            && (!interval && r.leading > 0 ==> r.leading == if r.range.first == YEAR then 4 else 2)
  {
    assert start in {0, 2, 4, 6, 8, 10, 12};
  }

  // ---- Where the fields stand ---------------------------------------------------------------

  function FieldWidth(r: WireRange, f: nat): nat {
    if f == r.range.first then (r.leading + 1) / 2 else 1
  }

  /** Group at which a field starts. */
  function FieldStart(r: WireRange, f: nat): nat
    requires r.range.first <= f
  {
    if f == r.range.first then 0 else (r.leading + 1) / 2 + (f - r.range.first - 1)
  }

  /** The fraction digits as groups, a zero appended to an odd number of them. */
  function FractionGroups(nanosecond: nat, digits: nat): nat
    requires digits <= 5
  {
    if digits % 2 == 1 then 10 * Units(nanosecond, digits) else Units(nanosecond, digits)
  }

  /** The groups carry these fields. */
  ghost predicate Carries(r: WireRange, g: seq<byte>, values: seq<int>, nanosecond: nat)
    requires WellFormed(r)
  {
    && AreGroups(g) && |g| == r.Groups() && |values| == 7
    && (forall f {:trigger FieldIn(r, g, f)} :: r.range.first <= f <= r.LastField() ==> values[f] == FieldIn(r, g, f))
    && GroupsValue(g, r.fields, r.Groups()) == FractionGroups(nanosecond, r.range.digits)
  }

  function FieldIn(r: WireRange, g: seq<byte>, f: nat): nat
    requires WellFormed(r) && |g| == r.Groups() && r.range.first <= f <= r.LastField()
  {
    GroupsValue(g, FieldStart(r, f), FieldStart(r, f) + FieldWidth(r, f))
  }

  /** Every integral group belongs to a field. */
  function FieldOf(r: WireRange, i: nat): (f: nat)
    requires WellFormed(r) && i < r.fields
    ensures r.range.first <= f <= r.LastField()
    ensures FieldStart(r, f) <= i < FieldStart(r, f) + FieldWidth(r, f)
  {
    var w := (r.leading + 1) / 2;
    if i < w then r.range.first else r.range.first + 1 + (i - w)
  }

  lemma {:induction false} SameField(r: WireRange, g: seq<byte>, h: seq<byte>, i: nat)
    requires WellFormed(r) && AreGroups(g) && AreGroups(h) && |g| == |h| == r.Groups() && i < r.fields
    requires FieldIn(r, g, FieldOf(r, i)) == FieldIn(r, h, FieldOf(r, i))
    ensures g[i] == h[i]
  {
    var f := FieldOf(r, i);
    ValueDetermines(g, h, FieldStart(r, f), FieldStart(r, f) + FieldWidth(r, f));
  }

  /** Two groups have the same number in every field and the same fraction. */
  predicate SameFields(r: WireRange, g: seq<byte>, h: seq<byte>)
    requires WellFormed(r)
  {
    && AreGroups(g) && AreGroups(h) && |g| == |h| == r.Groups()
    && (forall f :: r.range.first <= f <= r.LastField() ==> FieldIn(r, g, f) == FieldIn(r, h, f))
    && GroupsValue(g, r.fields, r.Groups()) == GroupsValue(h, r.fields, r.Groups())
  }

  /** Then they are the same groups. */
  lemma {:induction false} CarriedOnce(r: WireRange, g: seq<byte>, h: seq<byte>)
    requires WellFormed(r) && SameFields(r, g, h)
    ensures g == h
  {
    ValueDetermines(g, h, r.fields, r.Groups());
    forall i | 0 <= i < |g| ensures g[i] == h[i] {
      if i < r.fields { SameField(r, g, h, i); }
    }
  }

  lemma {:induction false} BothCarry(r: WireRange, g: seq<byte>, h: seq<byte>, values: seq<int>, nanosecond: nat)
    requires WellFormed(r) && Carries(r, g, values, nanosecond) && Carries(r, h, values, nanosecond)
    ensures SameFields(r, g, h)
  {
  }

  // ---- Packing and unpacking fields ---------------------------------------------------------

  /** The groups of the fields up to f, each cut to its width. */
  function FieldGroups(r: WireRange, values: seq<int>, f: nat): seq<byte>
    requires |values| == 7 && f < 7 && forall k :: 0 <= k < 7 ==> values[k] >= 0
    decreases f
  {
    if f < r.range.first || f == 0 then [] else FieldGroups(r, values, f - 1) + GroupsOf(FieldWidth(r, f), values[f])
  }

  function PackedGroups(r: WireRange, values: seq<int>, fraction: nat): seq<byte>
    requires WellFormed(r) && |values| == 7 && forall k :: 0 <= k < 7 ==> values[k] >= 0
  {
    FieldGroups(r, values, r.LastField()) + GroupsOf(r.fraction, fraction)
  }

  /** The fields can be carried without loss. */
  predicate Packable(r: WireRange, values: seq<int>, nanosecond: nat)
    requires WellFormed(r) && |values| == 7
  {
    && (forall f :: 0 <= f < 7 ==> values[f] >= 0)
    && (forall f :: r.range.first < f <= r.LastField() ==> values[f] < 100)
    && (r.leading > 0 ==> values[r.range.first] < Pow10(r.leading))
    && Whole(nanosecond, r.range.digits) && nanosecond < 1_000_000_000
    && (forall f :: 0 <= f < 7 && (f < r.range.first || f > r.LastField()) ==> values[f] == 0)
  }

  lemma {:induction false} FieldGroupsSize(r: WireRange, values: seq<int>, f: nat)
    requires |values| == 7 && f < 7 && (forall k :: 0 <= k < 7 ==> values[k] >= 0) && WellFormed(r)
    requires r.range.first <= f
    ensures |FieldGroups(r, values, f)| == FieldStart(r, f) + FieldWidth(r, f) && AreGroups(FieldGroups(r, values, f))
    decreases f
  {
    if r.range.first < f { FieldGroupsSize(r, values, f - 1); } else { assert FieldGroups(r, values, f - 1) == []; }
  }

  /** The groups of field k stand at its place among those of the fields up to f. */
  lemma {:induction false} FieldSlice(r: WireRange, values: seq<int>, f: nat, k: nat)
    requires WellFormed(r) && |values| == 7 && r.range.first <= k <= f <= r.LastField()
    requires forall k :: 0 <= k < 7 ==> values[k] >= 0
    ensures |FieldGroups(r, values, f)| == FieldStart(r, f) + FieldWidth(r, f)
    ensures FieldStart(r, k) + FieldWidth(r, k) <= |FieldGroups(r, values, f)|
    ensures FieldGroups(r, values, f)[FieldStart(r, k)..FieldStart(r, k) + FieldWidth(r, k)]
            == GroupsOf(FieldWidth(r, k), values[k])
    decreases f
  {
    FieldGroupsSize(r, values, f);
    var p, a, b := FieldGroups(r, values, f), FieldStart(r, k), FieldStart(r, k) + FieldWidth(r, k);
    var q, field := FieldGroups(r, values, f - 1), GroupsOf(FieldWidth(r, f), values[f]);
    if r.range.first < f { FieldGroupsSize(r, values, f - 1); } else { assert q == []; }
    SliceOfSum(q, field, a, b);
    if k < f { FieldSlice(r, values, f - 1, k); }
  }

  lemma {:induction false} SliceOfSum(q: seq<byte>, tail: seq<byte>, a: nat, b: nat)
    requires a <= b <= |q| + |tail|
    ensures b <= |q| ==> (q + tail)[a..b] == q[a..b]
    ensures a == |q| && b == |q| + |tail| ==> (q + tail)[a..b] == tail
  {
  }

  lemma {:induction false} SliceValue(g: seq<byte>, start: nat, w: nat, v: nat)
    requires start + w <= |g| && v < Pow100(w) && g[start..start + w] == GroupsOf(w, v)
    ensures GroupsValue(g, start, start + w) == v
  {
    var field := GroupsOf(w, v);
    GroupsOfValue(w, v);
    assert forall i :: 0 <= i < w ==> field[i] == g[start..start + w][i] == g[start + i];
    ValueMoved(field, 0, w, g, start);
  }

  lemma {:induction false} PackedSize(r: WireRange, values: seq<int>, fraction: nat)
    requires WellFormed(r) && |values| == 7 && forall k :: 0 <= k < 7 ==> values[k] >= 0
    ensures |PackedGroups(r, values, fraction)| == r.Groups() && AreGroups(PackedGroups(r, values, fraction))
    ensures |FieldGroups(r, values, r.LastField())| == r.fields
  {
    if r.range.first <= SECOND {
      FieldGroupsSize(r, values, r.LastField());
    } else {
      assert FieldGroups(r, values, SECOND) == [];
    }
  }

  lemma {:induction false} PackedField(r: WireRange, values: seq<int>, nanosecond: nat, fraction: nat, f: nat)
    requires WellFormed(r) && |values| == 7 && Packable(r, values, nanosecond)
    requires r.range.first <= f <= r.LastField()
    ensures |PackedGroups(r, values, fraction)| == r.Groups()
    ensures FieldIn(r, PackedGroups(r, values, fraction), f) == values[f]
  {
    var w, start := FieldWidth(r, f), FieldStart(r, f);
    PackedSize(r, values, fraction);
    FieldSlice(r, values, r.LastField(), f);
    FieldFits(r, values, nanosecond, f);
    SliceOfSum(FieldGroups(r, values, r.LastField()), GroupsOf(r.fraction, fraction), start, start + w);
    SliceValue(PackedGroups(r, values, fraction), start, w, values[f]);
  }

  lemma {:induction false} FieldFits(r: WireRange, values: seq<int>, nanosecond: nat, f: nat)
    requires WellFormed(r) && |values| == 7 && Packable(r, values, nanosecond)
    requires r.range.first <= f <= r.LastField()
    ensures 0 <= values[f] < Pow100(FieldWidth(r, f))
  {
    if f == r.range.first {
      PowMono(r.leading, 2 * FieldWidth(r, f));
    } else {
      assert Pow100(1) == 100;
    }
  }

  // ---- Fractions ----------------------------------------------------------------------------

  /** The nanoseconds fraction groups stand for; a digit appended to an odd number must be zero. */
  function NanosecondsOf(groups: nat, digits: nat): Result<nat>
    requires digits <= 5
  {
    if digits % 2 == 1 && groups % 10 != 0 then Bad(ProtoError)
    else Good(Nanoseconds(if digits % 2 == 1 then groups / 10 else groups, digits))
  }

  lemma {:induction false} FractionFits(nanosecond: nat, digits: nat)
    requires digits <= 5 && nanosecond < 1_000_000_000
    ensures FractionGroups(nanosecond, digits) < Pow100((digits + 1) / 2)
  {
    UnitsFit(nanosecond, 0, digits);
    PairsAreDigits(digits);
  }

  /** An odd number of digits with one more makes whole pairs. */
  lemma {:induction false} PairsAreDigits(digits: nat)
    requires digits <= 5
    ensures Pow100((digits + 1) / 2) == if digits % 2 == 1 then 10 * Pow10(digits) else Pow10(digits)
  {
    assert Pow100(0) == 1 && Pow100(1) == 100;
    Pow100Step(1);
    Pow100Step(2);
    assert Pow10(1) == 10 && Pow10(2) == 100 && Pow10(3) == 1000 && Pow10(4) == 10_000 && Pow10(5) == 100_000;
  }

  lemma {:induction false} FractionRead(nanosecond: nat, digits: nat)
    requires digits <= 5 && Whole(nanosecond, digits)
    ensures NanosecondsOf(FractionGroups(nanosecond, digits), digits) == Good(nanosecond)
  {
    NanosecondsOfUnits(nanosecond, digits);
  }

  lemma {:induction false} FractionWritten(groups: nat, digits: nat)
    requires digits <= 5 && groups < Pow100((digits + 1) / 2) && NanosecondsOf(groups, digits).Good?
    ensures var n := NanosecondsOf(groups, digits).value;
            && n < 1_000_000_000 && Whole(n, digits) && FractionGroups(n, digits) == groups
  {
    var units := if digits % 2 == 1 then groups / 10 else groups;
    UnitsOfNanoseconds(units, digits);
    PairsAreDigits(digits);
    UnitsFit(0, units, digits);
  }

  lemma {:induction false} PackedFraction(r: WireRange, q: seq<byte>, g: seq<byte>, fraction: nat)
    requires |q| == r.fields && fraction < Pow100(r.fraction) && g == q + GroupsOf(r.fraction, fraction)
    ensures |g| == r.Groups() && GroupsValue(g, r.fields, r.Groups()) == fraction
  {
    LastSliceValue(q, r.fraction, fraction);
  }

  lemma {:induction false} LastSliceValue(q: seq<byte>, w: nat, v: nat)
    requires v < Pow100(w)
    ensures GroupsValue(q + GroupsOf(w, v), |q|, |q| + w) == v
  {
    SliceOfSum(q, GroupsOf(w, v), |q|, |q| + w);
    SliceValue(q + GroupsOf(w, v), |q|, w, v);
  }

  /** Packing writes groups that carry the fields. */
  lemma {:induction false} PackedCarries(r: WireRange, values: seq<int>, nanosecond: nat, fraction: nat)
    requires WellFormed(r) && |values| == 7 && Packable(r, values, nanosecond)
    requires fraction == FractionGroups(nanosecond, r.range.digits)
    ensures Carries(r, PackedGroups(r, values, fraction), values, nanosecond)
  {
    FractionFits(nanosecond, r.range.digits);
    PackedSize(r, values, fraction);
    PackedFraction(r, FieldGroups(r, values, r.LastField()), PackedGroups(r, values, fraction), fraction);
    PackedFields(r, values, nanosecond, fraction);
  }

  lemma {:induction false} PackedFields(r: WireRange, values: seq<int>, nanosecond: nat, fraction: nat)
    requires WellFormed(r) && |values| == 7 && Packable(r, values, nanosecond)
    ensures |PackedGroups(r, values, fraction)| == r.Groups()
    ensures forall f :: r.range.first <= f <= r.LastField() ==>
              values[f] == FieldIn(r, PackedGroups(r, values, fraction), f)
  {
    PackedSize(r, values, fraction);
    forall f | r.range.first <= f <= r.LastField()
      ensures values[f] == FieldIn(r, PackedGroups(r, values, fraction), f)
    {
      PackedField(r, values, nanosecond, fraction, f);
    }
  }

  // ---- Dropping leading zero groups ------------------------------------------------------------

  function LeadingZeros(g: seq<byte>, from: nat): (k: nat)
    requires from <= |g|
    ensures from <= k <= |g| && (forall i :: from <= i < k ==> g[i] == 0) && (k < |g| ==> g[k] != 0)
    decreases |g| - from
  {
    if from < |g| && g[from] == 0 then LeadingZeros(g, from + 1) else from
  }

  /** The groups moved left past k leading zeros, zeros following. */
  function Raised(g: seq<byte>, k: nat): seq<byte> {
    seq(|g|, i requires 0 <= i < |g| => if i + k < |g| then g[i + k] else 0)
  }

  /** Moving right by an offset loses nothing. */
  predicate Movable(c: seq<byte>, offset: int) {
    forall i :: 0 <= i < |c| ==> 0 <= offset + i < |c| || c[i] == 0
  }

  /** The groups moved right by an offset, into their fields. */
  function Lowered(c: seq<byte>, offset: int): seq<byte> {
    seq(|c|, i requires 0 <= i < |c| => if 0 <= i - offset < |c| then c[i - offset] else 0)
  }

  lemma {:induction false} RaisedLowers(g: seq<byte>)
    requires !DecimalWire.AllZero(g)
    ensures var k := LeadingZeros(g, 0); var c := Raised(g, k);
            k < |g| && c[0] != 0 && Movable(c, k) && Lowered(c, k) == g
  {
    var k := LeadingZeros(g, 0);
    assert forall i :: 0 <= i < |g| ==> Lowered(Raised(g, k), k)[i] == g[i];
  }

  lemma {:induction false} LoweredRaises(c: seq<byte>, offset: int)
    requires |c| > 0 && c[0] != 0 && Movable(c, offset)
    ensures 0 <= offset < |c|
    ensures var g := Lowered(c, offset);
            !DecimalWire.AllZero(g) && LeadingZeros(g, 0) == offset && Raised(g, offset) == c
  {
    assert 0 <= offset + 0 < |c|;
    var g := Lowered(c, offset);
    assert g[offset] == c[0];
    assert forall i :: 0 <= i < offset ==> g[i] == 0;
    forall i | 0 <= i < |c| ensures Raised(g, offset)[i] == c[i] {
      if i + offset >= |c| { assert c[i] == 0; }
    }
  }

  /** Moving the groups left by k multiplies their number by 100^k, which the lower exponent makes up for. */
  lemma {:induction false} RaisedNumber(g: seq<byte>, k: nat)
    requires k <= LeadingZeros(g, 0)
    ensures Base100.Number(Raised(g, k)) == Product(Base100.Number(g), Pow100(k))
  {
    var c, w := Raised(g, k), |g|;
    WithoutZeros(g, k);
    TrailingGroups(c, w - k);
    ValueMoved(g, k, w, c, 0);
  }

  lemma {:induction false} WithoutZeros(g: seq<byte>, k: nat)
    requires k <= |g| && forall i :: 0 <= i < k ==> g[i] == 0
    ensures Base100.Number(g) == GroupsValue(g, k, |g|)
  {
    ValueSplits(g, 0, k, |g|);
    ValueZeros(g, 0, k);
  }

  lemma {:induction false} TrailingGroups(c: seq<byte>, n: nat)
    requires n <= |c| && forall i :: n <= i < |c| ==> c[i] == 0
    ensures Base100.Number(c) == Product(GroupsValue(c, 0, n), Pow100(|c| - n))
  {
    ValueSplits(c, 0, n, |c|);
    ValueZeros(c, n, |c|);
  }

  // ---- Payloads -----------------------------------------------------------------------------

  datatype Fields = NullFields | Fields(values: seq<int>, nanosecond: nat, negative: bool)

  /** The payload of groups: no sign or exponent for zero. */
  function PayloadOf(exponent: nat, g: seq<byte>, negative: bool): (bytes: seq<byte>)
    requires exponent <= 63 && |g| <= 64 && AreGroups(g)
    ensures |bytes| == |g| + 1
  {
    if DecimalWire.AllZero(g) then [128] + g
    else Framed(negative, exponent - LeadingZeros(g, 0), Raised(g, LeadingZeros(g, 0)))
  }

  /** Header and groups with this sign and exponent. */
  function Framed(negative: bool, e: int, c: seq<byte>): (bytes: seq<byte>)
    requires -64 <= e <= 63 && AreGroups(c)
    ensures |bytes| == |c| + 1
  {
    DecimalWire.Payload(negative, e, Base100.Number(c), |c|)
  }

  function Pack(r: WireRange, f: Fields): Result<seq<byte>>
    requires WellFormed(r) && (f.Fields? ==> |f.values| == 7 && forall k :: 0 <= k < 7 ==> f.values[k] >= 0)
  {
    if f.NullFields? then Good(GroupsOf(r.Width(), 0))
    else if r.leading > 0 && f.values[r.range.first] >= Pow10(r.leading) then Bad(OutOfRange)
    else if !Whole(f.nanosecond, r.range.digits) then Bad(Inexact)
    else
      var fraction := FractionGroups(f.nanosecond, r.range.digits);
      PackedSize(r, f.values, fraction);
      Good(PayloadOf(r.exponent, PackedGroups(r, f.values, fraction), f.negative))
  }

  /** Plain groups moved into their places, or why the payload is refused. */
  function Placed(header: byte, c: seq<byte>, exponent: int): (g: Result<seq<byte>>)
    requires |c| > 0
    ensures g.Good? ==> |g.value| == |c|
  {
    if DecimalWire.AllZero(c) then if header == 128 then Good(c) else Bad(ProtoError)
    else if c[0] == 0 || !Movable(c, exponent - DecimalWire.ExponentOf(header)) then Bad(ProtoError)
    else Good(Lowered(c, exponent - DecimalWire.ExponentOf(header)))
  }

  function GroupsIn(r: WireRange, bytes: seq<byte>): (g: Result<seq<byte>>)
    requires WellFormed(r) && |bytes| == r.Width()
    ensures g.Good? ==> |g.value| == r.Groups() && AreGroups(g.value)
  {
    if !AreGroups(bytes[1..]) then Bad(ProtoError)
    else Placed(bytes[0], DecimalWire.PlainGroups(bytes), r.exponent)
  }

  function ReadFields(r: WireRange, g: seq<byte>): (values: seq<int>)
    requires WellFormed(r) && |g| == r.Groups()
    ensures |values| == 7
  {
    seq(7, f requires 0 <= f < 7 => if r.range.first <= f <= r.LastField() then FieldIn(r, g, f) else 0)
  }

  function Unpack(r: WireRange, bytes: seq<byte>): Result<Fields>
    requires WellFormed(r)
  {
    if |bytes| != r.Width() then Bad(ProtoError)
    else if DecimalWire.AllZero(bytes) then Good(NullFields)
    else match GroupsIn(r, bytes)
      case Bad(s) => Bad(s)
      case Good(g) => UnpackedFields(r, g, bytes[0])
  }

  /** The fields of groups in their places, and the sign of the header. */
  function UnpackedFields(r: WireRange, g: seq<byte>, header: byte): Result<Fields>
    requires WellFormed(r) && |g| == r.Groups() && AreGroups(g)
  {
    var fraction := NanosecondsOf(GroupsValue(g, r.fields, r.Groups()), r.range.digits);
    if fraction.Bad? then Bad(ProtoError)
    else if r.leading > 0 && FieldIn(r, g, r.range.first) >= Pow10(r.leading) then Bad(ProtoError)
    else Good(Fields(ReadFields(r, g), fraction.value, header < 128))
  }

  /** A payload with at least one group that is not zero carries its groups, exponent and sign. */
  lemma {:induction false} CarriedGroups(c: seq<byte>, e: int, negative: bool)
    requires AreGroups(c) && !DecimalWire.AllZero(c) && -64 <= e <= 63
    ensures var bytes := Framed(negative, e, c);
            && AreGroups(bytes[1..]) && DecimalWire.PlainGroups(bytes) == c && !DecimalWire.AllZero(bytes)
            && DecimalWire.ExponentOf(bytes[0]) == e && (bytes[0] < 128 <==> negative)
  {
    NumberBelow(c);
    ValueZeros(c, 0, |c|);
    DecimalWire.PayloadGroups(negative, e, Base100.Number(c), |c|);
    var bytes := Framed(negative, e, c);
    SameNumber(DecimalWire.PlainGroups(bytes), c);
  }

  /** Placing undoes the dropping of leading zeros, and the other way round. */
  lemma {:induction false} PlacedBack(g: seq<byte>, header: byte, exponent: int)
    requires !DecimalWire.AllZero(g) && DecimalWire.ExponentOf(header) == exponent - LeadingZeros(g, 0)
    ensures !DecimalWire.AllZero(Raised(g, LeadingZeros(g, 0)))
    ensures Placed(header, Raised(g, LeadingZeros(g, 0)), exponent) == Good(g)
  {
    RaisedLowers(g);
  }

  lemma {:induction false} RaisedBack(c: seq<byte>, header: byte, exponent: int)
    requires |c| > 0 && !DecimalWire.AllZero(c) && Placed(header, c, exponent).Good?
    ensures var g := Placed(header, c, exponent).value;
            && !DecimalWire.AllZero(g) && Raised(g, LeadingZeros(g, 0)) == c
            && DecimalWire.ExponentOf(header) == exponent - LeadingZeros(g, 0)
  {
    LoweredRaises(c, exponent - DecimalWire.ExponentOf(header));
  }

  lemma {:induction false} ZeroPayload(g: seq<byte>, exponent: int)
    requires DecimalWire.AllZero(g) && |g| > 0
    ensures var bytes := [128 as byte] + g;
            && bytes[1..] == g && !DecimalWire.AllZero(bytes) && AreGroups(bytes[1..])
            && DecimalWire.PlainGroups(bytes) == g && Placed(bytes[0], g, exponent) == Good(g)
  {
    var bytes := [128 as byte] + g;
    assert bytes[1..] == g && bytes[0] == 128;
  }

  /** Groups in place, and back to the payload. */
  lemma {:induction false} GroupsOfPayload(exponent: nat, g: seq<byte>, negative: bool)
    requires exponent <= 63 && 0 < |g| <= 64 && AreGroups(g)
    ensures var bytes := PayloadOf(exponent, g, negative);
            && !DecimalWire.AllZero(bytes) && AreGroups(bytes[1..])
            && Placed(bytes[0], DecimalWire.PlainGroups(bytes), exponent) == Good(g)
            && (bytes[0] < 128 <==> negative && !DecimalWire.AllZero(g))
  {
    if DecimalWire.AllZero(g) {
      ZeroPayload(g, exponent);
    } else {
      NonzeroPayload(exponent, g, negative, exponent - LeadingZeros(g, 0), Raised(g, LeadingZeros(g, 0)));
    }
  }

  lemma {:induction false} NonzeroPayload(exponent: nat, g: seq<byte>, negative: bool, e: int, c: seq<byte>)
    requires exponent <= 63 && |g| <= 64 && AreGroups(g) && !DecimalWire.AllZero(g)
    requires e == exponent - LeadingZeros(g, 0) && c == Raised(g, LeadingZeros(g, 0))
    ensures var bytes := PayloadOf(exponent, g, negative);
            && !DecimalWire.AllZero(bytes) && AreGroups(bytes[1..]) && (bytes[0] < 128 <==> negative)
            && Placed(bytes[0], DecimalWire.PlainGroups(bytes), exponent) == Good(g)
  {
    RaisedLowers(g);
    PayloadUnfolds(exponent, g, negative, e, c);
    CarriedGroups(c, e, negative);
    PlacedBack(g, PayloadOf(exponent, g, negative)[0], exponent);
  }

  lemma {:induction false} PayloadOfGroups(exponent: nat, bytes: seq<byte>, g: seq<byte>)
    requires exponent <= 63 && 1 < |bytes| <= 65 && AreGroups(bytes[1..]) && AreGroups(g)
    requires Placed(bytes[0], DecimalWire.PlainGroups(bytes), exponent) == Good(g)
    ensures PayloadOf(exponent, g, bytes[0] < 128) == bytes
    ensures DecimalWire.AllZero(g) ==> bytes[0] == 128
  {
    var c := DecimalWire.PlainGroups(bytes);
    if DecimalWire.AllZero(c) {
      assert bytes == [128] + g;
    } else {
      PayloadIs(exponent, bytes, c, g);
    }
  }

  lemma {:induction false} PayloadIs(exponent: nat, bytes: seq<byte>, c: seq<byte>, g: seq<byte>)
    requires exponent <= 63 && 1 < |bytes| <= 65 && AreGroups(bytes[1..]) && AreGroups(g)
    requires c == DecimalWire.PlainGroups(bytes) && !DecimalWire.AllZero(c) && Placed(bytes[0], c, exponent) == Good(g)
    ensures PayloadOf(exponent, g, bytes[0] < 128) == bytes
    ensures !DecimalWire.AllZero(g)
  {
    RaisedBack(c, bytes[0], exponent);
    FramedBack(bytes);
    PayloadUnfolds(exponent, g, bytes[0] < 128, DecimalWire.ExponentOf(bytes[0]), c);
  }

  lemma {:induction false} FramedBack(bytes: seq<byte>)
    requires |bytes| > 0 && AreGroups(bytes[1..])
    ensures bytes == Framed(bytes[0] < 128, DecimalWire.ExponentOf(bytes[0]), DecimalWire.PlainGroups(bytes))
  {
    DecimalWire.GroupsPayload(bytes);
  }

  lemma {:induction false} PayloadUnfolds(exponent: nat, g: seq<byte>, negative: bool, e: int, c: seq<byte>)
    requires exponent <= 63 && |g| <= 64 && AreGroups(g) && !DecimalWire.AllZero(g)
    requires -64 <= e == exponent - LeadingZeros(g, 0) && c == Raised(g, LeadingZeros(g, 0))
    ensures PayloadOf(exponent, g, negative) == Framed(negative, e, c)
  {
  }

  /** Unpacking what was packed gives the fields back. */
  lemma {:induction false} PackedUnpacks(r: WireRange, f: Fields)
    requires WellFormed(r)
    requires f.Fields? ==>
               && |f.values| == 7 && Packable(r, f.values, f.nanosecond)
               && (f.negative ==> f.nanosecond != 0 || exists k :: 0 <= k < 7 && f.values[k] != 0)
    ensures Pack(r, f).Good? && Unpack(r, Pack(r, f).value) == Good(f)
  {
    if f.NullFields? { DecimalWire.ZeroGroups(r.Width()); } else { PackedFieldsUnpack(r, f); }
  }

  lemma {:induction false} PackedFieldsUnpack(r: WireRange, f: Fields)
    requires WellFormed(r) && f.Fields? && |f.values| == 7 && Packable(r, f.values, f.nanosecond)
    requires f.negative ==> f.nanosecond != 0 || exists k :: 0 <= k < 7 && f.values[k] != 0
    ensures Pack(r, f).Good? && Unpack(r, Pack(r, f).value) == Good(f)
  {
    var fraction := FractionGroups(f.nanosecond, r.range.digits);
    PackIs(r, f, fraction);
    PackedCarries(r, f.values, f.nanosecond, fraction);
    PayloadUnpacks(r, PackedGroups(r, f.values, fraction), f);
  }

  lemma {:induction false} PackIs(r: WireRange, f: Fields, fraction: nat)
    requires WellFormed(r) && f.Fields? && |f.values| == 7 && Packable(r, f.values, f.nanosecond)
    requires fraction == FractionGroups(f.nanosecond, r.range.digits)
    ensures var g := PackedGroups(r, f.values, fraction);
            && |g| == r.Groups() && AreGroups(g) && Pack(r, f) == Good(PayloadOf(r.exponent, g, f.negative))
  {
    PackedSize(r, f.values, fraction);
  }

  lemma {:induction false} PayloadUnpacks(r: WireRange, g: seq<byte>, f: Fields)
    requires WellFormed(r) && f.Fields? && |f.values| == 7 && Packable(r, f.values, f.nanosecond)
    requires f.negative ==> f.nanosecond != 0 || exists k :: 0 <= k < 7 && f.values[k] != 0
    requires Carries(r, g, f.values, f.nanosecond)
    ensures Unpack(r, PayloadOf(r.exponent, g, f.negative)) == Good(f)
  {
    GroupsOfPayload(r.exponent, g, f.negative);
    if DecimalWire.AllZero(g) { NothingCarried(r, g, f.values, f.nanosecond); }
    UnpackCarried(r, PayloadOf(r.exponent, g, f.negative), g, f);
  }

  lemma {:induction false} UnpackCarried(r: WireRange, bytes: seq<byte>, g: seq<byte>, f: Fields)
    requires WellFormed(r) && f.Fields? && |f.values| == 7 && Packable(r, f.values, f.nanosecond)
    requires |bytes| == r.Width() && !DecimalWire.AllZero(bytes) && GroupsIn(r, bytes) == Good(g)
    requires Carries(r, g, f.values, f.nanosecond) && f.negative == (bytes[0] < 128)
    ensures Unpack(r, bytes) == Good(f)
  {
    FractionRead(f.nanosecond, r.range.digits);
    CarriedRead(r, g, f.values, f.nanosecond);
  }

  lemma {:induction false} CarriedRead(r: WireRange, g: seq<byte>, values: seq<int>, nanosecond: nat)
    requires WellFormed(r) && |values| == 7 && Packable(r, values, nanosecond) && Carries(r, g, values, nanosecond)
    ensures ReadFields(r, g) == values
  {
  }

  lemma {:induction false} NothingCarried(r: WireRange, g: seq<byte>, values: seq<int>, nanosecond: nat)
    requires WellFormed(r) && Carries(r, g, values, nanosecond) && DecimalWire.AllZero(g)
    requires Packable(r, values, nanosecond)
    ensures nanosecond == 0 && forall k :: 0 <= k < 7 ==> values[k] == 0
  {
    forall k | r.range.first <= k <= r.LastField() ensures values[k] == 0 { EmptyField(r, g, k); }
    ValueZeros(g, r.fields, r.Groups());
    FractionRead(nanosecond, r.range.digits);
    NoFraction(r.range.digits);
  }

  lemma {:induction false} EmptyField(r: WireRange, g: seq<byte>, f: nat)
    requires WellFormed(r) && |g| == r.Groups() && DecimalWire.AllZero(g) && r.range.first <= f <= r.LastField()
    ensures FieldIn(r, g, f) == 0
  {
    FieldInside(r, f);
    EmptySpan(g, FieldStart(r, f), FieldStart(r, f) + FieldWidth(r, f));
  }

  lemma {:induction false} FieldInside(r: WireRange, f: nat)
    requires WellFormed(r) && r.range.first <= f <= r.LastField()
    ensures FieldStart(r, f) + FieldWidth(r, f) <= r.Groups()
  {
  }

  lemma {:induction false} EmptySpan(g: seq<byte>, from: nat, to: nat)
    requires to <= |g| && DecimalWire.AllZero(g)
    ensures GroupsValue(g, from, to) == 0
  {
    ValueZeros(g, from, to);
  }

  /** Packing what was unpacked gives the payload back, byte for byte. */
  lemma {:induction false} UnpackedPacks(r: WireRange, bytes: seq<byte>)
    requires WellFormed(r) && Unpack(r, bytes).Good?
    ensures var f := Unpack(r, bytes).value;
            && (f.Fields? ==> |f.values| == 7 && Packable(r, f.values, f.nanosecond))
            && Pack(r, f) == Good(bytes)
  {
    DecimalWire.ZeroGroups(r.Width());
    var f := Unpack(r, bytes).value;
    if f.Fields? {
      var g := GroupsIn(r, bytes).value;
      UnpackedFits(r, g, f.nanosecond);
      var fraction := FractionGroups(f.nanosecond, r.range.digits);
      PackedCarries(r, f.values, f.nanosecond, fraction);
      BothCarry(r, g, PackedGroups(r, f.values, fraction), f.values, f.nanosecond);
      CarriedOnce(r, g, PackedGroups(r, f.values, fraction));
      PayloadOfGroups(r.exponent, bytes, g);
    }
  }

  lemma {:induction false} UnpackedFits(r: WireRange, g: seq<byte>, nanosecond: nat)
    requires WellFormed(r) && |g| == r.Groups() && AreGroups(g)
    requires NanosecondsOf(GroupsValue(g, r.fields, r.Groups()), r.range.digits) == Good(nanosecond)
    requires r.leading > 0 ==> FieldIn(r, g, r.range.first) < Pow10(r.leading)
    ensures Packable(r, ReadFields(r, g), nanosecond) && Carries(r, g, ReadFields(r, g), nanosecond)
  {
    ValueBelow(g, r.fields, r.Groups());
    FractionWritten(GroupsValue(g, r.fields, r.Groups()), r.range.digits);
    forall f | r.range.first < f <= r.LastField() ensures FieldIn(r, g, f) < 100 { OnePair(r, g, f); }
  }

  lemma {:induction false} OnePair(r: WireRange, g: seq<byte>, f: nat)
    requires WellFormed(r) && |g| == r.Groups() && AreGroups(g) && r.range.first < f <= r.LastField()
    ensures FieldIn(r, g, f) < 100
  {
    ValueBelow(g, FieldStart(r, f), FieldStart(r, f) + 1);
    Pow100Step(0);
  }

  // ---- Values -------------------------------------------------------------------------------

  function FieldsOf(p: Parts): Fields {
    if p.isNull then NullFields else Fields(p.values, p.nanosecond, p.negative)
  }

  /** A value goes with a qualifier of the same first and last field; NULL of no range goes with any. */
  predicate Matching(range: Range, target: Range, isNull: bool) {
    (isNull && range.first == UNKNOWN && range.last == UNKNOWN)
    || (range.first == target.first && range.last == target.last)
  }

  function EncodeTemporal(p: Parts, qualifier: nat, interval: bool): Result<seq<byte>>
    requires qualifier < 0x1_0000 && |p.values| == 7 && forall f :: 0 <= f < 7 ==> p.values[f] >= 0
  {
    match DecodeQualifier(qualifier, interval)
    case Bad(s) => Bad(s)
    case Good(r) =>
      QualifierIsWellFormed(qualifier, interval);
      if Matching(p.range, r.range, p.isNull) then Pack(r, FieldsOf(p)) else Bad(InvalidArgument)
  }

  function DecodeTemporal(bytes: seq<byte>, qualifier: nat, interval: bool): Result<Parts>
    requires qualifier < 0x1_0000
  {
    match DecodeQualifier(qualifier, interval)
    case Bad(s) => Bad(s)
    case Good(r) =>
      QualifierIsWellFormed(qualifier, interval);
      match Unpack(r, bytes)
      case Bad(s) => Bad(ProtoError)
      case Good(f) => if f.Fields? then Accepted(PartsOf(r, f), interval) else Good(PartsOf(r, f))
  }

  function PartsOf(r: WireRange, f: Fields): Parts {
    if f.NullFields? then NullParts(r.range) else Parts(r.range, f.values, f.nanosecond, f.negative, false)
  }

  function Accepted(p: Parts, interval: bool): Result<Parts>
    requires |p.values| == 7
  {
    if !interval && p.negative then Bad(ProtoError)
    else if Imported(p, interval).Bad? then Bad(ProtoError) else Imported(p, interval)
  }

  /** Payloads of the right width that decode to SQL NULL are the all-zero ones. */
  lemma {:induction false} NullIsAllZero(bytes: seq<byte>, qualifier: nat, interval: bool)
    requires qualifier < 0x1_0000 && DecodeQualifier(qualifier, interval).Good?
    requires |bytes| == DecodeQualifier(qualifier, interval).value.Width()
    ensures DecimalWire.AllZero(bytes) <==>
              var d := DecodeTemporal(bytes, qualifier, interval); d.Good? && d.value.isNull
  {
  }

  lemma {:induction false} ImportedNull(range: Range, interval: bool)
    requires RangeStatus(range, interval, true) == Ok
    ensures Imported(NullParts(range), interval) == Good(NullParts(range))
  {
  }

  /** Groups that are not all zero carry a field that is not zero. */
  lemma {:induction false} SomethingCarried(r: WireRange, g: seq<byte>, values: seq<int>)
    requires WellFormed(r) && Carries(r, g, values, 0) && forall f :: 0 <= f < 7 ==> values[f] == 0
    ensures DecimalWire.AllZero(g)
  {
    var z := GroupsOf(r.Groups(), 0);
    DecimalWire.ZeroGroups(r.Groups());
    forall f | r.range.first <= f <= r.LastField() ensures values[f] == FieldIn(r, z, f) { EmptyField(r, z, f); }
    ValueZeros(z, r.fields, r.Groups());
    ZeroFraction(r.range.digits);
    BothCarry(r, g, z, values, 0);
    CarriedOnce(r, g, z);
  }

  lemma {:induction false} ZeroFraction(digits: nat)
    requires digits <= 5
    ensures FractionGroups(0, digits) == 0
  {
    NoFraction(digits);
  }

  lemma {:induction false} NegativeIsNotZero(r: WireRange, bytes: seq<byte>)
    requires WellFormed(r) && Unpack(r, bytes).Good?
    ensures var f := Unpack(r, bytes).value;
            f.Fields? && f.negative ==> f.nanosecond != 0 || exists k :: 0 <= k < 7 && f.values[k] != 0
  {
    var f := Unpack(r, bytes).value;
    if f.Fields? && f.negative && f.nanosecond == 0 && forall k :: 0 <= k < 7 ==> f.values[k] == 0 {
      var g := GroupsIn(r, bytes).value;
      UnpackedFits(r, g, 0);
      SomethingCarried(r, g, f.values);
      PayloadOfGroups(r.exponent, bytes, g);
    }
  }

  /** Every payload that is accepted is the one its value encodes to. */
  lemma {:induction false} DecodedEncodes(bytes: seq<byte>, qualifier: nat, interval: bool)
    requires qualifier < 0x1_0000 && DecodeTemporal(bytes, qualifier, interval).Good?
    ensures var p := DecodeTemporal(bytes, qualifier, interval).value;
            && |p.values| == 7 && (forall f :: 0 <= f < 7 ==> p.values[f] >= 0)
            && EncodeTemporal(p, qualifier, interval) == Good(bytes)
  {
    var r := DecodeQualifier(qualifier, interval).value;
    QualifierIsWellFormed(qualifier, interval);
    UnpackedPacks(r, bytes);
    NegativeIsNotZero(r, bytes);
  }

  /** A stored value that matches the qualifier can be packed if its leading field and fraction fit. */
  lemma {:induction false} StoredIsPackable(p: Parts, r: WireRange, interval: bool)
    requires Stored(p, interval) && !p.isNull && WellFormed(r) && Matching(p.range, r.range, false)
    requires r.leading > 0 ==> p.values[r.range.first] < Pow10(r.leading)
    requires Whole(p.nanosecond, r.range.digits)
    ensures Packable(r, p.values, p.nanosecond)
    ensures p.negative ==> p.nanosecond != 0 || exists k :: 0 <= k < 7 && p.values[k] != 0
  {
    forall f | YEAR <= f < 7
      ensures p.values[f] >= 0 && (f < p.range.first || f > p.range.last ==> p.values[f] == 0)
      ensures p.range.first < f <= p.range.last ==> p.values[f] < 100
    {
      NoComplaint(p, interval, YEAR, f);
    }
  }

  /** It is valid with the fraction digits of the qualifier, too. */
  lemma {:induction false} StoredAtRange(p: Parts, r: WireRange, interval: bool)
    requires Stored(p, interval) && !p.isNull && WellFormed(r) && Matching(p.range, r.range, false)
    requires RangeStatus(r.range, interval, false) == Ok
    requires Whole(p.nanosecond, r.range.digits)
    ensures Accepted(p.(range := r.range), interval) == Good(p.(range := r.range))
  {
    SameStatus(p, p.(range := r.range), interval, YEAR);
  }

  /** Whatever stored value is encoded decodes to the same fields, nanoseconds and sign; the range read
      back is that of the qualifier. */
  lemma {:induction false} EncodedDecodes(p: Parts, qualifier: nat, interval: bool)
    requires qualifier < 0x1_0000 && Stored(p, interval)
    requires EncodeTemporal(p, qualifier, interval).Good?
    ensures var r := DecodeQualifier(qualifier, interval);
            && r.Good?
            && DecodeTemporal(EncodeTemporal(p, qualifier, interval).value, qualifier, interval)
               == Good(p.(range := r.value.range))
  {
    var r := DecodeQualifier(qualifier, interval).value;
    QualifierIsWellFormed(qualifier, interval);
    if !p.isNull {
      StoredIsPackable(p, r, interval);
      StoredAtRange(p, r, interval);
    }
    PackedUnpacks(r, FieldsOf(p));
  }

  /** A stored non-NULL value encodes under a matching qualifier exactly if its leading field has no more
      digits than the qualifier gives it, and its fraction none beyond. */
  lemma {:induction false} EncodesExactly(p: Parts, qualifier: nat, interval: bool)
    requires qualifier < 0x1_0000 && Stored(p, interval) && !p.isNull && DecodeQualifier(qualifier, interval).Good?
    requires Matching(p.range, DecodeQualifier(qualifier, interval).value.range, false)
    ensures var r := DecodeQualifier(qualifier, interval).value;
            var fits := r.leading > 0 ==> p.values[r.range.first] < Pow10(r.leading);
            var exact := Whole(p.nanosecond, r.range.digits);
            && (EncodeTemporal(p, qualifier, interval).Good? <==> fits && exact)
            && (!fits ==> EncodeTemporal(p, qualifier, interval) == Bad(OutOfRange))
            && (fits && !exact ==> EncodeTemporal(p, qualifier, interval) == Bad(Inexact))
  {
    QualifierIsWellFormed(qualifier, interval);
  }

  lemma {:induction false} FieldsAreTyped(r: WireRange, values: seq<int>, nanosecond: nat)
    requires WellFormed(r) && |values| == 7 && Packable(r, values, nanosecond)
    ensures forall f :: 0 <= f < 7 ==> 0 <= values[f] < 1_000_000_000 && (f != r.range.first ==> values[f] < 100)
    ensures values[0] == 0 && nanosecond < 0x1_0000_0000
  {
    if r.leading > 0 {
      PowMono(r.leading, 9);
      assert Pow10(3) == 1000;
      PowAdd(3, 6);
      PowAdd(3, 3);
    }
  }

  lemma {:induction false} DecodedIsStored(bytes: seq<byte>, qualifier: nat, interval: bool)
    requires qualifier < 0x1_0000 && DecodeTemporal(bytes, qualifier, interval).Good?
    ensures Stored(DecodeTemporal(bytes, qualifier, interval).value, interval)
  {
    var r := DecodeQualifier(qualifier, interval).value;
    QualifierIsWellFormed(qualifier, interval);
    UnpackedPacks(r, bytes);
    var f := Unpack(r, bytes).value;
    if f.NullFields? {
      ImportedNull(r.range, interval);
    } else {
      FieldsAreTyped(r, f.values, f.nanosecond);
      AcceptedIsStored(PartsOf(r, f), interval);
    }
  }

  lemma {:induction false} AcceptedIsStored(p: Parts, interval: bool)
    requires |p.values| == 7 && p.values[0] == 0 && p.nanosecond < 0x1_0000_0000 && !p.isNull
    requires forall f :: 0 <= f < 7 ==> 0 <= p.values[f] < 1_000_000_000
    requires Accepted(p, interval).Good?
    ensures Stored(Accepted(p, interval).value, interval)
  {
    forall f | YEAR <= f < 7 && !interval ensures p.values[f] <= if f == YEAR then 9999 else 59 {
      NoComplaint(p, interval, YEAR, f);
    }
    ImportedIsStored(p, interval);
  }

  /** The value is stored and encodes to these bytes. */
  ghost predicate EncodesTo(p: Parts, qualifier: nat, interval: bool, bytes: seq<byte>)
    requires qualifier < 0x1_0000
  {
    Stored(p, interval) && EncodeTemporal(p, qualifier, interval) == Good(bytes)
  }

  /** Under an accepted qualifier the payloads refused are exactly those that no stored value encodes to. */
  lemma {:induction false} RefusedExactly(bytes: seq<byte>, qualifier: nat, interval: bool)
    requires qualifier < 0x1_0000
    ensures DecodeTemporal(bytes, qualifier, interval).Bad?
            <==> forall p: Parts :: !EncodesTo(p, qualifier, interval, bytes)
  {
    if DecodeTemporal(bytes, qualifier, interval).Good? {
      DecodedIsStored(bytes, qualifier, interval);
      DecodedEncodes(bytes, qualifier, interval);
      assert EncodesTo(DecodeTemporal(bytes, qualifier, interval).value, qualifier, interval, bytes);
    }
    forall p: Parts | EncodesTo(p, qualifier, interval, bytes)
      ensures DecodeTemporal(bytes, qualifier, interval).Good? {
      EncodedDecodes(p, qualifier, interval);
    }
  }

  lemma {:induction false} FewerDigits(n: nat, few: nat, many: nat)
    requires 1 <= few <= many <= 9 && Whole(n, few)
    ensures Whole(n, many)
    decreases many - few
  {
    if few < many { FewerDigits(n, few + 1, many); }
  }

  /** A stored DATETIME always encodes under a matching qualifier with at least its fraction digits. */
  lemma {:induction false} DatetimeEncodes(p: Parts, qualifier: nat)
    requires qualifier < 0x1_0000 && Stored(p, false) && !p.isNull && DecodeQualifier(qualifier, false).Good?
    requires var range := DecodeQualifier(qualifier, false).value.range;
             Matching(p.range, range, false) && p.range.digits <= range.digits
    ensures EncodeTemporal(p, qualifier, false).Good?
  {
    var r := DecodeQualifier(qualifier, false).value;
    QualifierIsWellFormed(qualifier, false);
    LeadingFits(p, r);
    if p.range.last == FRACTION {
      FewerDigits(p.nanosecond, p.range.digits, r.range.digits);
    } else {
      NoFraction(r.range.digits);
    }
  }

  lemma {:induction false} LeadingFits(p: Parts, r: WireRange)
    requires Stored(p, false) && !p.isNull && WellFormed(r) && Matching(p.range, r.range, false)
    requires r.leading > 0 ==> r.leading == if r.range.first == YEAR then 4 else 2
    ensures r.leading > 0 ==> p.values[r.range.first] < Pow10(r.leading)
  {
    assert Pow10(2) == 100;
    assert Pow10(4) == 10_000;
    if r.leading > 0 { NoComplaint(p, false, YEAR, r.range.first); }
  }
}
