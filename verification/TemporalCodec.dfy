/** The DATETIME and INTERVAL encoder and decoder of src/sqli_temporal_codec.c:178-403, loop by loop,
    against the payloads of module TemporalWire. */
module TemporalCodec {
  import opened Status
  import opened Arrays
  import opened Radix
  import opened Numbers
  import opened Base100
  import DecimalWire
  import DecimalCodec
  import opened Temporals
  import opened TemporalWire

  // ---- Unpacking ----------------------------------------------------------------------------

  /** Moves groups into their places; fails if one that is not zero has no place. */
  method Align(c: array<byte>, count: nat, offset: int) returns (fits: bool, aligned: array<byte>)
    requires count <= c.Length
    ensures fresh(aligned) && aligned.Length == count
    ensures fits == Movable(c[..count], offset)
    ensures fits ==> aligned[..] == Lowered(c[..count], offset)
  {
    aligned := new byte[count](_ => 0);
    for i := 0 to count
      invariant forall j :: 0 <= j < i ==> 0 <= offset + j < count || c[j] == 0
      invariant forall s :: 0 <= s < count ==> aligned[s] == if 0 <= s - offset < i then c[s - offset] else 0
    {
      var slot := offset + i;
      if slot < 0 || slot >= count {
        if c[i] != 0 {
          assert c[..count][i] == c[i];
          return false, aligned;
        }
      } else {
        aligned[slot] := c[i];
      }
    }
    fits := true;
  }

  method IsAllZero(a: array<byte>, count: nat) returns (zero: bool)
    requires count <= a.Length
    ensures zero == DecimalWire.AllZero(a[..count])
  {
    zero := true;
    for i := 0 to count
      invariant zero == forall j :: 0 <= j < i ==> a[j] == 0
    {
      zero := zero && a[i] == 0;
    }
  }

  method ReadValue(g: array<byte>, position: nat, width: nat) returns (magnitude: nat)
    requires position + width <= g.Length
    ensures magnitude == GroupsValue(g[..], position, position + width)
  {
    magnitude := 0;
    for i := 0 to width
      invariant magnitude == GroupsValue(g[..], position, position + i)
    {
      magnitude := magnitude * 100 + g[position + i];
    }
  }

  /** Reads the integral fields in order. */
  method ReadIntegral(r: WireRange, g: array<byte>) returns (values: seq<int>, position: nat)
    requires WellFormed(r) && g.Length == r.Groups()
    ensures values == ReadFields(r, g[..]) && position == r.fields
  {
    values := [0, 0, 0, 0, 0, 0, 0];
    position := 0;
    var field := r.range.first;
    while field <= r.range.last && field <= SECOND
      invariant r.range.first <= field <= r.LastField() + 1 && |values| == 7
      invariant position == if field > r.range.first then FieldStart(r, field - 1) + FieldWidth(r, field - 1) else 0
      invariant forall f :: 0 <= f < 7 ==>
                  values[f] == if r.range.first <= f < field then FieldIn(r, g[..], f) else 0
    {
      var width := if field == r.range.first then (r.leading + 1) / 2 else 1;
      assert position == FieldStart(r, field);
      var magnitude := ReadValue(g, position, width);
      values := values[field := magnitude];
      position := position + width;
      field := field + 1;
    }
  }

  method UnpackBytes(bytes: array<byte>, length: nat, r: WireRange) returns (result: Result<Fields>)
    requires WellFormed(r) && length <= bytes.Length
    ensures result == Unpack(r, bytes[..length])
  {
    if length != r.Width() { return Bad(ProtoError); }
    var allZero := IsAllZero(bytes, length);
    if allZero { return Good(NullFields); }
    var valid, groups := PlaceGroups(bytes, r);
    if !valid { return Bad(ProtoError); }
    result := UnpackGroups(r, groups, bytes[0]);
  }

  /** Checks the groups, undoes the complement and moves them into their places. */
  method PlaceGroups(bytes: array<byte>, r: WireRange) returns (valid: bool, aligned: array<byte>)
    requires WellFormed(r) && r.Width() <= bytes.Length
    ensures valid == GroupsIn(r, bytes[..r.Width()]).Good?
    ensures valid ==> GroupsIn(r, bytes[..r.Width()]) == Good(aligned[..])
  {
    var count := r.Width() - 1;
    var groups;
    valid, groups := DecimalCodec.ReadGroups(bytes, count);
    assert bytes[1..1 + count] == bytes[..r.Width()][1..];
    if !valid { return false, groups; }
    valid, aligned := Place(bytes[0], groups, count, r.exponent);
  }

  method Place(header: byte, groups: array<byte>, count: nat, exponent: nat)
    returns (valid: bool, aligned: array<byte>)
    requires 0 < count <= groups.Length
    ensures valid == Placed(header, groups[..count], exponent).Good?
    ensures valid ==> Placed(header, groups[..count], exponent) == Good(aligned[..])
  {
    var zero := IsAllZero(groups, count);
    if zero {
      aligned := new byte[count](i requires 0 <= i < count reads groups => groups[i]);
      assert aligned[..] == groups[..count];
      return header == 128, aligned;
    }
    if groups[0] == 0 { return false, groups; }
    var e := if header < 128 then (127 - header) - 64 else (header - 128) - 64;
    valid, aligned := Align(groups, count, exponent - e);
  }

  method UnpackGroups(r: WireRange, g: array<byte>, header: byte) returns (result: Result<Fields>)
    requires WellFormed(r) && g.Length == r.Groups() && AreGroups(g[..])
    ensures result == UnpackedFields(r, g[..], header)
  {
    var values, position := ReadIntegral(r, g);
    var fraction := ReadFraction(r, g, position);
    if fraction.Bad? { return Bad(ProtoError); }
    if r.leading != 0 {
      var limit := PowerOfTen(r.leading);
      if values[r.range.first] >= limit { return Bad(ProtoError); }
    }
    return Good(Fields(values, fraction.value, header < 128));
  }

  method ReadFraction(r: WireRange, g: array<byte>, position: nat) returns (nanosecond: Result<nat>)
    requires WellFormed(r) && g.Length == r.Groups() && position == r.fields
    ensures nanosecond == NanosecondsOf(GroupsValue(g[..], r.fields, r.Groups()), r.range.digits)
  {
    var fraction := ReadValue(g, position, r.fraction);
    nanosecond := ScaleFraction(fraction, r.range.digits);
  }

  method ScaleFraction(groups: nat, digits: nat) returns (nanosecond: Result<nat>)
    requires digits <= 5
    ensures nanosecond == NanosecondsOf(groups, digits)
  {
    var fraction := groups;
    if digits % 2 == 1 {
      if fraction % 10 != 0 { return Bad(ProtoError); }
      fraction := fraction / 10;
    }
    var power := PowerOfTen(9 - digits);
    UnitsOfFactor(fraction, digits);
    return Good(Product(fraction, power));
  }

  method PowerOfTen(digits: nat) returns (value: nat)
    ensures value == Pow10(digits)
  {
    value := 1;
    var left: nat := digits;
    while left != 0
      invariant left <= digits && value == Pow10(digits - left)
    {
      value := value * 10;
      left := left - 1;
    }
  }

  // ---- Packing ------------------------------------------------------------------------------

  /** Writes a number into its groups, last group first, cutting what does not fit. */
  method WriteValue(groups: array<byte>, start: nat, width: nat, v: nat)
    requires start + width <= groups.Length
    modifies groups
    ensures groups[..start] == old(groups[..start]) && groups[start + width..] == old(groups[start + width..])
    ensures groups[start..start + width] == GroupsOf(width, v)
    ensures groups[..start + width] == old(groups[..start]) + GroupsOf(width, v)
  {
    var magnitude: nat := v;
    var i := width;
    assert GroupsOf(width, v) + groups[start + width..start + width] == GroupsOf(width, v);
    while i > 0
      invariant 0 <= i <= width
      invariant groups[..start] == old(groups[..start]) && groups[start + width..] == old(groups[start + width..])
      invariant GroupsOf(i, magnitude) + groups[start + i..start + width] == GroupsOf(width, v)
    {
      ghost var done := groups[start + i..start + width];
      groups[start + i - 1] := magnitude % 100;
      assert groups[start + i - 1..start + width] == [magnitude % 100] + done;
      assert GroupsOf(i, magnitude) + done == GroupsOf(i - 1, magnitude / 100) + ([magnitude % 100] + done);
      magnitude := magnitude / 100;
      i := i - 1;
    }
    assert GroupsOf(0, magnitude) == [];
    assert groups[..start + width] == groups[..start] + groups[start..start + width];
  }

  /** The fields in front of this one have been written. */
  ghost predicate FieldsWritten(r: WireRange, values: seq<int>, field: nat, g: seq<byte>)
    requires WellFormed(r) && |values| == 7 && (forall k :: 0 <= k < 7 ==> values[k] >= 0)
    requires r.range.first <= field <= 7
  {
    |g| == FieldStart(r, field) && g == FieldGroups(r, values, field - 1)
  }

  method WriteFields(r: WireRange, values: seq<int>, units: nat, groups: array<byte>)
    returns (count: nat)
    requires WellFormed(r) && |values| == 7 && (forall k :: 0 <= k < 7 ==> values[k] >= 0)
    requires groups.Length == WIRE_CAPACITY
    modifies groups
    ensures count == r.Groups() && groups[..count] == PackedGroups(r, values, units)
  {
    count := WriteIntegral(r, values, groups);
    ghost var integral := groups[..count];
    WriteValue(groups, count, r.fraction, units);
    FractionWrittenToo(r, values, units, integral, groups[..count + r.fraction]);
    count := count + r.fraction;
  }

  method WriteIntegral(r: WireRange, values: seq<int>, groups: array<byte>) returns (count: nat)
    requires WellFormed(r) && |values| == 7 && (forall k :: 0 <= k < 7 ==> values[k] >= 0)
    requires groups.Length == WIRE_CAPACITY
    modifies groups
    ensures count == r.fields && FieldsWritten(r, values, r.LastField() + 1, groups[..count])
  {
    count := 0;
    var field := r.range.first;
    NothingWritten(r, values);
    while field <= r.range.last && field <= SECOND
      invariant r.range.first <= field <= r.LastField() + 1
      invariant 0 <= count <= groups.Length && FieldsWritten(r, values, field, groups[..count])
    {
      var width := if field == r.range.first then (r.leading + 1) / 2 else 1;
      assert count + width <= r.Groups();
      ghost var before := groups[..count];
      WriteValue(groups, count, width, values[field]);
      OneMoreWritten(r, values, field, before, groups[..count + width]);
      count := count + width;
      field := field + 1;
    }
  }

  lemma NothingWritten(r: WireRange, values: seq<int>)
    requires WellFormed(r) && |values| == 7 && forall k :: 0 <= k < 7 ==> values[k] >= 0
    ensures FieldsWritten(r, values, r.range.first, [])
  {
  }

  lemma OneMoreWritten(r: WireRange, values: seq<int>, field: nat, g: seq<byte>, h: seq<byte>)
    requires WellFormed(r) && |values| == 7 && (forall k :: 0 <= k < 7 ==> values[k] >= 0)
    requires r.range.first <= field <= r.LastField() && FieldsWritten(r, values, field, g)
    requires h == g + GroupsOf(FieldWidth(r, field), values[field])
    ensures FieldsWritten(r, values, field + 1, h)
  {
  }

  lemma FractionWrittenToo(r: WireRange, values: seq<int>, units: nat, g: seq<byte>, h: seq<byte>)
    requires WellFormed(r) && |values| == 7 && (forall k :: 0 <= k < 7 ==> values[k] >= 0)
    requires FieldsWritten(r, values, r.LastField() + 1, g) && h == g + GroupsOf(r.fraction, units)
    ensures h == PackedGroups(r, values, units) && |h| == r.Groups()
  {
  }

  /** Header, groups moved past leading zeros, complement. */
  method WritePayload(groups: array<byte>, count: nat, exponent: nat, negative: bool, payload: array<byte>)
    requires 0 < count <= groups.Length && AreGroups(groups[..count]) && exponent <= 50 && count <= 64
    requires payload.Length > count && groups != payload && DecimalWire.AllZero(payload[..])
    modifies payload
    ensures payload[..1 + count] == PayloadOf(exponent, groups[..count], negative)
  {
    ghost var g := groups[..count];
    var first := 0;
    while first < count && groups[first] == 0
      invariant 0 <= first <= count && LeadingZeros(g, 0) == LeadingZeros(g, first)
      invariant forall j :: 0 <= j < first ==> g[j] == 0
    {
      first := first + 1;
    }
    if first == count {
      payload[0] := 128;
      assert payload[..1 + count] == [128] + g;
    } else {
      assert g[first] != 0;
      for i := first to count
        invariant forall j :: 1 <= j < payload.Length ==>
                    payload[j] == if first + j - 1 < i then groups[first + j - 1] else 0
      {
        payload[1 + (i - first)] := groups[i];
      }
      assert payload[1..1 + count] == Raised(g, first);
      FramePayload(payload, g, count, first, exponent, negative);
    }
  }

  /** Header and complement for groups already in their places. */
  method FramePayload(payload: array<byte>, ghost g: seq<byte>, count: nat, first: nat, exponent: nat, negative: bool)
    requires 0 < |g| == count < payload.Length && |g| <= 64 && AreGroups(g) && exponent <= 50
    requires first == LeadingZeros(g, 0) < |g| && payload[1..1 + count] == Raised(g, first)
    modifies payload
    ensures payload[..1 + count] == PayloadOf(exponent, g, negative)
  {
    FramedPayload(exponent, g, negative, first, payload[1..1 + count]);
    SetFrame(payload, negative, exponent - first, count, payload[1..1 + count]);
  }

  method SetFrame(payload: array<byte>, negative: bool, e: int, count: nat, ghost c: seq<byte>)
    requires -64 <= e <= 63 && |c| == count < payload.Length && AreGroups(c) && payload[1..1 + count] == c
    modifies payload
    ensures payload[..1 + count] == Framed(negative, e, c)
  {
    FramedGroups(negative, e, c);
    DecimalCodec.SetHeader(payload, negative, e, count, Base100.Number(c));
  }

  lemma {:induction false} FramedPayload(exponent: nat, g: seq<byte>, negative: bool, first: nat, c: seq<byte>)
    requires |g| <= 64 && AreGroups(g) && exponent <= 50 && first == LeadingZeros(g, 0) < |g| && c == Raised(g, first)
    ensures AreGroups(c) && |c| == |g| && PayloadOf(exponent, g, negative) == Framed(negative, exponent - first, c)
  {
    PayloadUnfolds(exponent, g, negative, exponent - first, c);
  }

  lemma {:induction false} FramedGroups(negative: bool, e: int, c: seq<byte>)
    requires -64 <= e <= 63 && AreGroups(c)
    ensures GroupsOf(|c|, Base100.Number(c)) == c
    ensures Framed(negative, e, c) == DecimalWire.Payload(negative, e, Base100.Number(c), |c|)
  {
    NumberBelow(c);
  }

  method PackFields(f: Fields, r: WireRange, bytes: array<byte>, capacity: nat) returns (status: Status, length: nat)
    requires WellFormed(r) && (f.Fields? ==> |f.values| == 7 && forall k :: 0 <= k < 7 ==> f.values[k] >= 0)
    requires capacity <= bytes.Length
    modifies bytes
    ensures status == if Pack(r, f).Bad? then Pack(r, f).status else if capacity < r.Width() then BufferTooSmall else Ok
    ensures status != Ok ==> bytes[..] == old(bytes[..])
    ensures status == Ok ==>
              && length == r.Width() <= bytes.Length && Pack(r, f) == Good(bytes[..length])
              && bytes[length..] == old(bytes[length..])
  {
    length := 0;
    var payload := new byte[WIRE_CAPACITY](_ => 0);
    DecimalWire.ZeroGroups(r.Width());
    if f.Fields? {
      status := PackValues(f, r, payload);
      if status != Ok { return; }
    }
    if capacity < r.Width() { return BufferTooSmall, 0; }
    CopyFirst(bytes, payload, r.Width());
    return Ok, r.Width();
  }

  method PackValues(f: Fields, r: WireRange, payload: array<byte>) returns (status: Status)
    requires WellFormed(r) && f.Fields? && |f.values| == 7 && forall k :: 0 <= k < 7 ==> f.values[k] >= 0
    requires payload.Length == WIRE_CAPACITY && DecimalWire.AllZero(payload[..])
    modifies payload
    ensures status == Pack(r, f).Code()
    ensures status == Ok ==> Pack(r, f) == Good(payload[..r.Width()])
  {
    if r.leading != 0 {
      var limit := PowerOfTen(r.leading);
      if f.values[r.range.first] >= limit { return OutOfRange; }
    }
    var factor := PowerOfTen(9 - r.range.digits);
    UnitsOfFactor(f.nanosecond, r.range.digits);
    if Remainder(f.nanosecond, factor) != 0 { return Inexact; }
    var fraction := Quotient(f.nanosecond, factor);
    if r.range.digits % 2 == 1 { fraction := 10 * fraction; }
    PackedAs(r, f, fraction);
    WriteGroups(r, f.values, fraction, f.negative, payload);
    return Ok;
  }

  /** The payload of fields that pass the checks. */
  lemma PackedAs(r: WireRange, f: Fields, units: nat)
    requires WellFormed(r) && f.Fields? && |f.values| == 7 && forall k :: 0 <= k < 7 ==> f.values[k] >= 0
    requires units == FractionGroups(f.nanosecond, r.range.digits)
    requires r.leading != 0 ==> f.values[r.range.first] < Pow10(r.leading)
    requires Whole(f.nanosecond, r.range.digits)
    ensures r.exponent <= 50 && AreGroups(PackedGroups(r, f.values, units))
    ensures |PackedGroups(r, f.values, units)| == r.Groups()
    ensures Pack(r, f) == Good(PayloadOf(r.exponent, PackedGroups(r, f.values, units), f.negative))
  {
    PackedSize(r, f.values, units);
  }

  method WriteGroups(r: WireRange, values: seq<int>, units: nat, negative: bool, payload: array<byte>)
    requires WellFormed(r) && |values| == 7 && forall k :: 0 <= k < 7 ==> values[k] >= 0
    requires AreGroups(PackedGroups(r, values, units)) && |PackedGroups(r, values, units)| == r.Groups()
    requires payload.Length == WIRE_CAPACITY && DecimalWire.AllZero(payload[..]) && r.exponent <= 50
    modifies payload
    ensures payload[..r.Width()] == PayloadOf(r.exponent, PackedGroups(r, values, units), negative)
  {
    var groups := new byte[WIRE_CAPACITY](_ => 0);
    var count := WriteFields(r, values, units, groups);
    WritePayload(groups, count, r.exponent, negative, payload);
  }

  // ---- Values -------------------------------------------------------------------------------

  /** Decodes into an existing value, which stays as it was unless the payload is accepted. */
  method Decode(bytes: array<byte>, length: nat, qualifier: nat, value: Temporal) returns (status: Status)
    requires value.Valid() && qualifier < 0x1_0000 && length <= bytes.Length
    modifies value
    ensures value.Valid() && status == DecodeTemporal(bytes[..length], qualifier, value.interval).Code()
    ensures status == Ok ==> DecodeTemporal(bytes[..length], qualifier, value.interval) == Good(value.parts)
    ensures status != Ok ==> value.parts == old(value.parts)
  {
    var range := DecodeQualifier(qualifier, value.interval);
    QualifierIsWellFormed(qualifier, value.interval);
    if range.Bad? { return range.status; }
    var r := range.value;
    var fields := UnpackBytes(bytes, length, r);
    if fields.Bad? { return ProtoError; }
    UnpackedPacks(r, bytes[..length]);
    status := StoreFields(value, r, fields.value);
  }

  method StoreFields(value: Temporal, r: WireRange, f: Fields) returns (status: Status)
    requires value.Valid() && WellFormed(r) && RangeStatus(r.range, value.interval, false) == Ok
    requires f.Fields? ==> |f.values| == 7 && Packable(r, f.values, f.nanosecond)
    requires !value.interval && r.leading > 0 ==> r.leading == if r.range.first == YEAR then 4 else 2
    modifies value
    ensures value.Valid()
    ensures var expected := if f.Fields? then Accepted(PartsOf(r, f), value.interval) else Good(PartsOf(r, f));
            && status == expected.Code() && (status == Ok ==> expected == Good(value.parts))
    ensures status != Ok ==> value.parts == old(value.parts)
  {
    if f.NullFields? {
      ImportedNull(r.range, value.interval);
    } else {
      if !value.interval && f.negative { return ProtoError; }
      CheckNarrowing(r, f.values, f.nanosecond, value.interval);
      FieldsAreTyped(r, f.values, f.nanosecond);
    }
    status := Store(value, PartsOf(r, f));
  }

  /** The checks before a DATETIME's fields are narrowed; none of them ever refuses. */
  method CheckNarrowing(r: WireRange, values: seq<int>, nanosecond: nat, interval: bool)
    requires WellFormed(r) && |values| == 7 && Packable(r, values, nanosecond)
    requires !interval && r.leading > 0 ==> r.leading == if r.range.first == YEAR then 4 else 2
    ensures !interval ==> values[YEAR] <= 9999 && forall f :: MONTH <= f < 7 ==> values[f] <= 99
  {
    if !interval {
      NarrowingNeverFails(r, values, nanosecond);
      if values[YEAR] > 9999 { assert false; }
      for field := MONTH to FRACTION {
        if values[field] > 255 { assert false; }
      }
    }
  }

  /** Imports what was unpacked; whatever is invalid counts as malformed. */
  method Store(value: Temporal, p: Parts) returns (status: Status)
    requires value.Valid() && Typed(p, value.interval)
    modifies value
    ensures value.Valid() && status == if Imported(p, value.interval).Good? then Ok else ProtoError
    ensures status == Ok ==> Imported(p, value.interval) == Good(value.parts)
    ensures status != Ok ==> value.parts == old(value.parts)
  {
    status := value.SetParts(p);
    if status != Ok { status := ProtoError; }
  }

  /** The fields of a DATETIME always fit the narrower fields they are stored in. */
  lemma NarrowingNeverFails(r: WireRange, values: seq<int>, nanosecond: nat)
    requires WellFormed(r) && |values| == 7 && Packable(r, values, nanosecond)
    requires r.leading > 0 ==> r.leading == if r.range.first == YEAR then 4 else 2
    ensures values[YEAR] <= 9999 && forall f :: MONTH <= f < 7 ==> values[f] <= 99
  {
    assert Pow10(2) == 100;
    assert Pow10(4) == 10_000;
  }

  method Encode(value: Temporal, qualifier: nat, bytes: array<byte>, capacity: nat)
    returns (status: Status, length: nat)
    requires value.Valid() && qualifier < 0x1_0000 && capacity <= bytes.Length
    modifies bytes
    ensures forall f :: 0 <= f < 7 ==> value.parts.values[f] >= 0
    ensures var r := EncodeTemporal(value.parts, qualifier, value.interval);
            status == if r.Bad? then r.status else if capacity < |r.value| then BufferTooSmall else Ok
    ensures status != Ok ==> bytes[..] == old(bytes[..])
    ensures status == Ok ==>
              && length <= bytes.Length
              && EncodeTemporal(value.parts, qualifier, value.interval) == Good(bytes[..length])
              && bytes[length..] == old(bytes[length..])
  {
    length := 0;
    StoredFields(value.parts, value.interval);
    var range := DecodeQualifier(qualifier, value.interval);
    QualifierIsWellFormed(qualifier, value.interval);
    if range.Bad? { return range.status, 0; }
    var r := range.value;
    var p := value.parts;
    if !Matching(p.range, r.range, p.isNull) { return InvalidArgument, 0; }
    PayloadSize(r, FieldsOf(p));
    status, length := PackFields(FieldsOf(p), r, bytes, capacity);
  }

  lemma StoredFields(p: Parts, interval: bool)
    requires Stored(p, interval)
    ensures |p.values| == 7 && forall f :: 0 <= f < 7 ==> p.values[f] >= 0
  {
  }

  lemma PayloadSize(r: WireRange, f: Fields)
    requires WellFormed(r) && (f.Fields? ==> |f.values| == 7 && forall k :: 0 <= k < 7 ==> f.values[k] >= 0)
    ensures Pack(r, f).Good? ==> |Pack(r, f).value| == r.Width()
  {
    if f.Fields? { PackedSize(r, f.values, FractionGroups(f.nanosecond, r.range.digits)); }
  }
}
