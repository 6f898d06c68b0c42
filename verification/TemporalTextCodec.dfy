/** The scanner and the formatter of src/sqli_temporal.c:332-618, loop by loop, against module TemporalText. */
module TemporalTextCodec {
  import opened Status
  import opened Arrays
  import opened Radix
  import opened Numbers
  import opened Numerals
  import DecimalText
  import opened Temporals
  import opened TemporalText

  // ---- Scanning -----------------------------------------------------------------------------

  method ReadNumber(text: string, start: nat, minimum: nat, maximum: nat) returns (digits: Reading)
    requires start <= |text|
    ensures digits == ReadDigits(text, start, start, 0, minimum, maximum)
  {
    var position, value: nat := start, 0;
    while position < |text| && IsDigit(text[position])
      invariant start <= position <= |text|
      invariant ReadDigits(text, start, start, 0, minimum, maximum)
                == ReadDigits(text, start, position, value, minimum, maximum)
      decreases |text| - position
    {
      var digit := DigitOf(text[position]);
      if value > (UINT64_MAX - digit) / 10 { return Refused(OutOfRange); }
      if position - start == maximum { return Refused(InvalidArgument); }
      value := value * 10 + digit;
      position := position + 1;
    }
    if position - start < minimum { return Refused(InvalidArgument); }
    return Found(value, position);
  }

  method ScanField(text: string, at: nat, r: Range, interval: bool, f: nat, values: seq<int>, nanosecond: nat)
    returns (scan: Scan)
    requires at <= |text| && |values| == 7 && YEAR <= f <= FRACTION && r.digits <= 9
    ensures scan == ParseField(text, at, r, interval, f, values, nanosecond)
  {
    var position := at;
    if f == FRACTION && f == r.first && position < |text| && text[position] == '0' { position := position + 1; }
    if f != r.first || f == FRACTION {
      if position == |text| { return Stop(InvalidArgument); }
      var actual := text[position];
      position := position + 1;
      if actual != Separator(f, false) && !(f == HOUR && !interval && actual == 'T') { return Stop(InvalidArgument); }
    }
    scan := ScanNumber(text, position, r, interval, f, values, nanosecond);
  }

  method ScanNumber(text: string, at: nat, r: Range, interval: bool, f: nat, values: seq<int>, nanosecond: nat)
    returns (scan: Scan)
    requires at <= |text| && |values| == 7 && YEAR <= f <= FRACTION && r.digits <= 9
    ensures scan == ParseNumber(text, at, r, interval, f, values, nanosecond)
  {
    var width := if f == YEAR && !interval then 4 else 2;
    var maximum := width;
    if f == FRACTION {
      width := r.digits;
      maximum := width;
    } else if interval && f == r.first {
      width := 1;
      maximum := 20;
    }
    var digits := ReadNumber(text, at, width, maximum);
    match digits {
      case Refused(status) => return Stop(status);
      case Found(v, next) =>
        if f != FRACTION { return Scan(values[f := v], nanosecond, next); }
        if v >= 1_000_000_000 { return Stop(OutOfRange); }
        UnitsOfFactor(v, r.digits);
        return Scan(values, Product(v, Factor(r.digits)), next);
    }
  }

  method ScanFields(text: string, start: nat, r: Range, interval: bool) returns (scan: Scan)
    requires start <= |text| && YEAR <= r.first && r.last <= FRACTION && r.digits <= 9
    ensures scan == ParseFields(text, start, r, interval, r.first, NO_VALUES, 0)
  {
    scan := Scan(NO_VALUES, 0, start);
    var field := r.first;
    while field <= r.last
      invariant r.first <= field && scan.Scan? && |scan.values| == 7 && scan.position <= |text|
      invariant ParseFields(text, start, r, interval, r.first, NO_VALUES, 0)
                == ParseFields(text, scan.position, r, interval, field, scan.values, scan.nanosecond)
    {
      scan := ScanField(text, scan.position, r, interval, field, scan.values, scan.nanosecond);
      if scan.Stop? { return; }
      field := field + 1;
    }
  }

  /** Values read from digits fit the 64-bit fields. */
  lemma {:induction false} ScannedFit(text: string, at: nat, r: Range, interval: bool, f: nat, values: seq<int>,
                                      nanosecond: nat)
    requires at <= |text| && |values| == 7 && YEAR <= f && r.last <= FRACTION && r.digits <= 9
    requires (forall k :: 0 <= k < 7 ==> 0 <= values[k] <= UINT64_MAX) && values[0] == 0
    ensures var s := ParseFields(text, at, r, interval, f, values, nanosecond);
            s.Scan? ==> (forall k :: 0 <= k < 7 ==> 0 <= s.values[k] <= UINT64_MAX) && s.values[0] == 0
    decreases 8 - f
  {
    if f <= r.last {
      var s := ParseField(text, at, r, interval, f, values, nanosecond);
      FieldFits(text, at, r, interval, f, values, nanosecond);
      if s.Scan? { ScannedFit(text, s.position, r, interval, f + 1, s.values, s.nanosecond); }
    }
  }

  lemma FieldFits(text: string, at: nat, r: Range, interval: bool, f: nat, values: seq<int>,
                                     nanosecond: nat)
    requires at <= |text| && |values| == 7 && YEAR <= f <= FRACTION && r.digits <= 9
    requires (forall k :: 0 <= k < 7 ==> 0 <= values[k] <= UINT64_MAX) && values[0] == 0
    ensures var s := ParseField(text, at, r, interval, f, values, nanosecond);
            s.Scan? ==> (forall k :: 0 <= k < 7 ==> 0 <= s.values[k] <= UINT64_MAX) && s.values[0] == 0
  {
    var start := SkipZero(text, at, r, f);
    if !Separated(r, f) || start < |text| {
      var from := if Separated(r, f) then start + 1 else start;
      DigitsStayInside(text, from, from, 0, Width(r, interval, f), MaximumWidth(r, interval, f));
    }
  }

  /** Valid parts fit the narrower fields of the object that stores them. */
  lemma ValidFits(p: Parts, interval: bool)
    requires |p.values| == 7 && Validated(p, interval) == Ok && !p.isNull && p.values[0] == 0
    requires forall k :: 0 <= k < 7 ==> 0 <= p.values[k] <= UINT64_MAX
    requires !interval ==> !p.negative
    ensures Typed(p, interval)
  {
    forall k | YEAR <= k < 7 && !interval ensures p.values[k] <= if k == YEAR then 9999 else 59 {
      NoComplaint(p, interval, YEAR, k);
    }
  }

  /** Scans and validates a text; everything is checked before anything is stored. */
  method ScanParts(text: string, r: Range, interval: bool) returns (result: Result<Parts>)
    ensures result.Bad? ==> ParseText(text, r, interval) == result && result.status != Ok
    ensures result.Good? ==>
              var p := result.value;
              Typed(p, interval) && !p.isNull && Validated(p, interval) == Ok &&
              ParseText(text, r, interval) == Imported(p, interval)
  {
    if RangeStatus(r, interval, false) != Ok || |text| == 0 { return Bad(InvalidArgument); }
    if |text| > MAX_TEXT { return Bad(LimitExceeded); }
    var start, negative := 0, false;
    if interval && (text[0] == '+' || text[0] == '-') {
      negative := text[0] == '-';
      start := 1;
    }
    var scan := ScanFields(text, start, r, interval);
    if scan.Stop? { return Bad(scan.status); }
    if scan.position != |text| { return Bad(InvalidArgument); }
    ScannedFit(text, start, r, interval, r.first, NO_VALUES, 0);
    var p := Parts(r, scan.values, scan.nanosecond, negative, false);
    var status := Validate(p, interval);
    if status != Ok { return Bad(status); }
    ValidFits(p, interval);
    return Good(p);
  }

  /** Parses into an existing value, which stays as it was unless parsing succeeds. hasRange says whether
      a range was passed at all; without one, only NULL can be parsed, and the old range stays. */
  method Parse(value: Temporal, hasRange: bool, r: Range, text: string, isNull: bool) returns (status: Status)
    requires value.Valid()
    modifies value
    ensures value.Valid()
    ensures status != Ok ==> value.parts == old(value.parts)
    ensures isNull && !hasRange ==> status == Ok && value.parts == NullParts(old(value.parts.range))
    ensures isNull && hasRange ==>
              status == RangeStatus(r, value.interval, true) && (status == Ok ==> value.parts == NullParts(r))
    ensures !isNull ==>
              status == if hasRange then ParseText(text, r, value.interval).Code() else InvalidArgument
    ensures !isNull && status == Ok ==> ParseText(text, r, value.interval) == Good(value.parts)
  {
    if isNull && !hasRange {
      value.SetNull();
      return Ok;
    }
    if !hasRange { return InvalidArgument; }
    status := RangeStatus(r, value.interval, isNull);
    if status != Ok { return; }
    if isNull {
      value.parts := NullParts(r);
      return Ok;
    }
    var result := ScanParts(text, r, value.interval);
    if result.Bad? { return result.status; }
    ImportedIsStored(result.value, value.interval);
    if value.interval {
      status := value.SetParts(result.value);
    } else {
      value.parts := result.value;
    }
  }

  method ParseIsoText(value: Temporal, text: string, isNull: bool) returns (status: Status)
    requires value.Valid() && !value.interval
    modifies value
    ensures value.Valid()
    ensures status != Ok ==> value.parts == old(value.parts)
    ensures isNull ==> status == Ok && value.parts == NullParts(old(value.parts.range))
    ensures !isNull ==> status == ParseIso(text).Code() && (status == Ok ==> ParseIso(text) == Good(value.parts))
  {
    if isNull {
      value.SetNull();
      return Ok;
    }
    if |text| < 19 { return InvalidArgument; }
    if |text| > MAX_TEXT { return LimitExceeded; }
    if text[10] != 'T' { return InvalidArgument; }
    var r := Range(YEAR, SECOND, 0);
    if |text| > 19 {
      if |text| <= 20 || |text| - 20 > 9 || text[19] != '.' { return InvalidArgument; }
      r := Range(YEAR, FRACTION, |text| - 20);
    }
    status := Parse(value, true, r, text, false);
  }

  // ---- Formatting ---------------------------------------------------------------------------

  /** Appends digits, least significant first in the buffer they come from. */
  method WriteReversed(reversed: seq<char>, ghost t: string, buffer: array<char>, position: nat) returns (next: nat)
    requires DecimalText.Reversed(reversed, t) && position + |t| <= buffer.Length
    modifies buffer
    ensures next == position + |t| && buffer[..next] == old(buffer[..position]) + t
  {
    ghost var before := buffer[..position];
    next := position;
    var count := |reversed|;
    assert t[..0] == "" && before + "" == before;
    while count > 0
      invariant 0 <= count <= |reversed| && next == position + (|t| - count)
      invariant buffer[..next] == before + t[..|t| - count]
    {
      count := count - 1;
      DecimalText.Put(buffer, next, reversed[count], before, t[..|t| - count - 1]);
      assert t[..|t| - count] == t[..|t| - count - 1] + [t[|t| - count - 1]];
      next := next + 1;
    }
    assert t[..|t|] == t;
  }

  method WriteNumber(v: nat, width: nat, buffer: array<char>, position: nat) returns (status: Status, next: nat)
    requires position <= MAX_TEXT < buffer.Length
    modifies buffer
    ensures status == if position + |ZeroPadded(v, width)| > MAX_TEXT then LimitExceeded else Ok
    ensures status == Ok ==>
              next == position + |ZeroPadded(v, width)| <= MAX_TEXT &&
              buffer[..next] == old(buffer[..position]) + ZeroPadded(v, width)
  {
    next := position;
    var reversed := DecimalText.ExponentDigits(v);
    var count := |reversed|;
    var length := if count > width then count else width;
    if length > MAX_TEXT - position { return LimitExceeded, position; }
    ghost var before := buffer[..position];
    ghost var zeros := DecimalText.ZeroText(if Digits(v) > width then 0 else width - Digits(v));
    next := DecimalText.WriteZeros(if count > width then 0 else width - count, buffer, position);
    next := WriteReversed(reversed, Numeral(v), buffer, next);
    assert before + zeros + Numeral(v) == before + (zeros + Numeral(v));
    status := Ok;
  }

  /** Whether a separator is written before a field, and the field itself. */
  method WriteField(p: Parts, interval: bool, f: nat, buffer: array<char>, position: nat)
    returns (status: Status, next: nat)
    requires Writable(p) && YEAR <= f <= FRACTION && position <= MAX_TEXT < buffer.Length
    modifies buffer
    ensures status == if position + |FieldText(p, interval, f)| > MAX_TEXT then LimitExceeded else Ok
    ensures status == Ok ==>
              && next == position + |FieldText(p, interval, f)| <= MAX_TEXT
              && buffer[..next] == old(buffer[..position]) + FieldText(p, interval, f)
  {
    next := position;
    ghost var before := buffer[..position];
    ghost var number := ZeroPadded(Magnitude(p, f), Width(p.range, interval, f));
    if f != p.range.first || f == FRACTION {
      if position >= MAX_TEXT { return LimitExceeded, position; }
      var separator := Separator(f, !interval && Complete(p.range));
      buffer[position] := separator;
      next := position + 1;
      assert buffer[..next] == before + [separator];
      assert before + ([separator] + number) == before + [separator] + number;
    } else {
      assert FieldText(p, interval, f) == number;
    }
    var magnitude: nat := 0;
    var width := if !interval && f == YEAR then 4 else 2;
    if f == FRACTION {
      width := p.range.digits;
      UnitsOfFactor(p.nanosecond, width);
      magnitude := Quotient(p.nanosecond, Factor(width));
    } else {
      magnitude := p.values[f];
      if interval && f == p.range.first { width := 1; }
    }
    status, next := WriteNumber(magnitude, width, buffer, next);
  }

  /** Writes a text that fits, field by field, and its terminator. */
  method WriteFields(p: Parts, interval: bool, buffer: array<char>) returns (status: Status, used: nat)
    requires Writable(p) && |Text(p, interval)| <= MAX_TEXT < buffer.Length
    modifies buffer
    ensures status == Ok && used == |Text(p, interval)|
    ensures buffer[..used + 1] == Text(p, interval) + ['\0']
  {
    used := DecimalText.WriteSign(p.negative, buffer);
    status, used := WriteAllFields(p, interval, buffer, used, DecimalText.SignText(p.negative), Text(p, interval));
    DecimalText.Terminate(buffer, used, Text(p, interval));
  }

  method WriteAllFields(p: Parts, interval: bool, buffer: array<char>, position: nat, ghost sign: string,
                        ghost text: string)
    returns (status: Status, used: nat)
    requires Writable(p) && position <= MAX_TEXT < buffer.Length && |text| <= MAX_TEXT
    requires buffer[..position] == sign && text == sign + TextFrom(p, interval, p.range.first)
    modifies buffer
    ensures status == Ok && used <= MAX_TEXT && buffer[..used] == text
  {
    used, status := position, Ok;
    ghost var written := sign;
    var field := p.range.first;
    while field <= p.range.last
      invariant p.range.first <= field <= p.range.last + 1 && used <= MAX_TEXT && status == Ok
      invariant buffer[..used] == written && Remains(p, interval, field, written, text)
    {
      TextStep(p, interval, field, written, text);
      status, used := WriteField(p, interval, field, buffer, used);
      if status != Ok { assert false; return; }
      written := written + FieldText(p, interval, field);
      field := field + 1;
    }
    assert written + "" == text;
  }

  /** What is written so far, followed by the fields from f on, is the whole text. */
  ghost predicate Remains(p: Parts, interval: bool, f: nat, written: string, text: string)
    requires Writable(p) && YEAR <= f
  {
    written + TextFrom(p, interval, f) == text
  }

  lemma TextStep(p: Parts, interval: bool, f: nat, written: string, text: string)
    requires Writable(p) && YEAR <= f <= p.range.last && Remains(p, interval, f, written, text)
    ensures Remains(p, interval, f + 1, written + FieldText(p, interval, f), text)
    ensures |written| + |FieldText(p, interval, f)| <= |text|
  {
    Regroup(written, FieldText(p, interval, f), TextFrom(p, interval, f + 1));
  }

  lemma Regroup(a: string, b: string, c: string)
    ensures a + (b + c) == (a + b) + c && |a + (b + c)| == |a| + |b| + |c|
  {
  }

  /** Writes text and terminator, or only reports the size required. */
  method Format(value: Temporal, iso: bool, buffer: array?<char>, capacity: nat)
    returns (status: Status, required: nat, isNull: bool)
    requires value.Valid() && (iso ==> !value.interval) && (buffer != null ==> capacity <= buffer.Length)
    modifies buffer
    ensures value.parts.isNull || Writable(value.parts)
    ensures status ==
              if buffer == null && capacity != 0 then InvalidArgument
              else if value.parts.isNull then Ok
              else if iso && !Complete(value.parts.range) then InvalidState
              else if buffer != null && capacity < |Text(value.parts, value.interval)| + 1 then BufferTooSmall
              else Ok
    ensures status == Ok || status == BufferTooSmall ==>
              && isNull == value.parts.isNull
              && required == if isNull then 0 else |Text(value.parts, value.interval)| + 1
    ensures buffer != null ==>
              if status == Ok && !isNull
              then buffer[..required] == Text(value.parts, value.interval) + ['\0'] &&
                   buffer[required..] == old(buffer[required..])
              else buffer[..] == old(buffer[..])
  {
    required, isNull := 0, false;
    var p := value.parts;
    if buffer == null && capacity != 0 { return InvalidArgument, 0, false; }
    status := Validate(p, value.interval);
    if p.isNull { return Ok, 0, true; }
    status, required := FormatStored(p, value.interval, iso, buffer, capacity);
  }

  method FormatStored(p: Parts, interval: bool, iso: bool, buffer: array?<char>, capacity: nat)
    returns (status: Status, required: nat)
    requires Stored(p, interval) && !p.isNull && (buffer != null ==> capacity <= buffer.Length)
    modifies buffer
    ensures Writable(p)
    ensures if iso && !Complete(p.range) then status == InvalidState
            else
              && required == |Text(p, interval)| + 1
              && status == if buffer != null && capacity < required then BufferTooSmall else Ok
    ensures buffer != null ==>
              if status == Ok
              then buffer[..required] == Text(p, interval) + ['\0'] && buffer[required..] == old(buffer[required..])
              else buffer[..] == old(buffer[..])
  {
    StoredIsWritable(p, interval);
    TextRoundTrip(p, interval);
    if iso && !Complete(p.range) { return InvalidState, 0; }
    status, required := FormatParts(p, interval, buffer, capacity);
  }

  method FormatParts(p: Parts, interval: bool, buffer: array?<char>, capacity: nat)
    returns (status: Status, required: nat)
    requires Writable(p) && |Text(p, interval)| <= MAX_TEXT && (buffer != null ==> capacity <= buffer.Length)
    modifies buffer
    ensures required == |Text(p, interval)| + 1
    ensures status == if buffer != null && capacity < required then BufferTooSmall else Ok
    ensures buffer != null ==>
              if status == Ok
              then buffer[..required] == Text(p, interval) + ['\0'] && buffer[required..] == old(buffer[required..])
              else buffer[..] == old(buffer[..])
  {
    var writer := new char[MAX_TEXT + 1];
    var used;
    status, used := WriteFields(p, interval, writer);
    required := used + 1;
    status := Deliver(buffer, capacity, writer, required);
  }

  /** Copies the finished text out, if there is a buffer and it is large enough. */
  method Deliver(buffer: array?<char>, capacity: nat, writer: array<char>, required: nat) returns (status: Status)
    requires required <= writer.Length && (buffer != null ==> capacity <= buffer.Length && buffer != writer)
    modifies buffer
    ensures status == if buffer != null && capacity < required then BufferTooSmall else Ok
    ensures buffer != null ==>
              if status == Ok
              then buffer[..required] == writer[..required] && buffer[required..] == old(buffer[required..])
              else buffer[..] == old(buffer[..])
  {
    if buffer == null { return Ok; }
    if capacity < required { return BufferTooSmall; }
    CopyFirst(buffer, writer, required);
    return Ok;
  }
}
