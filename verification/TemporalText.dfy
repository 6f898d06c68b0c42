/** Text of DATETIME and INTERVAL values (src/sqli_temporal.c:332-414 and 502-662): what formatting writes,
    what parsing accepts, and that parsing undoes formatting. */
module TemporalText {
  import opened Status
  import opened Radix
  import opened Numbers
  import opened Numerals
  import DecimalText
  import opened Temporals

  const MAX_TEXT: nat := 64

  // ---- The text of a value ------------------------------------------------------------------

  function Separator(f: nat, iso: bool): char {
    if f == MONTH || f == DAY then '-'
    else if f == HOUR then if iso then 'T' else ' '
    else if f == MINUTE || f == SECOND then ':'
    else '.'
  }

  /** A whole timestamp, which is written with the ISO separator. */
  predicate Complete(r: Range) {
    r.first == YEAR && r.last >= SECOND
  }

  /** Least number of digits of a field. */
  function Width(r: Range, interval: bool, f: nat): nat {
    if f == FRACTION then r.digits
    else if interval && f == r.first then 1
    else if !interval && f == YEAR then 4
    else 2
  }

  predicate Separated(r: Range, f: nat) {
    f != r.first || f == FRACTION
  }

  /** What a value must satisfy to be written. */
  predicate Writable(p: Parts) {
    && |p.values| == 7 && (forall f :: 0 <= f < 7 ==> p.values[f] >= 0)
    && YEAR <= p.range.first <= p.range.last <= FRACTION && p.range.digits <= 9
  }

  function Magnitude(p: Parts, f: nat): nat
    requires Writable(p) && YEAR <= f <= FRACTION
  {
    if f == FRACTION then Units(p.nanosecond, p.range.digits) else p.values[f]
  }

  function ZeroPadded(v: nat, width: nat): (t: string)
    ensures |t| == if Digits(v) > width then Digits(v) else width
  {
    DecimalText.ZeroText(if Digits(v) > width then 0 else width - Digits(v)) + Numeral(v)
  }

  function FieldText(p: Parts, interval: bool, f: nat): string
    requires Writable(p) && YEAR <= f <= FRACTION
  {
    (if Separated(p.range, f) then [Separator(f, !interval && Complete(p.range))] else "")
    + ZeroPadded(Magnitude(p, f), Width(p.range, interval, f))
  }

  /** The text from a field on. */
  function TextFrom(p: Parts, interval: bool, f: nat): string
    requires Writable(p) && YEAR <= f
    decreases 8 - f
  {
    if f > p.range.last then "" else FieldText(p, interval, f) + TextFrom(p, interval, f + 1)
  }

  function Text(p: Parts, interval: bool): string
    requires Writable(p)
  {
    DecimalText.SignText(p.negative) + TextFrom(p, interval, p.range.first)
  }

  // ---- The value of a text ------------------------------------------------------------------

  /** A number read from a position on, and the position after it. */
  datatype Reading = Refused(status: Status) | Found(value: nat, next: nat)

  /** Reading digits: too large a value is out of range, too many or too few digits are invalid. */
  function ReadDigits(text: string, start: nat, at: nat, value: nat, minimum: nat, maximum: nat): (r: Reading)
    requires start <= at <= |text|
    ensures r.Refused? ==> r.status in {InvalidArgument, OutOfRange}
    decreases |text| - at
  {
    if at < |text| && IsDigit(text[at]) then
      if 10 * value + DigitOf(text[at]) > UINT64_MAX then Refused(OutOfRange)
      else if at - start == maximum then Refused(InvalidArgument)
      else ReadDigits(text, start, at + 1, 10 * value + DigitOf(text[at]), minimum, maximum)
    else if at - start < minimum then Refused(InvalidArgument)
    else Found(value, at)
  }

  datatype Scan = Stop(status: Status) | Scan(values: seq<int>, nanosecond: nat, position: nat)

  /** Position after an optional zero before the point of a range that is only a fraction. */
  function SkipZero(text: string, at: nat, r: Range, f: nat): (next: nat)
    requires at <= |text|
    ensures at <= next <= |text|
  {
    if f == FRACTION && f == r.first && at < |text| && text[at] == '0' then at + 1 else at
  }

  predicate Accepts(ch: char, f: nat, interval: bool) {
    ch == Separator(f, false) || (f == HOUR && !interval && ch == 'T')
  }

  function ParseField(text: string, at: nat, r: Range, interval: bool, f: nat, values: seq<int>,
                      nanosecond: nat): (s: Scan)
    requires at <= |text| && |values| == 7 && YEAR <= f <= FRACTION && r.digits <= 9
    ensures s.Scan? ==> |s.values| == 7 && s.position <= |text|
    ensures s.Stop? ==> s.status in {InvalidArgument, OutOfRange}
  {
    var start := SkipZero(text, at, r, f);
    if Separated(r, f) && (start == |text| || !Accepts(text[start], f, interval)) then Stop(InvalidArgument)
    else ParseNumber(text, if Separated(r, f) then start + 1 else start, r, interval, f, values, nanosecond)
  }

  function ParseNumber(text: string, at: nat, r: Range, interval: bool, f: nat, values: seq<int>,
                       nanosecond: nat): (s: Scan)
    requires at <= |text| && |values| == 7 && YEAR <= f <= FRACTION && r.digits <= 9
    ensures s.Scan? ==> |s.values| == 7 && s.position <= |text|
    ensures s.Stop? ==> s.status in {InvalidArgument, OutOfRange}
  {
    DigitsStayInside(text, at, at, 0, Width(r, interval, f), MaximumWidth(r, interval, f));
    match ReadDigits(text, at, at, 0, Width(r, interval, f), MaximumWidth(r, interval, f))
    case Refused(status) => Stop(status)
    case Found(v, next) =>
      if f != FRACTION then Scan(values[f := v], nanosecond, next)
      else if v >= 1_000_000_000 then Stop(OutOfRange)
      else Scan(values, Nanoseconds(v, r.digits), next)
  }

  function MaximumWidth(r: Range, interval: bool, f: nat): nat {
    if interval && f == r.first && f != FRACTION then 20 else Width(r, interval, f)
  }

  lemma {:induction false} DigitsStayInside(text: string, start: nat, at: nat, value: nat, minimum: nat, maximum: nat)
    requires start <= at <= |text|
    ensures var d := ReadDigits(text, start, at, value, minimum, maximum);
            d.Found? ==> at <= d.next <= |text| && d.value <= Max(value, UINT64_MAX)
    decreases |text| - at
  {
    if at < |text| && IsDigit(text[at]) && 10 * value + DigitOf(text[at]) <= UINT64_MAX && at - start != maximum {
      DigitsStayInside(text, start, at + 1, 10 * value + DigitOf(text[at]), minimum, maximum);
    }
  }

  /** All fields from f on. */
  function ParseFields(text: string, at: nat, r: Range, interval: bool, f: nat, values: seq<int>,
                       nanosecond: nat): (s: Scan)
    requires at <= |text| && |values| == 7 && YEAR <= f && r.last <= FRACTION && r.digits <= 9
    ensures s.Scan? ==> |s.values| == 7 && s.position <= |text|
    ensures s.Stop? ==> s.status in {InvalidArgument, OutOfRange}
    decreases 8 - f
  {
    if f > r.last then Scan(values, nanosecond, at)
    else match ParseField(text, at, r, interval, f, values, nanosecond)
      case Stop(status) => Stop(status)
      case Scan(v, n, next) => ParseFields(text, next, r, interval, f + 1, v, n)
  }

  function SignLength(text: string, interval: bool): (n: nat)
    ensures n <= |text|
  {
    if interval && text != "" && (text[0] == '+' || text[0] == '-') then 1 else 0
  }

  function ParseText(text: string, r: Range, interval: bool): Result<Parts> {
    if RangeStatus(r, interval, false) != Ok || text == "" then Bad(InvalidArgument)
    else if |text| > MAX_TEXT then Bad(LimitExceeded)
    else match ParseFields(text, SignLength(text, interval), r, interval, r.first, NO_VALUES, 0)
      case Stop(status) => Bad(status)
      case Scan(values, nanosecond, position) =>
        if position != |text| then Bad(InvalidArgument)
        else Imported(Parts(r, values, nanosecond, interval && text[0] == '-', false), interval)
  }

  /** The range an ISO timestamp of some length has. */
  function IsoRange(length: nat): Range
    requires length >= 19
  {
    if length == 19 then Range(YEAR, SECOND, 0) else Range(YEAR, FRACTION, if length >= 20 then length - 20 else 0)
  }

  function ParseIso(text: string): Result<Parts> {
    if |text| < 19 then Bad(InvalidArgument)
    else if |text| > MAX_TEXT then Bad(LimitExceeded)
    else if text[10] != 'T' then Bad(InvalidArgument)
    else if |text| > 19 && (|text| <= 20 || |text| - 20 > 9 || text[19] != '.') then Bad(InvalidArgument)
    else ParseText(text, IsoRange(|text|), false)
  }

  // ---- Which texts are accepted -------------------------------------------------------------

  /** A whole run of digits, neither too short nor too long, and its number within 64 bits. */
  ghost predicate NumberAt(text: string, at: nat, next: nat, v: nat, minimum: nat, maximum: nat) {
    && at <= next <= |text| && OnlyDigits(text, at, next) && (next == |text| || !IsDigit(text[next]))
    && minimum <= next - at <= maximum && v == NumberIn(text, at, next) <= UINT64_MAX
  }

  /** The text between two positions is a field: its separator, if it has one, and its number. */
  ghost predicate FieldAt(text: string, at: nat, next: nat, r: Range, interval: bool, f: nat, v: nat)
    requires at <= |text|
  {
    var start := SkipZero(text, at, r, f);
    var from := if Separated(r, f) then start + 1 else start;
    && (Separated(r, f) ==> start < |text| && Accepts(text[start], f, interval))
    && NumberAt(text, from, next, v, Width(r, interval, f), MaximumWidth(r, interval, f))
    && (f == FRACTION ==> v < 1_000_000_000)
  }

  /** What the number of a field says about the value. */
  predicate Gives(r: Range, f: nat, v: nat, values: seq<int>, nanosecond: nat)
    requires |values| == 7 && YEAR <= f <= FRACTION && r.digits <= 9
  {
    if f == FRACTION then nanosecond == Nanoseconds(v, r.digits) else values[f] == v
  }

  /** From a position to its end the text spells the fields from f on, one behind the other. */
  ghost predicate Spells(text: string, at: nat, r: Range, interval: bool, f: nat, values: seq<int>, nanosecond: nat)
    requires at <= |text| && |values| == 7 && YEAR <= f && r.last <= FRACTION && r.digits <= 9
    decreases 8 - f
  {
    if f > r.last then at == |text|
    else exists next: nat, v: nat ::
           && next <= |text| && FieldAt(text, at, next, r, interval, f, v) && Gives(r, f, v, values, nanosecond)
           && Spells(text, next, r, interval, f + 1, values, nanosecond)
  }

  lemma {:induction false} NumberGrows(text: string, from: nat, mid: nat, to: nat)
    requires mid <= to <= |text|
    ensures NumberIn(text, from, mid) <= NumberIn(text, from, to)
  {
    if mid < to { NumberGrows(text, from, mid, to - 1); }
  }

  /** A run of digits is read as its number if it is not too long and not too large. */
  lemma {:induction false} DigitsRead(text: string, start: nat, at: nat, end: nat, minimum: nat, maximum: nat)
    requires start <= at <= end <= |text| && OnlyDigits(text, start, end)
    requires end == |text| || !IsDigit(text[end])
    requires minimum <= end - start <= maximum && NumberIn(text, start, end) <= UINT64_MAX
    ensures ReadDigits(text, start, at, NumberIn(text, start, at), minimum, maximum)
            == Found(NumberIn(text, start, end), end)
    decreases end - at
  {
    if at < end {
      NumberGrows(text, start, at + 1, end);
      DigitsRead(text, start, at + 1, end, minimum, maximum);
    }
  }

  lemma {:induction false} FoundIsNumber(text: string, start: nat, at: nat, minimum: nat, maximum: nat, v: nat,
                                         next: nat)
    requires start <= at <= |text| && OnlyDigits(text, start, at) && at - start <= maximum
    requires NumberIn(text, start, at) <= UINT64_MAX
    requires ReadDigits(text, start, at, NumberIn(text, start, at), minimum, maximum) == Found(v, next)
    ensures NumberAt(text, start, next, v, minimum, maximum)
    decreases |text| - at
  {
    if at < |text| && IsDigit(text[at]) { FoundIsNumber(text, start, at + 1, minimum, maximum, v, next); }
  }

  /** Reading finds exactly the whole runs of digits within the limits. */
  lemma FoundExactly(text: string, at: nat, minimum: nat, maximum: nat, v: nat, next: nat)
    requires at <= |text|
    ensures ReadDigits(text, at, at, 0, minimum, maximum) == Found(v, next) <==>
              NumberAt(text, at, next, v, minimum, maximum)
  {
    if ReadDigits(text, at, at, 0, minimum, maximum) == Found(v, next) {
      FoundIsNumber(text, at, at, minimum, maximum, v, next);
    }
    if NumberAt(text, at, next, v, minimum, maximum) { DigitsRead(text, at, at, next, minimum, maximum); }
  }

  /** Parsing a field succeeds exactly on a field, with the value it gives. */
  lemma FieldExactly(text: string, at: nat, r: Range, interval: bool, f: nat, values: seq<int>,
                                        nanosecond: nat, v: nat, next: nat)
    requires at <= |text| && |values| == 7 && YEAR <= f <= FRACTION && r.digits <= 9
    ensures FieldAt(text, at, next, r, interval, f, v) ==>
              ParseField(text, at, r, interval, f, values, nanosecond)
              == if f == FRACTION then Scan(values, Nanoseconds(v, r.digits), next)
                 else Scan(values[f := v], nanosecond, next)
  {
    var start := SkipZero(text, at, r, f);
    var from := if Separated(r, f) then start + 1 else start;
    if from <= |text| { FoundExactly(text, from, Width(r, interval, f), MaximumWidth(r, interval, f), v, next); }
  }

  lemma ParsedField(text: string, at: nat, r: Range, interval: bool, f: nat, values: seq<int>,
                                       nanosecond: nat)
    returns (v: nat, next: nat)
    requires at <= |text| && |values| == 7 && YEAR <= f <= FRACTION && r.digits <= 9
    requires ParseField(text, at, r, interval, f, values, nanosecond).Scan?
    ensures next <= |text| && FieldAt(text, at, next, r, interval, f, v)
  {
    var start := SkipZero(text, at, r, f);
    var from := if Separated(r, f) then start + 1 else start;
    var found := ReadDigits(text, from, from, 0, Width(r, interval, f), MaximumWidth(r, interval, f));
    v, next := found.value, found.next;
    FoundExactly(text, from, Width(r, interval, f), MaximumWidth(r, interval, f), v, next);
  }

  /** Outside the fields from f on the values are those known before. */
  ghost predicate Extends(values: seq<int>, known: seq<int>, r: Range, f: nat)
    requires |values| == 7 && |known| == 7
  {
    forall k :: 0 <= k < 7 && !(f <= k <= r.last) ==> values[k] == known[k]
  }

  lemma SpellsStep(text: string, at: nat, next: nat, r: Range, interval: bool, f: nat, v: nat,
                                      values: seq<int>, nanosecond: nat)
    requires at <= |text| && next <= |text| && |values| == 7 && YEAR <= f <= r.last <= FRACTION && r.digits <= 9
    requires FieldAt(text, at, next, r, interval, f, v) && Gives(r, f, v, values, nanosecond)
    requires Spells(text, next, r, interval, f + 1, values, nanosecond)
    ensures Spells(text, at, r, interval, f, values, nanosecond)
  {
  }

  lemma {:induction false} ParsedIsSpelled(text: string, at: nat, r: Range, interval: bool, f: nat, known: seq<int>,
                                           values: seq<int>, nanosecond: nat)
    requires at <= |text| && |known| == 7 && |values| == 7 && YEAR <= f <= FRACTION && r.last <= FRACTION &&
             r.digits <= 9
    requires ParseFields(text, at, r, interval, f, known, 0) == Scan(values, nanosecond, |text|)
    ensures Spells(text, at, r, interval, f, values, nanosecond) && Extends(values, known, r, f)
    ensures r.last < FRACTION ==> nanosecond == 0
    decreases 8 - f
  {
    if f <= r.last {
      var v, next := ParsedField(text, at, r, interval, f, known, 0);
      FieldExactly(text, at, r, interval, f, known, 0, v, next);
      if f < FRACTION {
        ParseStep(text, at, r, interval, f, known, 0, known[f := v], 0, next);
        ParsedIsSpelled(text, next, r, interval, f + 1, known[f := v], values, nanosecond);
        OneMoreKnown(values, known, r, f, v);
      } else {
        ParseStep(text, at, r, interval, f, known, 0, known, Nanoseconds(v, r.digits), next);
      }
      SpellsStep(text, at, next, r, interval, f, v, values, nanosecond);
    }
  }

  lemma OneMoreKnown(values: seq<int>, known: seq<int>, r: Range, f: nat, v: nat)
    requires |values| == 7 && |known| == 7 && f < FRACTION && f <= r.last
    requires Extends(values, known[f := v], r, f + 1)
    ensures Extends(values, known, r, f)
    ensures values[f] == v
  {
  }

  lemma ParseStep(text: string, at: nat, r: Range, interval: bool, f: nat, values: seq<int>,
                                     nanosecond: nat, v: seq<int>, n: nat, next: nat)
    requires at <= |text| && |values| == 7 && YEAR <= f <= r.last <= FRACTION && r.digits <= 9
    requires ParseField(text, at, r, interval, f, values, nanosecond) == Scan(v, n, next) && |v| == 7 && next <= |text|
    ensures ParseFields(text, at, r, interval, f, values, nanosecond)
            == ParseFields(text, next, r, interval, f + 1, v, n)
    ensures f == r.last ==> ParseFields(text, next, r, interval, f + 1, v, n) == Scan(v, n, next)
  {
  }

  lemma {:induction false} SpelledIsParsed(text: string, at: nat, r: Range, interval: bool, f: nat, known: seq<int>,
                                           values: seq<int>, nanosecond: nat)
    requires at <= |text| && |known| == 7 && |values| == 7 && YEAR <= f <= FRACTION && r.last <= FRACTION &&
             r.digits <= 9
    requires Spells(text, at, r, interval, f, values, nanosecond) && Extends(values, known, r, f)
    requires r.last < FRACTION ==> nanosecond == 0
    ensures ParseFields(text, at, r, interval, f, known, 0) == Scan(values, nanosecond, |text|)
    decreases 8 - f
  {
    if f > r.last {
      assert values == known;
    } else {
      var next: nat, v: nat :|
        && next <= |text| && FieldAt(text, at, next, r, interval, f, v) && Gives(r, f, v, values, nanosecond)
        && Spells(text, next, r, interval, f + 1, values, nanosecond);
      FieldExactly(text, at, r, interval, f, known, 0, v, next);
      if f < FRACTION {
        SpelledIsParsed(text, next, r, interval, f + 1, known[f := v], values, nanosecond);
      } else {
        assert values == known;
      }
    }
  }

  /** The text spells a valid value: sign, fields in order, nothing else. */
  ghost predicate SpellsValue(text: string, p: Parts, interval: bool) {
    && 0 < |text| <= MAX_TEXT && |p.values| == 7 && p.values[0] == 0 && !p.isNull
    && RangeStatus(p.range, interval, false) == Ok && Validated(p, interval) == Ok
    && Spells(text, SignLength(text, interval), p.range, interval, p.range.first, p.values, p.nanosecond)
    && p.negative == (interval && text[0] == '-' && !IsZero(p))
  }

  /** A text is parsed to a value exactly if it spells it. */
  lemma AcceptedExactly(text: string, r: Range, interval: bool, p: Parts)
    ensures ParseText(text, r, interval) == Good(p) <==> p.range == r && SpellsValue(text, p, interval)
  {
    if ParseText(text, r, interval) == Good(p) {
      ParsedIsSpelled(text, SignLength(text, interval), r, interval, r.first, NO_VALUES, p.values, p.nanosecond);
      ParsedIsValid(text, r, interval, p);
    }
    if p.range == r && SpellsValue(text, p, interval) { ValueIsParsed(text, interval, p); }
  }

  lemma ParsedIsValid(text: string, r: Range, interval: bool, p: Parts)
    requires ParseText(text, r, interval) == Good(p) && |p.values| == 7
    ensures Validated(p, interval) == Ok && !p.isNull && p.range == r
    ensures p.negative == (interval && text[0] == '-' && !IsZero(p))
  {
    SameStatus(p, p.(negative := interval && text[0] == '-'), interval, YEAR);
  }

  lemma NothingElse(p: Parts, interval: bool)
    requires |p.values| == 7 && p.values[0] == 0 && !p.isNull && Validated(p, interval) == Ok
    ensures Extends(p.values, NO_VALUES, p.range, p.range.first)
    ensures p.range.last < FRACTION ==> p.nanosecond == 0
  {
    forall k | YEAR <= k < 7 && !(p.range.first <= k <= p.range.last) ensures p.values[k] == 0 {
      NoComplaint(p, interval, YEAR, k);
    }
  }

  lemma {:induction false} ValueIsParsed(text: string, interval: bool, p: Parts)
    requires SpellsValue(text, p, interval)
    ensures ParseText(text, p.range, interval) == Good(p)
  {
    NothingElse(p, interval);
    SpelledIsParsed(text, SignLength(text, interval), p.range, interval, p.range.first, NO_VALUES, p.values,
      p.nanosecond);
    SameStatus(p, p.(negative := interval && text[0] == '-'), interval, YEAR);
    if !interval && p.range.first == YEAR { NoComplaint(p, interval, YEAR, YEAR); }
  }

  // ---- Parsing undoes formatting ------------------------------------------------------------

  lemma OccursParts(a: string, b: string, text: string, from: nat)
    requires DecimalText.Occurs(a + b, text, from)
    ensures DecimalText.Occurs(a, text, from) && DecimalText.Occurs(b, text, from + |a|)
  {
    forall i | 0 <= i < |a| ensures a[i] == text[from + i] { assert (a + b)[i] == a[i]; }
    forall i | 0 <= i < |b| ensures b[i] == text[from + |a| + i] { assert (a + b)[|a| + i] == b[i]; }
  }

  lemma PaddedRead(text: string, at: nat, v: nat, width: nat)
    requires DecimalText.Occurs(ZeroPadded(v, width), text, at)
    ensures OnlyDigits(text, at, at + |ZeroPadded(v, width)|)
    ensures NumberIn(text, at, at + |ZeroPadded(v, width)|) == v
  {
    var zeros := DecimalText.ZeroText(if Digits(v) > width then 0 else width - Digits(v));
    var mid := at + |zeros|;
    OccursParts(zeros, Numeral(v), text, at);
    forall i | at <= i < mid ensures text[i] == '0' { assert zeros[i - at] == text[at + (i - at)]; }
    NumeralRead(text, mid, v);
    DecimalText.ZeroPrefix(text, at, mid, mid + Digits(v));
  }

  /** A field of a stored value has as many digits as parsing allows. */
  lemma FieldDigits(p: Parts, interval: bool, f: nat)
    requires Stored(p, interval) && !p.isNull && Writable(p) && p.range.first <= f <= p.range.last
    ensures var n := |ZeroPadded(Magnitude(p, f), Width(p.range, interval, f))|;
            && Width(p.range, interval, f) <= n <= MaximumWidth(p.range, interval, f) && n > 0
            && Magnitude(p, f) <= UINT64_MAX
    ensures !interval || f != p.range.first || f == FRACTION ==>
              |ZeroPadded(Magnitude(p, f), Width(p.range, interval, f))| == Width(p.range, interval, f)
  {
    if f == FRACTION {
      FractionDigits(p.nanosecond, p.range.digits);
    } else {
      NoComplaint(p, interval, YEAR, f);
      FewDigits(p.values[f]);
    }
  }

  lemma FewDigits(v: nat)
    ensures v < 100 ==> Digits(v) <= 2
    ensures v <= 9999 ==> Digits(v) <= 4
    ensures v <= UINT64_MAX ==> Digits(v) <= 20
  {
    assert Pow10(2) == 100;
    assert Pow10(4) == 10_000;
    PowAdd(4, 4);
    PowAdd(8, 8);
    PowAdd(16, 4);
    DigitsWithin(v, 2);
    DigitsWithin(v, 4);
    DigitsWithin(v, 20);
  }

  lemma FractionDigits(nanosecond: nat, digits: nat)
    requires nanosecond < 1_000_000_000 && 1 <= digits <= 9 && Whole(nanosecond, digits)
    ensures Digits(Units(nanosecond, digits)) <= digits
    ensures Units(nanosecond, digits) < 1_000_000_000
    ensures Nanoseconds(Units(nanosecond, digits), digits) == nanosecond
  {
    var q := Units(nanosecond, digits);
    Billion();
    UnitsFit(nanosecond, 0, digits);
    NanosecondsOfUnits(nanosecond, digits);
    DigitsWithin(q, digits);
    PowMono(digits, 9);
  }

  /** A written number stands in the text. */
  lemma WrittenNumber(p: Parts, interval: bool, f: nat, text: string, at: nat)
    requires Stored(p, interval) && !p.isNull && Writable(p) && p.range.first <= f <= p.range.last
    requires var t := ZeroPadded(Magnitude(p, f), Width(p.range, interval, f));
             DecimalText.Occurs(t, text, at) && (at + |t| == |text| || !IsDigit(text[at + |t|]))
    ensures NumberAt(text, at, at + |ZeroPadded(Magnitude(p, f), Width(p.range, interval, f))|, Magnitude(p, f),
                     Width(p.range, interval, f), MaximumWidth(p.range, interval, f))
  {
    FieldDigits(p, interval, f);
    PaddedRead(text, at, Magnitude(p, f), Width(p.range, interval, f));
  }

  /** Between two positions the text is what is written of a field, and no digit follows. */
  ghost predicate FieldWritten(p: Parts, interval: bool, f: nat, text: string, at: nat, next: nat)
    requires Writable(p) && YEAR <= f <= FRACTION
  {
    && DecimalText.Occurs(FieldText(p, interval, f), text, at) && next == at + |FieldText(p, interval, f)| <= |text|
    && (next == |text| || !IsDigit(text[next]))
  }

  /** A written field stands in the text, and gives the value it was written for. */
  lemma WrittenField(p: Parts, interval: bool, f: nat, text: string, at: nat, next: nat)
    requires Stored(p, interval) && !p.isNull && Writable(p) && p.range.first <= f <= p.range.last
    requires FieldWritten(p, interval, f, text, at, next)
    ensures at <= |text| && FieldAt(text, at, next, p.range, interval, f, Magnitude(p, f))
    ensures Gives(p.range, f, Magnitude(p, f), p.values, p.nanosecond)
  {
    var number := ZeroPadded(Magnitude(p, f), Width(p.range, interval, f));
    if f == FRACTION { FractionDigits(p.nanosecond, p.range.digits); }
    if Separated(p.range, f) {
      WrittenSeparator(p, interval, f, text, at);
      WrittenNumber(p, interval, f, text, at + 1);
    } else {
      assert FieldText(p, interval, f) == number;
      WrittenNumber(p, interval, f, text, at);
    }
  }

  lemma WrittenSeparator(p: Parts, interval: bool, f: nat, text: string, at: nat)
    requires Writable(p) && YEAR <= f <= FRACTION && Separated(p.range, f)
    requires DecimalText.Occurs(FieldText(p, interval, f), text, at)
    ensures var number := ZeroPadded(Magnitude(p, f), Width(p.range, interval, f));
            && |FieldText(p, interval, f)| == 1 + |number| && DecimalText.Occurs(number, text, at + 1)
            && Accepts(text[at], f, interval) && SkipZero(text, at, p.range, f) == at
  {
    var separator := [Separator(f, !interval && Complete(p.range))];
    OccursParts(separator, ZeroPadded(Magnitude(p, f), Width(p.range, interval, f)), text, at);
    assert separator[0] == text[at + 0];
  }

  /** From a position on the text is what is written of a value from f on. */
  ghost predicate EndsIn(p: Parts, interval: bool, f: nat, text: string, at: nat)
    requires Writable(p) && YEAR <= f
  {
    DecimalText.Occurs(TextFrom(p, interval, f), text, at) && at + |TextFrom(p, interval, f)| == |text|
  }

  /** A text ending in the fields of a value from f on spells them. */
  lemma {:induction false} WrittenSpells(p: Parts, interval: bool, f: nat, text: string, at: nat)
    requires Stored(p, interval) && !p.isNull && Writable(p) && p.range.first <= f && EndsIn(p, interval, f, text, at)
    ensures at <= |text| && Spells(text, at, p.range, interval, f, p.values, p.nanosecond)
    decreases 8 - f
  {
    if f <= p.range.last {
      var next := NextWritten(p, interval, f, text, at);
      WrittenField(p, interval, f, text, at, next);
      WrittenSpells(p, interval, f + 1, text, next);
      SpellsStep(text, at, next, p.range, interval, f, Magnitude(p, f), p.values, p.nanosecond);
    }
  }

  /** Behind a field the text ends or goes on with the next field, which does not begin with a digit. */
  lemma NextWritten(p: Parts, interval: bool, f: nat, text: string, at: nat) returns (next: nat)
    requires Writable(p) && p.range.first <= f <= p.range.last && EndsIn(p, interval, f, text, at)
    ensures FieldWritten(p, interval, f, text, at, next) && EndsIn(p, interval, f + 1, text, next)
  {
    var first, rest := FieldText(p, interval, f), TextFrom(p, interval, f + 1);
    next := at + |first|;
    assert TextFrom(p, interval, f) == first + rest;
    OccursParts(first, rest, text, at);
    if f < p.range.last {
      assert rest[0] == Separator(f + 1, !interval && Complete(p.range)) == text[next + 0];
    } else {
      assert rest == "";
    }
  }

  lemma {:induction false} TextSize(p: Parts, interval: bool, f: nat)
    requires Stored(p, interval) && !p.isNull && Writable(p) && p.range.first <= f
    ensures |TextFrom(p, interval, f)| <= if f == p.range.first then 49
                                             else if f > FRACTION then 0 else 3 * (7 - f) + 10
    decreases 8 - f
  {
    if f <= p.range.last {
      FieldDigits(p, interval, f);
      TextSize(p, interval, f + 1);
    }
  }

  lemma StoredIsWritable(p: Parts, interval: bool)
    requires Stored(p, interval) && !p.isNull
    ensures Writable(p)
  {
  }

  /** The first character after the sign is a digit or the point of a fraction. */
  lemma FirstCharacter(p: Parts, interval: bool)
    requires Stored(p, interval) && !p.isNull && Writable(p)
    ensures var t := TextFrom(p, interval, p.range.first); t != "" && t[0] != '-' && t[0] != '+'
  {
    var f := p.range.first;
    var number := ZeroPadded(Magnitude(p, f), Width(p.range, interval, f));
    FieldDigits(p, interval, f);
    PaddedRead(number, 0, Magnitude(p, f), Width(p.range, interval, f));
    assert IsDigit(number[0]);
  }

  /** Parsing the text of a stored value with its range gives the value back, whatever its range and sign. */
  lemma TextRoundTrip(p: Parts, interval: bool)
    requires Stored(p, interval) && !p.isNull
    ensures Writable(p) && |Text(p, interval)| <= MAX_TEXT
    ensures ParseText(Text(p, interval), p.range, interval) == Good(p)
  {
    StoredIsWritable(p, interval);
    var text, sign := Text(p, interval), DecimalText.SignText(p.negative);
    TextSize(p, interval, p.range.first);
    SignRead(p, interval);
    WrittenSpells(p, interval, p.range.first, text, |sign|);
    StoredIsSpelled(text, p, interval);
    ValueIsParsed(text, interval, p);
  }

  lemma StoredIsSpelled(text: string, p: Parts, interval: bool)
    requires Stored(p, interval) && !p.isNull && 0 < |text| <= MAX_TEXT
    requires Spells(text, SignLength(text, interval), p.range, interval, p.range.first, p.values, p.nanosecond)
    requires interval && text[0] == '-' <==> p.negative
    ensures SpellsValue(text, p, interval)
  {
  }

  lemma SignRead(p: Parts, interval: bool)
    requires Stored(p, interval) && !p.isNull && Writable(p)
    ensures var text, sign := Text(p, interval), DecimalText.SignText(p.negative);
            && text != "" && SignLength(text, interval) == |sign| && (interval && text[0] == '-' <==> p.negative)
            && DecimalText.Occurs(TextFrom(p, interval, p.range.first), text, |sign|)
            && |sign| + |TextFrom(p, interval, p.range.first)| == |text|
  {
    FirstCharacter(p, interval);
    var fields := TextFrom(p, interval, p.range.first);
    assert Text(p, interval)[0] == if p.negative then '-' else fields[0];
  }

  // ---- ISO timestamps -----------------------------------------------------------------------

  lemma NextField(p: Parts, f: nat)
    requires Stored(p, false) && !p.isNull && Writable(p) && Complete(p.range) && YEAR < f <= SECOND
    ensures TextFrom(p, false, f) == FieldText(p, false, f) + TextFrom(p, false, f + 1)
    ensures |FieldText(p, false, f)| == 3 && FieldText(p, false, f)[0] == Separator(f, true)
  {
    FieldDigits(p, false, f);
  }

  /** A whole timestamp has its parts at the places where the ISO parser looks for them. */
  lemma IsoLayout(p: Parts)
    requires Stored(p, false) && !p.isNull && Writable(p) && Complete(p.range)
    ensures var t := Text(p, false);
            && |t| == (if p.range.last == SECOND then 19 else 20 + p.range.digits)
            && t[10] == 'T' && (p.range.last == FRACTION ==> t[19] == '.')
  {
    var t, year := Text(p, false), FieldText(p, false, YEAR);
    FieldDigits(p, false, YEAR);
    NextField(p, MONTH);
    NextField(p, DAY);
    NextField(p, HOUR);
    NextField(p, MINUTE);
    NextField(p, SECOND);
    var date := year + FieldText(p, false, MONTH) + FieldText(p, false, DAY);
    var time := FieldText(p, false, HOUR) + FieldText(p, false, MINUTE) + FieldText(p, false, SECOND);
    assert t == date + time + TextFrom(p, false, FRACTION);
    assert |year| == 4 && |date| == 10 && |time| == 9 && t[10] == time[0];
    if p.range.last == FRACTION {
      FieldDigits(p, false, FRACTION);
      assert TextFrom(p, false, FRACTION) == FieldText(p, false, FRACTION) + "";
      assert t[19] == FieldText(p, false, FRACTION)[0];
    }
  }

  /** The ISO parser infers the range from the text and gives the value back. */
  lemma IsoRoundTrip(p: Parts)
    requires Stored(p, false) && !p.isNull && Complete(p.range)
    ensures Writable(p) && ParseIso(Text(p, false)) == Good(p)
  {
    TextRoundTrip(p, false);
    IsoLayout(p);
    IsoInfersRange(Text(p, false), p.range);
  }

  lemma {:induction false} IsoInfersRange(text: string, r: Range)
    requires Complete(r) && RangeStatus(r, false, false) == Ok && |text| <= MAX_TEXT
    requires |text| == if r.last == SECOND then 19 else 20 + r.digits
    requires text[10] == 'T' && (r.last == FRACTION ==> text[19] == '.')
    ensures ParseIso(text) == ParseText(text, r, false)
  {
  }
}
