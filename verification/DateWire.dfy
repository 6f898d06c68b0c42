/** DATE payloads (src/sqli_temporal_codec.c:42-112): four big-endian bytes counting days from 1899-12-31,
    with 0x80000000 for SQL NULL. */
module DateWire {
  import opened Status
  import opened Calendar

  const FIRST_YEAR: int := 1
  const LAST_YEAR: int := 9999
  const WIRE_SIZE: nat := 4
  const NULL_WORD: nat := 0x8000_0000

  datatype Date = NullDate | Date(day: Day)

  /** The years a DATE may have. */
  predicate ValidDate(d: Date) {
    d.Date? ==> FIRST_YEAR <= d.day.year <= LAST_YEAR && ValidDay(d.day)
  }

  /** Big-endian value of the first bytes. */
  function Word(bytes: seq<byte>, n: nat): nat
    requires n <= |bytes|
  {
    if n == 0 then 0 else 256 * Word(bytes, n - 1) + bytes[n - 1]
  }

  function Limit(n: nat): nat {
    if n == 0 then 1 else 256 * Limit(n - 1)
  }

  /** The low bytes of a word, most significant first. */
  function WordBytes(w: nat, n: nat): (b: seq<byte>)
    ensures |b| == n
  {
    if n == 0 then [] else WordBytes(w / 256, n - 1) + [w % 256]
  }

  lemma {:induction false} WordRoundTrip(w: nat, n: nat)
    requires w < Limit(n)
    ensures Word(WordBytes(w, n), n) == w
  {
    if n > 0 {
      WordRoundTrip(w / 256, n - 1);
      WordFrame(WordBytes(w / 256, n - 1), WordBytes(w, n), n - 1);
    }
  }

  lemma {:induction false} WordFrame(a: seq<byte>, b: seq<byte>, n: nat)
    requires n <= |a| && n <= |b| && forall i :: 0 <= i < n ==> a[i] == b[i]
    ensures Word(a, n) == Word(b, n)
  {
    if n > 0 { WordFrame(a, b, n - 1); }
  }

  lemma {:induction false} BytesRoundTrip(b: seq<byte>, n: nat)
    requires n <= |b|
    ensures Word(b, n) < Limit(n) && WordBytes(Word(b, n), n) == b[..n]
  {
    if n > 0 {
      BytesRoundTrip(b, n - 1);
      assert Word(b, n) / 256 == Word(b, n - 1) && Word(b, n) % 256 == b[n - 1];
      assert b[..n] == b[..n - 1] + [b[n - 1]];
    }
  }

  lemma Limit32()
    ensures Limit(4) == 0x1_0000_0000
  {
    assert Limit(2) == 0x1_0000;
  }

  /** The word a date is sent as. */
  function EncodedWord(d: Date): (w: nat)
    requires ValidDate(d)
    ensures w < 0x1_0000_0000
  {
    if d.NullDate? then NULL_WORD else (DayNumber(d.day) - IFX_EPOCH) % 0x1_0000_0000
  }

  /** The day a word other than the null word counts, as a two's complement number. */
  function DayOfWord(w: nat): int {
    IFX_EPOCH + if w > INT32_MAX then w - 0x1_0000_0000 else w
  }

  predicate InDateRange(n: int) {
    0 <= n < DaysBeforeYear(LAST_YEAR + 1)
  }

  lemma DateInRange(d: Day)
    requires ValidDay(d)
    ensures InDateRange(DayNumber(d)) <==> FIRST_YEAR <= d.year <= LAST_YEAR
  {
    InItsYear(d);
    if d.year < FIRST_YEAR { YearsGrow(d.year + 1, FIRST_YEAR); } else { YearsGrow(FIRST_YEAR, d.year); }
    if d.year > LAST_YEAR { YearsGrow(LAST_YEAR + 1, d.year); } else { YearsGrow(d.year + 1, LAST_YEAR + 1); }
  }

  /** A word and the date it denotes determine each other, and no date is sent as the null word. */
  lemma WordDenotes(d: Day, w: nat)
    requires ValidDate(Date(d)) && w < 0x1_0000_0000
    ensures EncodedWord(Date(d)) == w <==> w != NULL_WORD && DayNumber(d) == DayOfWord(w)
  {
    DateInRange(d);
    Epochs();
    TwosComplement(DayNumber(d) - IFX_EPOCH, w);
  }

  lemma TwosComplement(days: int, w: nat)
    requires INT32_MIN < days <= INT32_MAX && w < 0x1_0000_0000
    ensures days % 0x1_0000_0000 == w <==>
              w != NULL_WORD && days == if w > INT32_MAX then w - 0x1_0000_0000 else w
  {
  }

  method Encode(value: Date, bytes: array<byte>, capacity: nat) returns (status: Status, length: nat)
    requires capacity <= bytes.Length
    modifies bytes
    ensures status == if !ValidDate(value) then OutOfRange else if capacity < WIRE_SIZE then BufferTooSmall else Ok
    ensures status != Ok ==> bytes[..] == old(bytes[..])
    ensures status == Ok ==>
              length == WIRE_SIZE <= bytes.Length && bytes[..WIRE_SIZE] == WordBytes(EncodedWord(value), 4)
              && bytes[WIRE_SIZE..] == old(bytes[WIRE_SIZE..])
  {
    length := 0;
    status := Validate(value);
    if status != Ok { return; }
    if capacity < WIRE_SIZE { return BufferTooSmall, 0; }
    var encoded := NULL_WORD;
    if value.Date? {
      var days := CountDays(value.day);
      encoded := days % 0x1_0000_0000;
    }
    for i := 0 to WIRE_SIZE
      invariant forall j :: 0 <= j < i ==> bytes[j] == WordBytes(encoded, 4)[j]
      invariant bytes[WIRE_SIZE..] == old(bytes[WIRE_SIZE..])
    {
      ByteAt(encoded, WIRE_SIZE, WIRE_SIZE - 1 - i);
      bytes[i] := LowByte(encoded, WIRE_SIZE - 1 - i);
    }
    return Ok, WIRE_SIZE;
  }

  /** The word shifted right by whole bytes, cut to one byte. */
  function LowByte(w: nat, shift: nat): (b: byte) {
    if shift == 0 then w % 256 else LowByte(w / 256, shift - 1)
  }

  lemma {:induction false} ByteAt(w: nat, n: nat, shift: nat)
    requires shift < n
    ensures WordBytes(w, n)[n - 1 - shift] == LowByte(w, shift)
  {
    if shift > 0 { ByteAt(w / 256, n - 1, shift - 1); }
  }

  function Validate(value: Date): (status: Status)
    ensures status == Ok <==> ValidDate(value)
    ensures status == Ok || status == OutOfRange
  {
    if value.NullDate? then Ok
    else if value.day.year < FIRST_YEAR || value.day.year > LAST_YEAR || value.day.month < 1
      || value.day.month > 12 || value.day.day < 1 then OutOfRange
    else if value.day.day <= DaysInMonth(value.day.year, value.day.month) then Ok else OutOfRange
  }

  /** Sums the years and the months before the day. */
  method CountDays(d: Day) returns (days: int)
    requires ValidDate(Date(d))
    ensures days == DayNumber(d) - IFX_EPOCH && IsInt32(days) && days != INT32_MIN
  {
    var ordinal := DaysBeforeYear(d.year) + d.day - 1;
    assert DaysBeforeMonth(d.year, 1) == 0;
    for month := 1 to d.month
      invariant ordinal == DaysBeforeYear(d.year) + DaysBeforeMonth(d.year, month) + d.day - 1
    {
      ordinal := ordinal + DaysInMonth(d.year, month);
    }
    days := ordinal - (DaysBeforeYear(1900) - 1);
    DateInRange(d);
    Epochs();
  }

  /** Binary search for the year a day falls in. */
  method FindYear(ordinal: int) returns (year: int)
    requires InDateRange(ordinal)
    ensures FIRST_YEAR <= year <= LAST_YEAR
    ensures DaysBeforeYear(year) <= ordinal < DaysBeforeYear(year + 1)
  {
    var low, high := FIRST_YEAR, LAST_YEAR;
    while low < high
      invariant FIRST_YEAR <= low <= high <= LAST_YEAR
      invariant DaysBeforeYear(low) <= ordinal < DaysBeforeYear(high + 1)
    {
      var middle := low + (high - low + 1) / 2;
      if DaysBeforeYear(middle) <= ordinal {
        low := middle;
      } else {
        high := middle - 1;
      }
    }
    year := low;
  }

  /** Takes off whole months until the day lies in the current one. */
  method FindMonth(year: int, start: nat) returns (month: nat, day: nat)
    requires start < DaysInYear(year)
    ensures 1 <= month <= 12 && day < DaysInMonth(year, month)
    ensures start == DaysBeforeMonth(year, month) + day
  {
    day := start;
    month := 1;
    assert DaysBeforeMonth(year, 1) == 0;
    while month < 12 && day >= DaysInMonth(year, month)
      invariant 1 <= month <= 12 && start == DaysBeforeMonth(year, month) + day
    {
      day := day - DaysInMonth(year, month);
      month := month + 1;
    }
    MonthSums(year);
  }

  /** Accepts the null word and the days of years 1 to 9999, each as its one date. */
  method Decode(bytes: array<byte>, length: nat) returns (status: Status, value: Date)
    requires length <= bytes.Length
    ensures status == Ok <==>
              length == WIRE_SIZE && var w := Word(bytes[..length], 4); w == NULL_WORD || InDateRange(DayOfWord(w))
    ensures status == Ok ==> ValidDate(value) && WordBytes(EncodedWord(value), 4) == bytes[..length]
    ensures status != Ok ==> status == ProtoError
  {
    value := NullDate;
    if length != WIRE_SIZE { return ProtoError, NullDate; }
    var encoded: nat := 0;
    ghost var input := bytes[..length];
    for i := 0 to length
      invariant encoded == Word(input, i)
    {
      encoded := encoded * 256 + bytes[i];
    }
    BytesRoundTrip(input, 4);
    Limit32();
    assert input[..4] == input;
    status, value := DecodeWord(encoded);
  }

  method DecodeWord(encoded: nat) returns (status: Status, value: Date)
    requires encoded < 0x1_0000_0000
    ensures status == if encoded == NULL_WORD || InDateRange(DayOfWord(encoded)) then Ok else ProtoError
    ensures status == Ok ==> ValidDate(value) && EncodedWord(value) == encoded
  {
    if encoded == NULL_WORD { return Ok, NullDate; }
    var days := if encoded > INT32_MAX then encoded - 0x1_0000_0000 else encoded;
    var ordinal := days + DaysBeforeYear(1900) - 1;
    Epochs();
    if ordinal < 0 || ordinal >= DaysBeforeYear(LAST_YEAR + 1) { return ProtoError, NullDate; }
    var day := DayAt(ordinal);
    WordDenotes(day, encoded);
    return Ok, Date(day);
  }

  /** The date of a day number by search, which the closed form yields as well. */
  method DayAt(ordinal: int) returns (day: Day)
    requires InDateRange(ordinal)
    ensures ValidDate(Date(day)) && DayNumber(day) == ordinal
  {
    var year := FindYear(ordinal);
    YearStep(year);
    var month, rest := FindMonth(year, ordinal - DaysBeforeYear(year));
    day := Day(year, month, rest + 1);
  }

  /** Both calendars name the same date. */
  method BothCalendars(ordinal: int) returns (searched: Day, computed: Day)
    requires InDateRange(ordinal)
    ensures searched == computed && ValidDay(computed) && DayNumber(computed) == ordinal
  {
    searched := DayAt(ordinal);
    computed := DaysToYmd(ordinal - IFX_EPOCH);
    NumbersOrderDays(searched, computed);
  }

  /** A date is read back from its payload: the payload is accepted and no other date has it. */
  lemma DateRoundTrip(d: Date, e: Date)
    requires ValidDate(d)
    ensures var w := Word(WordBytes(EncodedWord(d), 4), 4);
            w == EncodedWord(d) && (w == NULL_WORD || InDateRange(DayOfWord(w)))
    ensures ValidDate(e) && EncodedWord(e) == EncodedWord(d) ==> d == e
  {
    Limit32();
    WordRoundTrip(EncodedWord(d), 4);
    if d.Date? {
      WordDenotes(d.day, EncodedWord(d));
      DateInRange(d.day);
    }
    if ValidDate(e) && e.Date? { WordDenotes(e.day, EncodedWord(e)); }
    if ValidDate(e) && d.Date? && e.Date? { NumbersOrderDays(d.day, e.day); }
  }
}
