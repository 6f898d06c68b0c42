/** The encoder and decoder of src/sqli_decimal_codec.c, loop by loop, against the payloads of
    module DecimalWire. */
module DecimalCodec {
  import opened Status
  import opened Arrays
  import opened Radix
  import opened Numbers
  import opened Base100
  import opened Decimals
  import opened DecimalWire

  // ---- Shifting -----------------------------------------------------------------------------

  lemma {:induction false} ShiftedTen(m: nat, z: nat)
    ensures Shifted(10 * m, z) == Shifted(m, z + 1)
  {
    if z > 0 { ShiftedTen(m, z - 1); }
  }

  lemma {:induction false} ShiftedSum(a: nat, b: nat, z: nat)
    ensures Shifted(a + b, z) == Shifted(a, z) + Shifted(b, z)
  {
    if z > 0 { ShiftedSum(a, b, z - 1); }
  }

  /** Adding to one group adds that many units of its weight. */
  lemma {:induction false} GroupAdds(g: seq<byte>, h: seq<byte>, from: nat, j: nat, to: nat, x: nat)
    requires from <= j < to <= |g| && g[j] + x < 256 && h == g[j := g[j] + x]
    ensures GroupsValue(h, from, to) == GroupsValue(g, from, to) + Shifted(x, 2 * (to - 1 - j))
  {
    if j == to - 1 {
      ValueFrame(g, h, from, to - 1);
    } else {
      GroupAdds(g, h, from, j, to - 1, x);
      assert Shifted(x, 2 * (to - 1 - j)) == 10 * Shifted(x, 2 * (to - 2 - j) + 1);
    }
  }

  // ---- Encoding -----------------------------------------------------------------------------

  /** A digit's share of its group: tens in the first place of a pair, units in the second. */
  function Share(position: nat, digit: nat): nat {
    if position % 2 == 0 then digit * 10 else digit
  }

  lemma ShareWeight(position: nat, digit: nat, w: nat)
    requires position / 2 < w
    ensures Shifted(Share(position, digit), 2 * (w - 1 - position / 2)) == Shifted(digit, 2 * w - 1 - position)
  {
    if position % 2 == 0 { ShiftedTen(digit, 2 * (w - 1 - position / 2)); }
  }

  /** Pairs before a position hold digits, the pair at an odd position holds tens only, the rest is empty. */
  ghost predicate FilledTo(g: seq<byte>, position: nat) {
    forall j :: 1 <= j < |g| ==>
      && g[j] < 100
      && (2 * (j - 1) >= position ==> g[j] == 0)
      && (2 * (j - 1) + 1 == position ==> g[j] <= 90)
  }

  lemma NextPlace(g: seq<byte>, position: nat, digit: nat, w: nat)
    requires FilledTo(g, position) && digit < 10 && position / 2 < w < |g|
    ensures g[1 + position / 2] + Share(position, digit) < 100
    ensures FilledTo(g[1 + position / 2 := g[1 + position / 2] + Share(position, digit)], position + 1)
    ensures GroupsValue(g[1 + position / 2 := g[1 + position / 2] + Share(position, digit)], 1, 1 + w)
            == GroupsValue(g, 1, 1 + w) + Shifted(digit, 2 * w - 1 - position)
  {
    var j := 1 + position / 2;
    assert 2 * (j - 1) == position || 2 * (j - 1) + 1 == position;
    GroupAdds(g, g[j := g[j] + Share(position, digit)], 1, j, 1 + w, Share(position, digit));
    ShareWeight(position, digit, w);
  }

  /** The leading digits grow by one digit. */
  lemma NextLeading(c: nat, k: nat, z: nat)
    ensures DigitAt(c, k) < 10
    ensures Shifted(Leading(c, k), z) == Shifted(Leading(c, k + 1), z + 1) + Shifted(DigitAt(c, k), z)
  {
    DigitStep(c, k);
    ShiftedSum(10 * Leading(c, k + 1), DigitAt(c, k), z);
    ShiftedTen(Leading(c, k + 1), z);
  }

  lemma LeadingShortest(c: nat)
    requires c > 0
    ensures Leading(c, TrailingZeros(c)) == Shortest(c)
  {
    Stripped(c);
    var m, z := Shortest(c), TrailingZeros(c);
    ShiftedIs(m, z);
    MulDivCancel(m, Pow10(z));
  }

  lemma {:induction false} ShiftedNothing(z: nat)
    ensures Shifted(0, z) == 0
  {
    if z > 0 { ShiftedNothing(z - 1); }
  }

  method PutDigit(encoded: array<byte>, position: nat, digit: nat, w: nat)
    requires FilledTo(encoded[..], position) && digit < 10 && position / 2 < w < encoded.Length
    modifies encoded
    ensures FilledTo(encoded[..], position + 1)
    ensures GroupsValue(encoded[..], 1, 1 + w)
            == old(GroupsValue(encoded[..], 1, 1 + w)) + Shifted(digit, 2 * w - 1 - position)
  {
    ghost var before := encoded[..];
    NextPlace(before, position, digit, w);
    var j := 1 + position / 2;
    encoded[j] := encoded[j] + Share(position, digit);
    assert encoded[..] == before[j := before[j] + Share(position, digit)];
  }

  /** The first i digits of the coefficient stand in the groups behind the padding. */
  ghost predicate DigitsPut(g: seq<byte>, c: nat, i: nat, padding: nat, w: nat) {
    && w < |g| && i <= Digits(c) && padding + i <= 2 * w && FilledTo(g, padding + i)
    && GroupsValue(g, 1, 1 + w) == Shifted(Leading(c, Digits(c) - i), 2 * w - padding - i)
  }

  lemma NonePut(g: seq<byte>, c: nat, padding: nat, w: nat)
    requires AllZero(g) && padding <= 2 * w && w < |g|
    ensures DigitsPut(g, c, 0, padding, w)
  {
    LeadingNone(c);
    ValueZeros(g, 1, 1 + w);
    ShiftedNothing(2 * w - padding);
  }

  lemma NextPut(g: seq<byte>, h: seq<byte>, c: nat, i: nat, padding: nat, w: nat)
    requires DigitsPut(g, c, i, padding, w) && |h| == |g| && i < Digits(c) && padding + i < 2 * w
    requires FilledTo(h, padding + i + 1)
    requires GroupsValue(h, 1, 1 + w) == GroupsValue(g, 1, 1 + w) + Shifted(TopDigit(c, i), 2 * w - 1 - (padding + i))
    ensures DigitsPut(h, c, i + 1, padding, w)
  {
    NextLeading(c, Digits(c) - 1 - i, 2 * w - padding - i - 1);
  }

  lemma AllPut(g: seq<byte>, c: nat, padding: nat, w: nat, d: nat)
    requires c > 0 && d == DecimalWire.Significant(c) && DigitsPut(g, c, d, padding, w)
    ensures AreGroups(g[1..1 + w])
    ensures Base100.Number(g[1..1 + w]) == Shifted(Shortest(c), 2 * w - padding - d)
  {
    LeadingShortest(c);
    FilledSpan(g, padding + d, w);
  }

  lemma FilledSpan(g: seq<byte>, position: nat, w: nat)
    requires w < |g| && FilledTo(g, position)
    ensures AreGroups(g[1..1 + w]) && Base100.Number(g[1..1 + w]) == GroupsValue(g, 1, 1 + w)
  {
    ValueMoved(g, 1, 1 + w, g[1..1 + w], 0);
  }

  /** Adds the significant digits to the empty groups, from the leading one on. */
  method PutDigits(value: Decimal, digits: nat, significant: nat, padding: nat, encoded: array<byte>, w: nat)
    requires value.Valid() && value.Coefficient() > 0 && digits == Digits(value.Coefficient())
    requires significant == DecimalWire.Significant(value.Coefficient()) && padding <= 1
    requires (padding + significant + 1) / 2 <= w < encoded.Length && AllZero(encoded[..])
    modifies encoded
    ensures AreGroups(encoded[1..1 + w])
    ensures Base100.Number(encoded[1..1 + w])
            == Shifted(Shortest(value.Coefficient()), 2 * w - padding - significant)
  {
    ghost var c := value.Coefficient();
    NonePut(encoded[..], c, padding, w);
    for i := 0 to significant
      invariant DigitsPut(encoded[..], c, i, padding, w)
    {
      var digit := value.DigitFromTop(digits, i);
      ghost var before := encoded[..];
      PutDigit(encoded, padding + i, digit, w);
      NextPut(before, encoded[..], c, i, padding, w);
    }
    AllPut(encoded[..], c, padding, w, significant);
  }

  /** So many zeros end the coefficient at least. */
  ghost predicate EndsInZeros(c: nat, zeros: nat) {
    c % Pow10(zeros) == 0
  }

  lemma NextZero(c: nat, zeros: nat)
    requires c > 0 && EndsInZeros(c, zeros)
    ensures DigitAt(c, zeros) == 0 ==> EndsInZeros(c, zeros + 1)
    ensures DigitAt(c, zeros) != 0 ==> TrailingZeros(c) == zeros
  {
    TrailingZerosDivides(c, zeros);
    TrailingZerosDivides(c, zeros + 1);
    DigitStep(c, zeros);
    MulLe(if DigitAt(c, zeros) == 0 then 0 else 1, DigitAt(c, zeros), Pow10(zeros));
  }

  lemma ZeroLimbs(limbs: seq<nat>, n: nat)
    requires n <= |limbs| && Cells(LIMB_DIGITS, limbs) && forall i :: 0 <= i < n ==> limbs[i] == 0
    ensures EndsInZeros(LimbValue(limbs), LIMB_DIGITS * n)
  {
    UnitIsPow(LIMB_DIGITS, n);
    ValueSplit(LIMB_DIGITS, limbs, n);
    ValueZero(LIMB_DIGITS, limbs[..n]);
  }

  /** Counts the zeros of whole limbs, then those of the first limb that is not zero. */
  method CountTrailingZeros(value: Decimal) returns (zeros: nat)
    requires value.Valid() && value.used > 0
    ensures value.Coefficient() > 0 && zeros == TrailingZeros(value.Coefficient())
  {
    value.LeadingLimb();
    var i: nat := 0;
    while value.limbs[i] == 0
      invariant i < value.used && forall j :: 0 <= j < i ==> value.limbs[j] == 0
      decreases value.used - i
    {
      assert i + 1 < value.used;
      i := i + 1;
    }
    ghost var limbs := value.limbs[..value.used];
    ZeroLimbs(limbs, i);
    var inner := LimbZeros(limbs, i, value.limbs[i]);
    zeros := LIMB_DIGITS * i + inner;
  }

  method LimbZeros(ghost limbs: seq<nat>, ghost i: nat, start: nat) returns (zeros: nat)
    requires i < |limbs| && Cells(LIMB_DIGITS, limbs) && start == limbs[i] > 0 && LimbValue(limbs) > 0
    requires EndsInZeros(LimbValue(limbs), LIMB_DIGITS * i)
    ensures TrailingZeros(LimbValue(limbs)) == LIMB_DIGITS * i + zeros
  {
    zeros := 0;
    var limb := start;
    ghost var c := LimbValue(limbs);
    while limb % 10 == 0
      invariant limb > 0 && limb == Leading(start, zeros) && EndsInZeros(c, LIMB_DIGITS * i + zeros)
      decreases limb
    {
      LimbDigitIs(limbs, i, zeros, limb);
      NextZero(c, LIMB_DIGITS * i + zeros);
      DigitStep(start, zeros);
      zeros := zeros + 1;
      limb := limb / 10;
    }
    LimbDigitIs(limbs, i, zeros, limb);
    NextZero(c, LIMB_DIGITS * i + zeros);
  }

  lemma LimbDigitIs(limbs: seq<nat>, i: nat, j: nat, limb: nat)
    requires i < |limbs| && Cells(LIMB_DIGITS, limbs) && limb == Leading(limbs[i], j) > 0
    ensures DigitAt(LimbValue(limbs), LIMB_DIGITS * i + j) == limb % 10
  {
    if j >= LIMB_DIGITS {
      PowMono(LIMB_DIGITS, j);
      DivModUnique(limbs[i], Pow10(j), 0, limbs[i]);
    }
    DigitOfCell(LIMB_DIGITS, limbs, i, j, LIMB_DIGITS * i + j);
  }

  /** Division that truncates toward zero. */
  function HalfToZero(i: int): int {
    if i >= 0 then i / 2 else -(-i / 2)
  }

  lemma HalfOf(i: int)
    ensures Half(i) == if i >= 0 then (i + 1) / 2 else HalfToZero(i)
  {
  }

  /** Every reason to refuse a nonzero coefficient, and where its digits go. */
  method CheckCoefficient(value: Decimal, ghost n: Number, t: WireType)
    returns (status: Status, digits: nat, significant: nat, padding: nat, exponent: int)
    requires value.Valid() && value.used > 0 && n == value.Model() && n.Num? && n.coefficient > 0 && t.Valid()
    ensures status == EncodeCheck(n, t)
    ensures status == Ok ==>
              && digits == Digits(n.coefficient) && significant == DecimalWire.Significant(n.coefficient)
              && padding == Padding(n) && exponent == WireExponent(n)
  {
    significant, padding, exponent := 0, 0, 0;
    digits := value.DigitCount();
    var zeros := CountTrailingZeros(value);
    FewZeros(n.coefficient);
    significant := digits - zeros;
    status := CheckDigits(n.coefficient, digits, zeros, value.scale, t, n);
    if status != Ok { return; }
    var integral := digits - value.scale;
    HalfOf(integral);
    exponent := if integral >= 0 then (integral + 1) / 2 else HalfToZero(integral);
    if exponent < -64 || exponent > 63 { status := OutOfRange; return; }
    padding := exponent * 2 - integral;
    var groups := (padding + significant + 1) / 2;
    if groups > MAX_GROUPS || groups > t.Width() - 1 { status := OutOfRange; return; }
  }

  method CheckDigits(ghost c: nat, digits: nat, zeros: nat, scale: int, t: WireType, ghost n: Number)
    returns (status: Status)
    requires n.Num? && n.coefficient == c > 0 && digits == Digits(c) && zeros == TrailingZeros(c)
    requires scale == n.scale
    ensures status == DigitCheck(n, t)
  {
    FewZeros(c);
    if t.Floating() {
      if digits - zeros > t.precision { return OutOfRange; }
    } else {
      var reduction := scale - t.scale;
      if reduction > zeros { return Inexact; }
      if digits - reduction > t.precision { return OutOfRange; }
    }
    return Ok;
  }

  /** Header and groups of a nonzero coefficient, in a cleared buffer. */
  method EncodeCoefficient(value: Decimal, ghost n: Number, t: WireType, encoded: array<byte>)
    returns (status: Status)
    requires value.Valid() && value.used > 0 && n == value.Model() && n.Num? && n.coefficient > 0 && t.Valid()
    requires encoded.Length == WIRE_CAPACITY && AllZero(encoded[..])
    modifies encoded
    ensures status == EncodeCheck(n, t)
    ensures status == Ok ==> EncodeWire(n, t) == Good(encoded[..t.Width()])
  {
    var digits, significant, padding, exponent;
    status, digits, significant, padding, exponent := CheckCoefficient(value, n, t);
    if status != Ok { return; }
    WriteCoefficient(value, digits, significant, padding, exponent, encoded, t.Groups());
    Assembled(n, t, significant, padding, exponent, encoded[..t.Width()]);
  }

  method WriteCoefficient(value: Decimal, digits: nat, significant: nat, padding: nat, exponent: int,
                          encoded: array<byte>, w: nat)
    requires value.Valid() && value.Coefficient() > 0 && digits == Digits(value.Coefficient())
    requires significant == DecimalWire.Significant(value.Coefficient()) && padding <= 1 && -64 <= exponent <= 63
    requires (padding + significant + 1) / 2 <= w < encoded.Length && AllZero(encoded[..])
    modifies encoded
    ensures encoded[..1 + w] == Payload(value.negative, exponent,
              Shifted(Shortest(value.Coefficient()), 2 * w - padding - significant), w)
  {
    PutDigits(value, digits, significant, padding, encoded, w);
    NumberBelow(encoded[1..1 + w]);
    SetHeader(encoded, value.negative, exponent, w, Base100.Number(encoded[1..1 + w]));
  }

  lemma Assembled(n: Number, t: WireType, significant: nat, padding: nat, exponent: int,
                                     bytes: seq<byte>)
    requires n.Num? && n.coefficient > 0 && t.Valid() && EncodeCheck(n, t) == Ok && exponent == WireExponent(n)
    requires significant == DecimalWire.Significant(n.coefficient) && padding == Padding(n)
    requires bytes == Payload(n.negative, exponent,
               Shifted(Shortest(n.coefficient), 2 * t.Groups() - padding - significant), t.Groups())
    ensures EncodeWire(n, t) == Good(bytes)
  {
  }

  /** Puts in the header and complements the groups of a negative value. */
  method SetHeader(encoded: array<byte>, negative: bool, exponent: int, w: nat, ghost v: nat)
    requires w < encoded.Length && -64 <= exponent <= 63 && encoded[1..1 + w] == GroupsOf(w, v)
    modifies encoded
    ensures encoded[..1 + w] == Payload(negative, exponent, v, w)
  {
    encoded[0] := 128 + (exponent + 64);
    if negative {
      encoded[0] := 255 - encoded[0];
      RadixComplement(encoded, 1, 1 + w);
      assert encoded[0] == encoded[..1][0];
    }
    assert encoded[..1 + w] == [encoded[0]] + encoded[1..1 + w];
  }

  lemma ZeroPayload(encoded: seq<byte>, t: WireType)
    requires t.Valid() && |encoded| == WIRE_CAPACITY && encoded[0] == 128 && AllZero(encoded[1..])
    ensures encoded[..t.Width()] == [128] + GroupsOf(t.Groups(), 0)
  {
    ZeroGroups(t.Groups());
    assert encoded[1..t.Width()] == encoded[1..][..t.Groups()];
    assert encoded[..t.Width()] == [128] + encoded[1..t.Width()];
  }

  /** Writes the payload of a value, and nothing unless it succeeds. */
  method Encode(value: Decimal, descriptor: nat, bytes: array<byte>, capacity: nat)
    returns (status: Status, length: nat)
    requires value.Valid() && descriptor < 0x1_0000 && capacity <= bytes.Length
    modifies bytes
    ensures status == match DecodeType(descriptor)
                      case Bad(s) => s
                      case Good(t) =>
                        if EncodeWire(value.Model(), t).Bad? then EncodeWire(value.Model(), t).status
                        else if capacity < t.Width() then BufferTooSmall else Ok
    ensures status != Ok ==> bytes[..] == old(bytes[..])
    ensures status == Ok ==>
              && length <= bytes.Length
              && EncodeWire(value.Model(), DecodeType(descriptor).value) == Good(bytes[..length])
              && bytes[length..] == old(bytes[length..])
  {
    length := 0;
    var wireType := DecodeType(descriptor);
    if wireType.Bad? { return wireType.status, 0; }
    var t := wireType.value;
    ghost var n := value.Model();
    value.LeadingLimb();
    var encoded := new byte[WIRE_CAPACITY](_ => 0);
    if value.isNull {
      ZeroGroups(t.Width());
    } else if value.used == 0 {
      encoded[0] := 128;
      ZeroPayload(encoded[..], t);
    } else {
      status := EncodeCoefficient(value, n, t, encoded);
      if status != Ok { return; }
    }
    if capacity < t.Width() { return BufferTooSmall, 0; }
    length := t.Width();
    CopyFirst(bytes, encoded, length);
    status := Ok;
  }

  // ---- Decoding -----------------------------------------------------------------------------

  /** The digit at a position of the groups, two digits to a group. */
  function PairDigit(g: seq<byte>, i: nat): (digit: nat)
    requires i / 2 < |g| && AreGroups(g)
    ensures digit < 10
  {
    if i % 2 == 0 then g[i / 2] / 10 else g[i / 2] % 10
  }

  /** The number the first i digits of the groups make. */
  function FirstDigits(g: seq<byte>, i: nat): nat
    requires i <= 2 * |g| && AreGroups(g)
  {
    if i == 0 then 0 else 10 * FirstDigits(g, i - 1) + PairDigit(g, i - 1)
  }

  lemma {:induction false} FirstPairs(g: seq<byte>, k: nat)
    requires k <= |g| && AreGroups(g)
    ensures FirstDigits(g, 2 * k) == GroupsValue(g, 0, k)
  {
    if k > 0 {
      FirstPairs(g, k - 1);
      assert FirstDigits(g, 2 * k - 1) == 10 * FirstDigits(g, 2 * (k - 1)) + g[k - 1] / 10;
    }
  }

  lemma {:induction false} TrailingDigits(g: seq<byte>, end: nat, i: nat)
    requires end <= i <= 2 * |g| && AreGroups(g)
    requires forall j :: end <= j < i ==> PairDigit(g, j) == 0
    ensures FirstDigits(g, i) == Shifted(FirstDigits(g, end), i - end)
  {
    if end < i { TrailingDigits(g, end, i - 1); }
  }

  /** Counted from the first digit that is not zero. */
  lemma {:induction false} CountDigits(g: seq<byte>, first: nat, i: nat)
    requires first < i <= 2 * |g| && AreGroups(g) && FirstDigits(g, first) == 0 && PairDigit(g, first) > 0
    ensures FirstDigits(g, i) > 0 && Digits(FirstDigits(g, i)) == i - first
  {
    if first + 1 < i { CountDigits(g, first, i - 1); }
  }

  /** From the first to past the last digit that is not zero. */
  ghost predicate DigitSpan(g: seq<byte>, first: nat, end: nat) {
    && AreGroups(g) && first < end <= 2 * |g| && FirstDigits(g, first) == 0
    && PairDigit(g, first) > 0 && PairDigit(g, end - 1) > 0
    && forall j :: end <= j < 2 * |g| ==> PairDigit(g, j) == 0
  }

  lemma SpanOf(g: seq<byte>, first: nat, end: nat)
    requires DigitSpan(g, first, end)
    ensures Base100.Number(g) > 0 && TrailingZeros(Base100.Number(g)) == 2 * |g| - end
    ensures Shortest(Base100.Number(g)) == FirstDigits(g, end) && Digits(FirstDigits(g, end)) == end - first
  {
    FirstPairs(g, |g|);
    TrailingDigits(g, end, 2 * |g|);
    CountDigits(g, first, end);
    LastDigit(g, end);
    WithZeros(FirstDigits(g, end), 2 * |g| - end);
  }

  lemma LastDigit(g: seq<byte>, end: nat)
    requires 0 < end <= 2 * |g| && AreGroups(g) && PairDigit(g, end - 1) > 0
    ensures FirstDigits(g, end) % 10 != 0
  {
    LowDigit(FirstDigits(g, end - 1), PairDigit(g, end - 1));
  }

  lemma LowDigit(x: nat, digit: nat)
    requires digit < 10
    ensures (10 * x + digit) % 10 == digit
  {
  }

  lemma GroupSpan(g: seq<byte>, count: nat, first: nat, end: nat)
    requires AreGroups(g) && 0 < count <= |g| && g[0] != 0 && g[count - 1] != 0
    requires forall j :: count <= j < |g| ==> g[j] == 0
    requires first == if g[0] < 10 then 1 else 0
    requires end == 2 * count - if g[count - 1] % 10 == 0 then 1 else 0
    ensures DigitSpan(g, first, end) && count == |g| - (2 * |g| - end) / 2
  {
    assert PairDigit(g, 0) == g[0] / 10 && PairDigit(g, 1) == g[0] % 10;
    assert PairDigit(g, 2 * count - 2) == g[count - 1] / 10 && PairDigit(g, 2 * count - 1) == g[count - 1] % 10;
    assert FirstDigits(g, 1) == PairDigit(g, 0);
    forall j | end <= j < 2 * |g| ensures PairDigit(g, j) == 0 {
      if j >= 2 * count { assert g[j / 2] == 0; } else { assert j == 2 * count - 1; }
    }
  }

  /** Appends one digit to the coefficient; four limbs have room for it. */
  method AppendDigit(limbs: array<nat>, digit: nat)
    requires limbs.Length == 4 && Cells(LIMB_DIGITS, limbs[..]) && digit < 10
    requires 10 * LimbValue(limbs[..]) + digit < Unit(LIMB_DIGITS, 4)
    modifies limbs
    ensures Cells(LIMB_DIGITS, limbs[..]) && LimbValue(limbs[..]) == 10 * old(LimbValue(limbs[..])) + digit
  {
    var carry: nat := digit;
    ghost var was := limbs[..];
    ghost var done: seq<nat> := [];
    LimbBase();
    for i := 0 to 4
      invariant limbs[..i] == done && carry < 10
      invariant forall j :: i <= j < 4 ==> limbs[j] == was[j]
      invariant Appended(done, was[..i], carry, digit)
    {
      AppendStep(done, was[..i], was[i], carry, digit);
      assert limbs[i] == was[i] && was[..i + 1] == was[..i] + [was[i]];
      var next := limbs[i] * 10 + carry;
      limbs[i] := next % LIMB_BASE;
      carry := next / LIMB_BASE;
      assert limbs[..i + 1] == limbs[..i] + [limbs[i]];
      done := done + [next % LIMB_BASE];
    }
    assert was[..4] == was && limbs[..] == limbs[..4];
    NothingLeft(done, was, carry, digit);
  }

  /** The limbs so far are ten times the old ones plus the digit, but for a carry. */
  ghost predicate Appended(done: seq<nat>, low: seq<nat>, carry: nat, digit: nat) {
    && Cells(LIMB_DIGITS, done)
    && LimbValue(done) + Product(Unit(LIMB_DIGITS, |low|), carry) == 10 * LimbValue(low) + digit
  }

  lemma NothingLeft(done: seq<nat>, low: seq<nat>, carry: nat, digit: nat)
    requires Appended(done, low, carry, digit) && 10 * LimbValue(low) + digit < Unit(LIMB_DIGITS, |low|)
    ensures LimbValue(done) == 10 * LimbValue(low) + digit
  {
    if carry > 0 { MulLe(1, carry, Unit(LIMB_DIGITS, |low|)); Commute(carry, Unit(LIMB_DIGITS, |low|)); }
  }

  lemma AppendStep(done: seq<nat>, low: seq<nat>, limb: nat, carry: nat, digit: nat)
    requires |done| == |low| && limb < LIMB_BASE && carry < 10 && Appended(done, low, carry, digit)
    ensures var next := limb * 10 + carry;
            next / LIMB_BASE < 10 && Appended(done + [next % LIMB_BASE], low + [limb], next / LIMB_BASE, digit)
  {
    var next := limb * 10 + carry;
    LimbBase();
    ValueSnoc(LIMB_DIGITS, done, next % LIMB_BASE);
    ValueSnoc(LIMB_DIGITS, low, limb);
    AppendWeights(Unit(LIMB_DIGITS, |low|), limb, carry);
  }

  lemma AppendWeights(u: nat, limb: nat, carry: nat)
    ensures u * ((limb * 10 + carry) % LIMB_BASE) + Product(LIMB_BASE * u, (limb * 10 + carry) / LIMB_BASE)
            == 10 * (u * limb) + Product(u, carry)
  {
    SplitProduct(u, limb * 10 + carry);
    DistributeLeft(u, limb * 10, carry);
    Associate(u, limb, 10);
  }

  lemma RoomFor(x: nat, digits: nat)
    requires x == 0 || Digits(x) <= digits
    requires digits <= 36
    ensures x < Unit(LIMB_DIGITS, 4)
  {
    UnitIsPow(LIMB_DIGITS, 4);
    DigitsBounds(x);
    PowMono(Digits(x), Max(36, Digits(x)));
  }

  /** Appends the digits of a span of groups to a cleared coefficient. */
  method AppendDigits(limbs: array<nat>, groups: array<byte>, ghost g: seq<byte>, first: nat, end: nat)
    requires limbs.Length == 4 && Cells(LIMB_DIGITS, limbs[..]) && LimbValue(limbs[..]) == 0
    requires |g| <= groups.Length && g == groups[..|g|] && |g| <= 17 && DigitSpan(g, first, end)
    modifies limbs
    ensures Cells(LIMB_DIGITS, limbs[..]) && LimbValue(limbs[..]) == FirstDigits(g, end)
  {
    for i := first to end
      invariant Cells(LIMB_DIGITS, limbs[..]) && LimbValue(limbs[..]) == FirstDigits(g, i)
    {
      var group := groups[i / 2];
      assert group == g[i / 2];
      CountDigits(g, first, i + 1);
      RoomFor(FirstDigits(g, i + 1), i + 1 - first);
      AppendDigit(limbs, if i % 2 == 0 then group / 10 else group % 10);
    }
  }

  lemma {:induction false} ShiftedDigits(m: nat, z: nat)
    requires m > 0
    ensures Shifted(m, z) > 0 && Digits(Shifted(m, z)) == Digits(m) + z
  {
    if z > 0 { ShiftedDigits(m, z - 1); }
  }

  method AppendZeros(limbs: array<nat>, ghost m: nat, count: nat)
    requires limbs.Length == 4 && Cells(LIMB_DIGITS, limbs[..]) && LimbValue(limbs[..]) == m > 0
    requires Digits(m) + count <= 36
    modifies limbs
    ensures Cells(LIMB_DIGITS, limbs[..]) && LimbValue(limbs[..]) == Shifted(m, count)
  {
    for i := 0 to count
      invariant Cells(LIMB_DIGITS, limbs[..]) && LimbValue(limbs[..]) == Shifted(m, i)
    {
      ShiftedDigits(m, i + 1);
      RoomFor(Shifted(m, i + 1), Digits(m) + i + 1);
      AppendDigit(limbs, 0);
    }
  }

  /** Copies the groups out of a payload, unless one is too large, and undoes the complement. */
  method ReadGroups(bytes: array<byte>, w: nat) returns (valid: bool, groups: array<byte>)
    requires w < bytes.Length && w < WIRE_CAPACITY
    ensures fresh(groups) && groups.Length == WIRE_CAPACITY
    ensures valid == AreGroups(bytes[1..1 + w])
    ensures valid ==> groups[..w] == PlainGroups(bytes[..1 + w]) && AreGroups(groups[..w])
  {
    groups := new byte[WIRE_CAPACITY](_ => 0);
    for i := 0 to w
      invariant forall j :: 0 <= j < i ==> groups[j] == bytes[1 + j] && groups[j] < 100
    {
      if bytes[i + 1] >= 100 {
        assert bytes[1..1 + w][i] == bytes[i + 1];
        return false, groups;
      }
      groups[i] := bytes[i + 1];
    }
    assert groups[0..w] == bytes[1..1 + w] == bytes[..1 + w][1..];
    if bytes[0] < 128 { RadixComplement(groups, 0, w); }
    assert groups[0..w] == groups[..w];
    valid := true;
  }

  /** Number of groups up to the last that is not zero. */
  method UsedGroups(groups: array<byte>, w: nat) returns (count: nat)
    requires w <= groups.Length
    ensures count <= w && (count > 0 ==> groups[count - 1] != 0)
    ensures forall j :: count <= j < w ==> groups[j] == 0
  {
    count := w;
    while count != 0 && groups[count - 1] == 0
      invariant count <= w && forall j :: count <= j < w ==> groups[j] == 0
    {
      count := count - 1;
    }
  }

  /** What a number is decoded to, given its last digits that are zeros and those in front of them. */
  lemma {:induction false} DecodesNumber(header: byte, v: nat, t: WireType, m: nat, z: nat)
    requires t.Valid() && v > 0 && m == Shortest(v) && z == TrailingZeros(v) && v >= Pow100(t.Groups() - 1)
    ensures var scale := 2 * t.Groups() - z - 2 * ExponentOf(header);
            var extra := if t.Floating() then 0 else t.scale - scale;
            DecodeNumber(header, v, t)
            == if t.Groups() - z / 2 > MAX_GROUPS || Digits(m) > t.precision
                  || extra < 0 || extra > t.precision - Digits(m) then Bad(ProtoError)
               else Good(Num(header < 128, Shifted(m, extra), scale + extra))
  {
  }

  /** What is decoded, given where the digits stand. */
  lemma {:induction false} DecodesSpan(header: byte, g: seq<byte>, t: WireType, count: nat, first: nat, end: nat)
    requires t.Valid() && |g| == t.Groups() && 0 < count <= |g| && g[0] != 0 && DigitSpan(g, first, end)
    requires count == |g| - (2 * |g| - end) / 2
    ensures var scale := end - 2 * ExponentOf(header);
            var extra := if t.Floating() then 0 else t.scale - scale;
            var m := FirstDigits(g, end);
            && m > 0 && Digits(m) == end - first
            && DecodeNumber(header, Base100.Number(g), t)
               == if count > MAX_GROUPS || end - first > t.precision
                     || extra < 0 || extra > t.precision - (end - first) then Bad(ProtoError)
                  else Good(Num(header < 128, Shifted(m, extra), scale + extra))
  {
    SpanOf(g, first, end);
    FirstPair(g);
    DecodesNumber(header, Base100.Number(g), t, FirstDigits(g, end), 2 * |g| - end);
  }

  lemma FirstPair(g: seq<byte>)
    requires AreGroups(g) && |g| > 0
    ensures Base100.Number(g) >= Pow100(|g| - 1) <==> g[0] != 0
  {
    ValueSplits(g, 0, 1, |g|);
    ValueBelow(g, 1, |g|);
    assert GroupsValue(g, 0, 1) == g[0];
    if g[0] != 0 { MulLe(1, g[0], Pow100(|g| - 1)); }
  }

  lemma FirstPairEmpty(header: byte, g: seq<byte>, t: WireType)
    requires t.Valid() && |g| == t.Groups() && AreGroups(g) && Base100.Number(g) > 0 && g[0] == 0
    ensures DecodeNumber(header, Base100.Number(g), t) == Bad(ProtoError)
  {
    FirstPair(g);
  }

  /** Finds the digits of nonzero groups, or the reason to refuse them. */
  method CheckGroups(header: byte, groups: array<byte>, w: nat, count: nat, t: WireType)
    returns (valid: bool, first: nat, end: nat, extra: nat, scale: int)
    requires t.Valid() && w == t.Groups() <= groups.Length && 0 < count <= w && AreGroups(groups[..w])
    requires groups[count - 1] != 0 && forall j :: count <= j < w ==> groups[j] == 0
    ensures var g := groups[..w];
            if !valid then DecodeNumber(header, Base100.Number(g), t) == Bad(ProtoError)
            else
              && DigitSpan(g, first, end) && FirstDigits(g, end) > 0 && Digits(FirstDigits(g, end)) == end - first
              && end - first + extra <= MAX_PRECISION && IsInt32(scale)
              && DecodeNumber(header, Base100.Number(g), t)
                 == Good(Num(header < 128, Shifted(FirstDigits(g, end), extra), scale))
  {
    first, end, extra, scale := 0, 0, 0, 0;
    ghost var g := groups[..w];
    ValueZeros(g, 0, w);
    assert g[count - 1] == groups[count - 1];
    if count > MAX_GROUPS || groups[0] == 0 {
      valid := false;
      TooManyOrEmpty(header, g, t, count);
      return;
    }
    var exponent := if header < 128 then (127 - header) - 64 else (header - 128) - 64;
    var drop := groups[count - 1] % 10 == 0;
    first := if groups[0] < 10 then 1 else 0;
    end := count * 2 - if drop then 1 else 0;
    var digits := end - first;
    scale := count * 2 - exponent * 2 - if drop then 1 else 0;
    GroupSpan(g, count, first, end);
    DecodesSpan(header, g, t, count, first, end);
    valid := digits <= t.precision;
    if valid && !t.Floating() {
      valid := 0 <= t.scale - scale <= t.precision - digits;
      if valid {
        extra := t.scale - scale;
        scale := t.scale;
      }
    }
  }

  lemma TooManyOrEmpty(header: byte, g: seq<byte>, t: WireType, count: nat)
    requires t.Valid() && |g| == t.Groups() && AreGroups(g) && 0 < count <= |g| && g[count - 1] != 0
    requires forall j :: count <= j < |g| ==> g[j] == 0
    requires count > MAX_GROUPS || g[0] == 0
    ensures DecodeNumber(header, Base100.Number(g), t) == Bad(ProtoError)
  {
    ValueZeros(g, 0, |g|);
    if g[0] == 0 {
      FirstPairEmpty(header, g, t);
    } else {
      var first, end := if g[0] < 10 then 1 else 0, 2 * count - if g[count - 1] % 10 == 0 then 1 else 0;
      GroupSpan(g, count, first, end);
      DecodesSpan(header, g, t, count, first, end);
    }
  }

  /** Decodes the payload of a descriptor; the object keeps its value unless the payload is accepted. */
  method DecodeCoefficient(bytes: array<byte>, t: WireType, value: Decimal) returns (status: Status)
    requires value.Valid() && t.Valid() && bytes.Length >= t.Width() && !AllZero(bytes[..t.Width()])
    modifies value, value.inline
    ensures value.Valid() && (value.limbs == old(value.limbs) || value.limbs == value.inline || fresh(value.limbs))
    ensures status == old(DecodeWire(bytes[..t.Width()], t)).Code()
    ensures status == Ok ==> old(DecodeWire(bytes[..t.Width()], t)) == Good(value.Model())
    ensures status != Ok ==> value.Model() == old(value.Model())
  {
    var w := t.Width() - 1;
    ghost var r := DecodeWire(bytes[..t.Width()], t);
    var valid, groups := ReadGroups(bytes, w);
    if !valid { return ProtoError; }
    var count := UsedGroups(groups, w);
    if count == 0 {
      ValueZeros(groups[..w], 0, w);
      if bytes[0] != 128 { return ProtoError; }
      status := value.SetI64(0, t.ZeroScale(), false);
    } else {
      status := DecodeDigits(bytes[0], groups, w, count, t, value, r);
    }
  }

  method DecodeDigits(header: byte, groups: array<byte>, w: nat, count: nat, t: WireType, value: Decimal,
                      ghost r: Result<Number>)
    returns (status: Status)
    requires value.Valid() && t.Valid() && w == t.Groups() < groups.Length && 0 < count <= w
    requires AreGroups(groups[..w]) && r == DecodeNumber(header, Base100.Number(groups[..w]), t)
    requires groups[count - 1] != 0 && forall j :: count <= j < w ==> groups[j] == 0
    modifies value, value.inline
    ensures value.Valid() && (value.limbs == old(value.limbs) || value.limbs == value.inline || fresh(value.limbs))
    ensures status == r.Code()
    ensures status == Ok ==> r == Good(value.Model())
    ensures status != Ok ==> value.Model() == old(value.Model())
  {
    ghost var g := groups[..w];
    var valid, first, end, extra, scale := CheckGroups(header, groups, w, count, t);
    if !valid { return ProtoError; }
    var limbs := new nat[4](_ => 0);
    ValueZero(LIMB_DIGITS, limbs[..]);
    AppendDigits(limbs, groups, g, first, end);
    AppendZeros(limbs, FirstDigits(g, end), extra);
    ShiftedDigits(FirstDigits(g, end), extra);
    status := Store(value, limbs, Shifted(FirstDigits(g, end), extra), scale, header < 128);
  }

  method Store(value: Decimal, limbs: array<nat>, ghost c: nat, scale: int, negative: bool)
    returns (status: Status)
    requires value.Valid() && limbs.Length == 4 && Cells(LIMB_DIGITS, limbs[..]) && LimbValue(limbs[..]) == c > 0
    requires Digits(c) <= MAX_PRECISION && IsInt32(scale)
    modifies value, value.inline
    ensures value.Valid() && (value.limbs == old(value.limbs) || value.limbs == value.inline || fresh(value.limbs))
    ensures status == Ok && value.Model() == Num(negative, c, scale)
  {
    LimbBase();
    assert limbs[..4] == limbs[..];
    status := value.SetParts(limbs, 4, scale, negative, false);
  }

  /** Reads a payload into a value, which stays as it was unless that succeeds. */
  method Decode(bytes: array<byte>, length: nat, descriptor: nat, value: Decimal) returns (status: Status)
    requires value.Valid() && descriptor < 0x1_0000 && length <= bytes.Length
    modifies value, value.inline
    ensures value.Valid() && (value.limbs == old(value.limbs) || value.limbs == value.inline || fresh(value.limbs))
    ensures status == match DecodeType(descriptor)
                      case Bad(s) => s
                      case Good(t) => old(DecodeWire(bytes[..length], t)).Code()
    ensures status == Ok ==> old(DecodeWire(bytes[..length], DecodeType(descriptor).value)) == Good(value.Model())
    ensures status != Ok ==> value.Model() == old(value.Model())
  {
    var wireType := DecodeType(descriptor);
    if wireType.Bad? { return wireType.status; }
    var t := wireType.value;
    if length != t.Width() { return ProtoError; }
    var isNull := true;
    for i := 0 to length
      invariant isNull == forall j :: 0 <= j < i ==> bytes[j] == 0
    {
      isNull := isNull && bytes[i] == 0;
    }
    if isNull {
      value.SetNull();
      return Ok;
    }
    status := DecodeCoefficient(bytes, t, value);
  }
}
