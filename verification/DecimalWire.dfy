/** Fixed-width DECIMAL, NUMERIC and MONEY payloads (src/sqli_decimal_codec.c): a header byte with
    sign and biased base-100 exponent, then base-100 groups, radix-complemented for negative values.
    The payload with only zero bytes is SQL NULL. */
module DecimalWire {
  import opened Status
  import opened Radix
  import opened Numbers
  import opened Base100
  import opened Decimals

  const MAX_PRECISION: nat := 32
  const FLOATING_SCALE: nat := 255
  const MAX_GROUPS: nat := 16
  const WIRE_CAPACITY: nat := 18

  datatype WireType = WireType(precision: nat, scale: nat) {
    predicate Valid() {
      1 <= precision <= MAX_PRECISION && (Floating() || scale <= precision)
    }

    predicate Floating() {
      scale == FLOATING_SCALE
    }

    function Width(): nat {
      (precision + scale % 2 + 3) / 2
    }

    /** Number of base-100 groups after the header. */
    function Groups(): nat {
      (precision + scale % 2 + 1) / 2
    }

    function ZeroScale(): nat {
      if Floating() then 0 else scale
    }
  }

  function DecodeType(descriptor: nat): (r: Result<WireType>)
    requires descriptor < 0x1_0000
    ensures r.Good? ==> r.value.Valid()
  {
    var t := WireType(descriptor / 256, descriptor % 256);
    if t.precision == 0 || t.precision > MAX_PRECISION || (!t.Floating() && t.scale > t.precision)
    then Bad(ProtoError) else Good(t)
  }

  /** A descriptor is accepted exactly if its two bytes are a precision and a scale it admits; every such
      pair has a descriptor. */
  lemma DescriptorsAreTypes(descriptor: nat, t: WireType)
    requires descriptor < 0x1_0000
    ensures DecodeType(descriptor) == Good(t) <==> t.Valid() && descriptor == 256 * t.precision + t.scale
    ensures t.Valid() ==> 256 * t.precision + t.scale < 0x1_0000
  {
    if t.Valid() && descriptor == 256 * t.precision + t.scale {
      assert descriptor / 256 == t.precision && descriptor % 256 == t.scale;
    }
  }

  // ---- What is encoded ----------------------------------------------------------------------

  function Half(i: int): int {
    (i + 1) / 2
  }

  /** Digits left once trailing zeros are dropped. */
  function Significant(c: nat): nat
    requires c > 0
  {
    FewZeros(c);
    Digits(c) - TrailingZeros(c)
  }

  lemma {:induction false} FewZeros(c: nat)
    requires c > 0
    ensures TrailingZeros(c) < Digits(c)
  {
    if c % 10 == 0 { FewZeros(c / 10); }
  }

  /** Base-100 exponent: the leading pair stands just below 100^e. */
  function WireExponent(n: Number): int
    requires n.Num?
  {
    Half(Exponent(n))
  }

  /** One if the leading digit is the second of its pair. */
  function Padding(n: Number): nat
    requires n.Num?
  {
    2 * WireExponent(n) - Exponent(n)
  }

  function PairCount(n: Number): nat
    requires n.Num? && n.coefficient > 0
  {
    (Padding(n) + Significant(n.coefficient) + 1) / 2
  }

  /** Whether the descriptor has room for the digits, or why it has not. */
  function DigitCheck(n: Number, t: WireType): Status
    requires n.Num? && n.coefficient > 0
  {
    if t.Floating() then
      if Significant(n.coefficient) > t.precision then OutOfRange else Ok
    else
      var reduction := n.scale - t.scale;
      if reduction > TrailingZeros(n.coefficient) then Inexact
      else if Digits(n.coefficient) - reduction > t.precision then OutOfRange
      else Ok
  }

  function EncodeCheck(n: Number, t: WireType): Status
    requires n.Num? && n.coefficient > 0
  {
    if DigitCheck(n, t) != Ok then DigitCheck(n, t)
    else if !(-64 <= WireExponent(n) <= 63) then OutOfRange
    else if PairCount(n) > MAX_GROUPS || PairCount(n) > t.Width() - 1 then OutOfRange
    else Ok
  }

  /** The significant digits as a number. */
  function Shortest(c: nat): nat
    requires c > 0
  {
    if c % 10 == 0 then Shortest(c / 10) else c
  }

  /** The number the groups of the payload carry: the significant digits behind the padding. */
  function Aligned(n: Number, w: nat): nat
    requires n.Num? && n.coefficient > 0 && PairCount(n) <= w
  {
    Shifted(Shortest(n.coefficient), 2 * w - Padding(n) - Significant(n.coefficient))
  }

  function Header(negative: bool, e: int): (h: byte)
    requires -64 <= e <= 63
    ensures h < 128 <==> negative
  {
    if negative then 255 - (128 + (e + 64)) else 128 + (e + 64)
  }

  function Payload(negative: bool, e: int, v: nat, w: nat): (bytes: seq<byte>)
    requires -64 <= e <= 63
    ensures |bytes| == 1 + w
  {
    [Header(negative, e)] + if negative then Complement(GroupsOf(w, v)) else GroupsOf(w, v)
  }

  function EncodeWire(n: Number, t: WireType): (r: Result<seq<byte>>)
    requires t.Valid()
    ensures r.Good? ==> |r.value| == t.Width()
  {
    if n.Null? then Good(GroupsOf(t.Width(), 0))
    else if n.coefficient == 0 then Good([128] + GroupsOf(t.Groups(), 0))
    else if EncodeCheck(n, t) != Ok then Bad(EncodeCheck(n, t))
    else Good(Payload(n.negative, WireExponent(n), Aligned(n, t.Groups()), t.Groups()))
  }

  // ---- What is decoded ----------------------------------------------------------------------

  function ExponentOf(header: byte): (e: int)
    ensures -64 <= e <= 63
  {
    if header < 128 then (127 - header) - 64 else (header - 128) - 64
  }

  function DecodeNumber(header: byte, v: nat, t: WireType): Result<Number>
    requires t.Valid()
  {
    if v == 0 then
      if header == 128 then Good(Num(false, 0, t.ZeroScale())) else Bad(ProtoError)
    else
      var z := TrailingZeros(v);
      var scale := 2 * t.Groups() - z - 2 * ExponentOf(header);
      var extra := if t.Floating() then 0 else t.scale - scale;
      if t.Groups() - z / 2 > MAX_GROUPS || v < Pow100(t.Groups() - 1) then Bad(ProtoError)
      else if Digits(Shortest(v)) > t.precision then Bad(ProtoError)
      else if extra < 0 || extra > t.precision - Digits(Shortest(v)) then Bad(ProtoError)
      else Good(Num(header < 128, Shifted(Shortest(v), extra), scale + extra))
  }

  predicate AllZero(bytes: seq<byte>) {
    forall i :: 0 <= i < |bytes| ==> bytes[i] == 0
  }

  /** The groups as a positive value has them. */
  function PlainGroups(bytes: seq<byte>): (g: seq<byte>)
    requires |bytes| > 0 && AreGroups(bytes[1..])
    ensures AreGroups(g) && |g| == |bytes| - 1
  {
    if bytes[0] < 128 then Complement(bytes[1..]) else bytes[1..]
  }

  function DecodeWire(bytes: seq<byte>, t: WireType): Result<Number>
    requires t.Valid()
  {
    if |bytes| != t.Width() then Bad(ProtoError)
    else if AllZero(bytes) then Good(Null)
    else if !AreGroups(bytes[1..]) then Bad(ProtoError)
    else DecodeNumber(bytes[0], Base100.Number(PlainGroups(bytes)), t)
  }

  // ---- Payload and number determine each other ----------------------------------------------

  lemma PayloadGroups(negative: bool, e: int, v: nat, w: nat)
    requires -64 <= e <= 63 && v < Pow100(w)
    ensures var bytes := Payload(negative, e, v, w);
            && AreGroups(bytes[1..]) && Base100.Number(PlainGroups(bytes)) == v
            && ExponentOf(bytes[0]) == e && (bytes[0] < 128) == negative
            && (v > 0 ==> !AllZero(bytes))
  {
    var g := GroupsOf(w, v);
    var bytes := Payload(negative, e, v, w);
    GroupsOfValue(w, v);
    assert bytes[1..] == if negative then Complement(g) else g;
    ComplementInvolutive(g);
    ComplementValue(g);
    if AllZero(bytes) { ValueZeros(bytes[1..], 0, w); }
  }

  lemma GroupsPayload(bytes: seq<byte>)
    requires |bytes| > 0 && AreGroups(bytes[1..])
    ensures Base100.Number(PlainGroups(bytes)) < Pow100(|bytes| - 1)
    ensures bytes == Payload(bytes[0] < 128, ExponentOf(bytes[0]), Base100.Number(PlainGroups(bytes)), |bytes| - 1)
  {
    NumberBelow(PlainGroups(bytes));
    ComplementInvolutive(bytes[1..]);
    assert bytes == [bytes[0]] + bytes[1..];
  }

  lemma ZeroGroups(n: nat)
    ensures AllZero(GroupsOf(n, 0)) && forall g: seq<byte> :: |g| == n && AllZero(g) ==> g == GroupsOf(n, 0)
  {
    GroupsOfValue(n, 0);
    ValueZeros(GroupsOf(n, 0), 0, n);
  }

  /** A number with a digit in its first pair has twice as many digits as pairs, or one less. */
  lemma PairDigits(v: nat, w: nat)
    requires w > 0 && v > 0
    ensures Pow100(w - 1) <= v < Pow100(w) <==> 2 * w - 1 <= Digits(v) <= 2 * w
  {
    DigitsWithin(v, 2 * w);
    if w > 1 { DigitsWithin(v, 2 * w - 2); }
  }

  /** A coefficient made of significant digits and zeros. */
  lemma {:induction false} WithZeros(m: nat, x: nat)
    requires m % 10 != 0
    ensures var c := Shifted(m, x);
            c > 0 && TrailingZeros(c) == x && Shortest(c) == m && Significant(c) == Digits(m)
            && Digits(c) == Digits(m) + x
  {
    if x > 0 {
      WithZeros(m, x - 1);
      OneMoreZero(Shifted(m, x - 1));
    }
  }

  lemma OneMoreZero(c: nat)
    requires c > 0
    ensures TrailingZeros(10 * c) == 1 + TrailingZeros(c) && Digits(10 * c) == 1 + Digits(c)
    ensures Shortest(10 * c) == Shortest(c)
  {
    assert 10 * c / 10 == c && 10 * c % 10 == 0;
  }

  lemma {:induction false} Stripped(c: nat)
    requires c > 0
    ensures Shortest(c) % 10 != 0 && c == Shifted(Shortest(c), TrailingZeros(c))
    ensures Digits(Shortest(c)) == Significant(c) == Digits(c) - TrailingZeros(c)
  {
    if c % 10 == 0 { Stripped(c / 10); }
  }

  // ---- Re-encoding what was decoded ---------------------------------------------------------

  /** Where the digits of a value m * 10^x stand in w pairs that it fills from the first pair on. */
  lemma Layout(n: Number, m: nat, x: nat, z: nat, e: int, w: nat)
    requires n.Num? && m % 10 != 0 && n.coefficient == Shifted(m, x)
    requires Digits(m) + x - n.scale == Digits(m) + z + 2 * (e - w)
    requires 2 * w - 1 <= Digits(m) + z <= 2 * w
    ensures n.coefficient > 0 && TrailingZeros(n.coefficient) == x && Shortest(n.coefficient) == m
    ensures Significant(n.coefficient) == Digits(m) && Digits(n.coefficient) == Digits(m) + x
    ensures WireExponent(n) == e && Padding(n) == 2 * w - Digits(m) - z && PairCount(n) == w - z / 2
  {
    WithZeros(m, x);
  }

  lemma DecodedNumberEncodes(header: byte, v: nat, t: WireType)
    requires t.Valid() && 0 < v < Pow100(t.Groups()) && DecodeNumber(header, v, t).Good?
    ensures EncodeWire(DecodeNumber(header, v, t).value, t)
            == Good(Payload(header < 128, ExponentOf(header), v, t.Groups()))
  {
    var extra := DecodedParts(header, v, t);
    Stripped(v);
    PairDigits(v, t.Groups());
    LayoutEncodes(DecodeNumber(header, v, t).value, Shortest(v), extra, TrailingZeros(v), ExponentOf(header), t);
  }

  lemma DecodedParts(header: byte, v: nat, t: WireType) returns (extra: nat)
    requires t.Valid() && v > 0 && DecodeNumber(header, v, t).Good?
    ensures var scale := 2 * t.Groups() - TrailingZeros(v) - 2 * ExponentOf(header) + extra;
            && DecodeNumber(header, v, t).value == Num(header < 128, Shifted(Shortest(v), extra), scale)
            && (t.Floating() || scale == t.scale)
    ensures Digits(Shortest(v)) + extra <= t.precision && v >= Pow100(t.Groups() - 1)
    ensures t.Groups() - TrailingZeros(v) / 2 <= MAX_GROUPS
  {
    extra := if t.Floating() then 0 else t.scale - (2 * t.Groups() - TrailingZeros(v) - 2 * ExponentOf(header));
  }

  lemma LayoutEncodes(n: Number, m: nat, x: nat, z: nat, e: int, t: WireType)
    requires n.Num? && m % 10 != 0 && n.coefficient == Shifted(m, x) && t.Valid()
    requires 2 * t.Groups() - 1 <= Digits(m) + z <= 2 * t.Groups() && -64 <= e <= 63
    requires n.scale == 2 * t.Groups() - z - 2 * e + x && t.Groups() - z / 2 <= MAX_GROUPS
    requires Digits(m) + x <= t.precision
    requires t.Floating() || n.scale == t.scale
    ensures EncodeWire(n, t) == Good(Payload(n.negative, e, Shifted(m, z), t.Groups()))
  {
    Layout(n, m, x, z, e, t.Groups());
    assert EncodeCheck(n, t) == Ok;
  }

  lemma DecodedZeroEncodes(bytes: seq<byte>, t: WireType)
    requires t.Valid() && |bytes| == t.Width() && bytes[0] == 128 && AreGroups(bytes[1..])
    requires Base100.Number(PlainGroups(bytes)) == 0
    ensures bytes == [128] + GroupsOf(t.Groups(), 0)
  {
    GroupsPayload(bytes);
  }

  /** Every accepted payload is the one its value encodes to. */
  lemma DecodedEncodes(bytes: seq<byte>, t: WireType)
    requires t.Valid() && DecodeWire(bytes, t).Good?
    ensures EncodeWire(DecodeWire(bytes, t).value, t) == Good(bytes)
  {
    if AllZero(bytes) {
      ZeroGroups(t.Width());
    } else if Base100.Number(PlainGroups(bytes)) == 0 {
      DecodedZeroEncodes(bytes, t);
    } else {
      GroupsPayload(bytes);
      DecodedNumberEncodes(bytes[0], Base100.Number(PlainGroups(bytes)), t);
    }
  }

  /** Two accepted payloads of one descriptor never denote the same number. */
  lemma DecodingIsInjective(a: seq<byte>, b: seq<byte>, t: WireType)
    requires t.Valid() && DecodeWire(a, t).Good? && DecodeWire(a, t) == DecodeWire(b, t)
    ensures a == b
  {
    DecodedEncodes(a, t);
    DecodedEncodes(b, t);
  }

  // ---- Decoding what was encoded ------------------------------------------------------------

  /** What a value reads back as: at the scale of the descriptor, or with the shortest coefficient. */
  function ReadBack(n: Number, t: WireType): Result<Number> {
    if n.Null? then Good(n)
    else if n.coefficient == 0 then Good(n.(scale := t.ZeroScale()))
    else if t.Floating() then Good(Num(n.negative, Shortest(n.coefficient), n.scale - TrailingZeros(n.coefficient)))
    else Rescaled(n, t.scale)
  }

  lemma AlignedDigits(n: Number, w: nat)
    requires n.Num? && n.coefficient > 0 && PairCount(n) <= w && w > 0
    ensures var v := Aligned(n, w);
            && Pow100(w - 1) <= v < Pow100(w) && v > 0 && Shortest(v) == Shortest(n.coefficient)
            && TrailingZeros(v) == 2 * w - Padding(n) - Significant(n.coefficient)
  {
    Stripped(n.coefficient);
    WithZeros(Shortest(n.coefficient), 2 * w - Padding(n) - Significant(n.coefficient));
    PairDigits(Aligned(n, w), w);
  }

  /** The value at the scale of the descriptor, or with the shortest coefficient. */
  function Reread(n: Number, t: WireType): Number
    requires n.Num? && n.coefficient > 0 && (t.Floating() || n.scale - t.scale <= TrailingZeros(n.coefficient))
  {
    var m, scale := Shortest(n.coefficient), n.scale - TrailingZeros(n.coefficient);
    if t.Floating() then Num(n.negative, m, scale) else Num(n.negative, Shifted(m, t.scale - scale), t.scale)
  }

  lemma EncodedNumberDecodes(n: Number, t: WireType)
    requires n.Num? && n.coefficient > 0 && t.Valid() && EncodeCheck(n, t) == Ok
    ensures DecodeNumber(Header(n.negative, WireExponent(n)), Aligned(n, t.Groups()), t) == Good(Reread(n, t))
  {
    RereadFits(n, t);
    AlignedFits(n, t.Groups(), Aligned(n, t.Groups()), Header(n.negative, WireExponent(n)));
    DecodesTo(Header(n.negative, WireExponent(n)), Aligned(n, t.Groups()), t, Reread(n, t), Shortest(n.coefficient),
              n.scale - TrailingZeros(n.coefficient));
  }

  /** The first pair is not empty, there are not too many, and digits and scale are these. */
  ghost predicate Carries(header: byte, v: nat, w: nat, m: nat, scale: int) {
    && w > 0 && v > 0 && v >= Pow100(w - 1) && w - TrailingZeros(v) / 2 <= MAX_GROUPS
    && Shortest(v) == m && 2 * w - TrailingZeros(v) - 2 * ExponentOf(header) == scale
  }

  lemma AlignedFits(n: Number, w: nat, v: nat, header: byte)
    requires n.Num? && n.coefficient > 0 && PairCount(n) <= w && PairCount(n) <= MAX_GROUPS && w > 0
    requires v == Aligned(n, w) && ExponentOf(header) == WireExponent(n)
    ensures Carries(header, v, w, Shortest(n.coefficient), n.scale - TrailingZeros(n.coefficient))
  {
    AlignedDigits(n, w);
    PairsAndScale(n, w);
  }

  lemma RereadFits(n: Number, t: WireType)
    requires n.Num? && n.coefficient > 0 && t.Valid() && DigitCheck(n, t) == Ok
    ensures Rereads(Shortest(n.coefficient), n.scale - TrailingZeros(n.coefficient), t, Reread(n, t))
  {
    Stripped(n.coefficient);
  }

  /** The number with these digits and the scale the type asks for. */
  ghost predicate Rereads(m: nat, scale: int, t: WireType, n: Number) {
    && Digits(m) <= t.precision && n.Num?
    && if t.Floating() then n.coefficient == m && n.scale == scale
       else scale <= t.scale <= scale + t.precision - Digits(m)
            && n.coefficient == Shifted(m, t.scale - scale) && n.scale == t.scale
  }

  lemma ReadBackIs(n: Number, t: WireType)
    requires n.Num? && n.Canonical() && n.coefficient > 0 && t.Valid() && DigitCheck(n, t) == Ok
    ensures ReadBack(n, t) == Good(Reread(n, t))
  {
    if !t.Floating() {
      RescaleStripped(n, t.scale, Shortest(n.coefficient), TrailingZeros(n.coefficient));
    }
  }

  lemma PairsAndScale(n: Number, w: nat)
    requires n.Num? && n.coefficient > 0 && PairCount(n) <= w
    ensures var z := 2 * w - Padding(n) - Significant(n.coefficient);
            && z >= 0 && w - z / 2 == PairCount(n)
            && 2 * w - z - 2 * WireExponent(n) == n.scale - TrailingZeros(n.coefficient)
  {
    Stripped(n.coefficient);
  }

  lemma DecodesTo(header: byte, v: nat, t: WireType, n: Number, m: nat, scale: int)
    requires t.Valid() && Carries(header, v, t.Groups(), m, scale)
    requires Rereads(m, scale, t, n) && n.negative == (header < 128)
    ensures DecodeNumber(header, v, t) == Good(n)
  {
  }

  /** Rescaling changes the number of trailing zeros only. */
  lemma RescaleStripped(n: Number, scale: nat, m: nat, z: nat)
    requires n.Num? && n.coefficient > 0 && m == Shortest(n.coefficient) && z == TrailingZeros(n.coefficient)
    requires n.scale - scale <= z && Digits(n.coefficient) - (n.scale - scale) <= MAX_DIGITS
    ensures Rescaled(n, scale) == Good(Num(n.negative, Shifted(m, z - (n.scale - scale)), scale))
  {
    Stripped(n.coefficient);
    if scale > n.scale {
      RescaledUp(n, scale, m, z);
    } else if scale < n.scale {
      RescaledDown(n, scale, m, z);
    }
  }

  lemma RescaledUp(n: Number, scale: nat, m: nat, z: nat)
    requires n.Num? && n.coefficient == Shifted(m, z) > 0 && n.scale < scale
    requires scale - n.scale <= MAX_DIGITS - Digits(n.coefficient)
    ensures Rescaled(n, scale) == Good(Num(n.negative, Shifted(m, z + (scale - n.scale)), scale))
  {
    MoreZeros(m, z, scale - n.scale);
  }

  lemma RescaledDown(n: Number, scale: nat, m: nat, z: nat)
    requires n.Num? && n.coefficient == Shifted(m, z) > 0 && scale < n.scale <= scale + z
    ensures Rescaled(n, scale) == Good(Num(n.negative, Shifted(m, z - (n.scale - scale)), scale))
  {
    FewerZeros(m, z, n.scale - scale);
  }

  lemma {:induction false} MoreZeros(m: nat, z: nat, r: nat)
    ensures Shifted(m, z + r) == Product(Shifted(m, z), Pow10(r))
  {
    ShiftedIs(Shifted(m, z), r);
    if r > 0 {
      MoreZeros(m, z, r - 1);
      ShiftedIs(Shifted(m, z), r - 1);
    }
  }

  lemma FewerZeros(m: nat, z: nat, r: nat)
    requires r <= z
    ensures Shifted(m, z) / Pow10(r) == Shifted(m, z - r)
    ensures Shifted(m, z) % Pow10(r) == 0
  {
    MoreZeros(m, z - r, r);
    MulDivCancel(Shifted(m, z - r), Pow10(r));
  }

  /** Whatever is encoded decodes, to the value read back. */
  lemma EncodedDecodes(n: Number, t: WireType)
    requires n.Canonical() && t.Valid() && EncodeWire(n, t).Good?
    ensures ReadBack(n, t).Good? && DecodeWire(EncodeWire(n, t).value, t) == ReadBack(n, t)
  {
    ZeroGroups(t.Width());
    ZeroGroups(t.Groups());
    if n.Num? && n.coefficient > 0 {
      AlignedDigits(n, t.Groups());
      PayloadGroups(n.negative, WireExponent(n), Aligned(n, t.Groups()), t.Groups());
      EncodedNumberDecodes(n, t);
      ReadBackIs(n, t);
    } else if n.Num? {
      var bytes := [128 as byte] + GroupsOf(t.Groups(), 0);
      assert bytes[1..] == GroupsOf(t.Groups(), 0);
      ValueZeros(GroupsOf(t.Groups(), 0), 0, t.Groups());
      assert bytes[0] != 0;
    }
  }

  /** The value read back is exactly the value encoded, and only SQL NULL has the all-zero payload. */
  lemma EncodingIsExact(n: Number, t: WireType)
    requires n.Canonical() && t.Valid() && EncodeWire(n, t).Good?
    ensures var r := DecodeWire(EncodeWire(n, t).value, t);
            && r.Good? && r.value.Null? == n.Null?
            && (n.Num? ==> SameValue(n, r.value) && (!t.Floating() ==> r.value.scale == t.scale))
    ensures AllZero(EncodeWire(n, t).value) <==> n.Null?
  {
    EncodedDecodes(n, t);
    if n.Num? && n.coefficient > 0 && t.Floating() { ShortestSameValue(n); }
    if n.Num? && n.coefficient > 0 && !t.Floating() { RescaledIsExact(n, t.scale); }
    if n.Num? && n.coefficient == 0 { RescaledIsExact(n, t.ZeroScale()); }
    ZeroGroups(t.Width());
  }

  lemma DecodedIsCanonical(bytes: seq<byte>, t: WireType)
    requires t.Valid() && DecodeWire(bytes, t).Good?
    ensures DecodeWire(bytes, t).value.Canonical()
  {
    if !AllZero(bytes) && Base100.Number(PlainGroups(bytes)) > 0 {
      GroupsPayload(bytes);
      DecodedNumberIsCanonical(bytes[0], Base100.Number(PlainGroups(bytes)), t);
    }
  }

  lemma DecodedNumberIsCanonical(header: byte, v: nat, t: WireType)
    requires t.Valid() && 0 < v < Pow100(t.Groups()) && DecodeNumber(header, v, t).Good?
    ensures DecodeNumber(header, v, t).value.Canonical()
  {
    var extra := DecodedParts(header, v, t);
    PairDigits(v, t.Groups());
    FewZeros(v);
    Stripped(v);
    WithZeros(Shortest(v), extra);
  }

  /** The payloads refused are exactly those that no value encodes to. */
  lemma RefusedExactly(bytes: seq<byte>, t: WireType)
    requires t.Valid()
    ensures DecodeWire(bytes, t).Bad? <==> forall n: Number :: n.Canonical() ==> EncodeWire(n, t) != Good(bytes)
  {
    if DecodeWire(bytes, t).Good? {
      DecodedIsCanonical(bytes, t);
      DecodedEncodes(bytes, t);
    }
    forall n: Number | n.Canonical() && EncodeWire(n, t) == Good(bytes) ensures DecodeWire(bytes, t).Good? {
      EncodedDecodes(n, t);
    }
  }

  lemma ShortestSameValue(n: Number)
    requires n.Num? && n.coefficient > 0
    ensures SameValue(n, Num(n.negative, Shortest(n.coefficient), n.scale - TrailingZeros(n.coefficient)))
  {
    Stripped(n.coefficient);
    SameAtScale(n, Shortest(n.coefficient), TrailingZeros(n.coefficient), n.scale - TrailingZeros(n.coefficient));
    assert Shifted(Shortest(n.coefficient), 0) == Shortest(n.coefficient);
  }

  /** Moving the scale moves the zeros. */
  lemma SameAtScale(n: Number, m: nat, z: nat, scale: int)
    requires n.Num? && n.coefficient == Shifted(m, z) && n.scale - scale <= z
    ensures SameValue(n, Num(n.negative, Shifted(m, z - (n.scale - scale)), scale))
  {
    var at := Max(n.scale, scale);
    UnitsOf(n, at);
    UnitsOf(Num(n.negative, Shifted(m, z - (n.scale - scale)), scale), at);
    MoreZeros(m, z, at - n.scale);
    MoreZeros(m, z - (n.scale - scale), at - scale);
    assert z + (at - n.scale) == z - (n.scale - scale) + (at - scale);
  }

  // ---- Exactly which values are encoded -----------------------------------------------------

  /** Once the digit checks pass, the significant pairs fit the width of the descriptor. */
  lemma WidthNeverRejects(n: Number, t: WireType)
    requires n.Num? && n.coefficient > 0 && t.Valid() && DigitCheck(n, t) == Ok
    ensures PairCount(n) <= t.Width() - 1
  {
    Stripped(n.coefficient);
  }

  lemma NoIntegerBelow(n: Number, k: nat, scale: int)
    requires n.Num? && n.coefficient > 0 && n.scale - scale > TrailingZeros(n.coefficient)
    ensures !SameValue(n, Num(n.negative, k, scale))
  {
    if SameValue(n, Num(n.negative, k, scale)) {
      var r := n.scale - scale;
      SameValueBelow(n, n.negative, k, scale);
      assert n.coefficient == Product(k, Pow10(r));
      MulDivCancel(k, Pow10(r));
      TrailingZerosDivides(n.coefficient, r);
    }
  }

  lemma OneInteger(n: Number, k: nat, l: nat, scale: int)
    requires n.Num? && SameValue(n, Num(n.negative, k, scale)) && SameValue(n, Num(n.negative, l, scale))
    ensures k == l
  {
    OrderIsTotal(n, Num(n.negative, k, scale), Num(n.negative, l, scale));
    UnitsOf(Num(n.negative, k, scale), scale);
    UnitsOf(Num(n.negative, l, scale), scale);
    assert Product(k, Pow10(0)) == k && Product(l, Pow10(0)) == l;
  }

  /** The integer a value is at a scale, if it is one: its digits and whether it ends in zero. */
  lemma IntegerAtScale(n: Number, scale: int, k: nat)
    requires n.Num? && n.coefficient > 0 && SameValue(n, Num(n.negative, k, scale))
    ensures n.scale - scale <= TrailingZeros(n.coefficient)
    ensures k > 0 && Digits(k) == Digits(n.coefficient) - (n.scale - scale)
    ensures TrailingZeros(k) == TrailingZeros(n.coefficient) - (n.scale - scale)
  {
    var m, z := Shortest(n.coefficient), TrailingZeros(n.coefficient);
    Stripped(n.coefficient);
    if n.scale - scale > z { NoIntegerBelow(n, k, scale); }
    SameAtScale(n, m, z, scale);
    OneInteger(n, k, Shifted(m, z - (n.scale - scale)), scale);
    WithZeros(m, z - (n.scale - scale));
  }

  /** A fixed-scale descriptor refuses as inexact exactly the values that are no integer at its scale. */
  lemma FixedInexact(n: Number, t: WireType)
    requires n.Num? && n.coefficient > 0 && t.Valid() && !t.Floating()
    ensures EncodeWire(n, t) == Bad(Inexact) <==> forall k: nat :: !SameValue(n, Num(n.negative, k, t.scale))
  {
    var m, z := Shortest(n.coefficient), TrailingZeros(n.coefficient);
    if n.scale - t.scale > z {
      forall k: nat ensures !SameValue(n, Num(n.negative, k, t.scale)) { NoIntegerBelow(n, k, t.scale); }
    } else {
      Stripped(n.coefficient);
      SameAtScale(n, m, z, t.scale);
    }
  }

  /** Of the integers at its scale it encodes exactly those with no more digits than its precision, except
      for 32 significant digits whose first stands alone in its pair. */
  lemma FixedEncodesExactly(n: Number, t: WireType, k: nat)
    requires n.Num? && n.coefficient > 0 && t.Valid() && !t.Floating()
    requires SameValue(n, Num(n.negative, k, t.scale))
    ensures EncodeWire(n, t).Good? <==>
              Digits(k) <= t.precision && !(Digits(k) == 32 && t.scale % 2 == 1 && k % 10 != 0)
    ensures EncodeWire(n, t).Bad? ==> EncodeWire(n, t) == Bad(OutOfRange)
  {
    IntegerAtScale(n, t.scale, k);
    Stripped(n.coefficient);
    if DigitCheck(n, t) == Ok { WidthNeverRejects(n, t); }
  }

  /** A floating descriptor encodes exactly the values whose significant digits fit and whose leading
      digit stands between 10^-130 and 10^125. */
  lemma FloatingEncodesExactly(n: Number, t: WireType)
    requires n.Num? && n.coefficient > 0 && t.Valid() && t.Floating()
    ensures var d := Significant(n.coefficient);
            EncodeWire(n, t).Good? <==>
              d <= t.precision && -129 <= Exponent(n) <= 126 && !(d == 32 && Exponent(n) % 2 == 1)
    ensures EncodeWire(n, t).Bad? ==> EncodeWire(n, t) == Bad(OutOfRange)
  {
    Stripped(n.coefficient);
  }
}
