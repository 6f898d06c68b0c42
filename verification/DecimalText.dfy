/** Canonical decimal text: what formatting writes, what parsing accepts, and that the second
    undoes the first for every number (src/sqli_decimal.c:397-574). */
module DecimalText {
  import opened Status
  import opened Radix
  import opened Numbers
  import opened Numerals
  import opened Decimals

  const MAX_TEXT: nat := MAX_DIGITS + 32
  const PLAIN_MIN_EXPONENT: int := -6

  // ---- The text of a number -----------------------------------------------------------------

  function Magnitude(x: int): nat {
    if x < 0 then -x else x
  }

  function ExponentText(exponent: int): string {
    [if exponent < 0 then '-' else '+'] + Numeral(Magnitude(exponent))
  }

  /** Exponent of the leading digit in scientific notation. */
  function Adjusted(n: Number): int
    requires n.Num?
  {
    Digits(n.coefficient) - 1 - n.scale
  }

  predicate Scientific(n: Number)
    requires n.Num?
  {
    n.scale < 0 || Adjusted(n) < PLAIN_MIN_EXPONENT
  }

  function ZeroText(n: nat): string {
    seq(n, _ => '0')
  }

  /** Digits and decimal point, without sign and exponent. */
  function MantissaText(n: Number): (t: string)
    requires n.Num?
  {
    var t := Numeral(n.coefficient);
    if Scientific(n) then t[..1] + (if |t| > 1 then "." + t[1..] else "")
    else if n.scale == 0 then t
    else if n.scale < |t| then t[..|t| - n.scale] + "." + t[|t| - n.scale..]
    else "0." + ZeroText(n.scale - |t|) + t
  }

  function Text(n: Number): (t: string)
    requires n.Num?
  {
    SignText(n.negative) + MantissaText(n) + TailText(n)
  }

  function SignText(negative: bool): string {
    if negative then "-" else ""
  }

  function TailText(n: Number): string
    requires n.Num?
  {
    if Scientific(n) then "E" + ExponentText(Adjusted(n)) else ""
  }

  // ---- The number of a text -----------------------------------------------------------------

  predicate IsSign(ch: char) {
    ch == '+' || ch == '-'
  }

  predicate IsExponentMark(ch: char) {
    ch == 'e' || ch == 'E'
  }

  predicate HasPoint(text: string, from: nat, to: nat)
    requires to <= |text|
  {
    from < to && (text[to - 1] == '.' || HasPoint(text, from, to - 1))
  }

  /** Digits with at most one decimal point among them. */
  predicate IsMantissa(text: string, from: nat, to: nat)
    requires to <= |text|
  {
    to <= from ||
    (IsMantissa(text, from, to - 1)
     && (IsDigit(text[to - 1]) || (text[to - 1] == '.' && !HasPoint(text, from, to - 1))))
  }

  /** Number of characters after the decimal point, none if there is no point. */
  function FractionIn(text: string, from: nat, to: nat): nat
    requires to <= |text|
  {
    if to <= from || text[to - 1] == '.' || !HasPoint(text, from, to - 1) then 0
    else 1 + FractionIn(text, from, to - 1)
  }

  function MantissaEnd(text: string, from: nat): (end: nat)
    requires from <= |text|
    ensures from <= end <= |text|
    decreases |text| - from
  {
    if from == |text| || IsExponentMark(text[from]) then from else MantissaEnd(text, from + 1)
  }

  /** Exponent digits, refused at the first character that is no digit or leaves the 64-bit range. */
  function ParseMagnitude(text: string, from: nat, to: nat): (r: Result<nat>)
    requires to <= |text|
    ensures r.Bad? ==> r.status in {InvalidArgument, OutOfRange}
  {
    if to <= from then Good(0)
    else match ParseMagnitude(text, from, to - 1)
      case Bad(s) => Bad(s)
      case Good(v) =>
        if !IsDigit(text[to - 1]) then Bad(InvalidArgument)
        else if 10 * v + DigitOf(text[to - 1]) > INT64_MAX then Bad(OutOfRange)
        else Good(10 * v + DigitOf(text[to - 1]))
  }

  function ParseExponent(text: string, from: nat): Result<int>
    requires from <= |text|
  {
    var signed := from < |text| && IsSign(text[from]);
    var first := if signed then from + 1 else from;
    if first == |text| then Bad(InvalidArgument)
    else match ParseMagnitude(text, first, |text|)
      case Bad(s) => Bad(s)
      case Good(v) => Good(WithSign(signed && text[from] == '-', v))
  }

  /** An exponent after the mantissa, or none. */
  function ParseTail(text: string, end: nat): Result<int>
    requires end <= |text|
  {
    if end == |text| then Good(0) else ParseExponent(text, end + 1)
  }

  function ParseMantissa(text: string, start: nat, end: nat): Result<Number>
    requires start <= end <= |text|
  {
    var c := NumberIn(text, start, end);
    if !IsMantissa(text, start, end) || DigitsIn(text, start, end) == 0 then Bad(InvalidArgument)
    else if Digits(c) > MAX_DIGITS then Bad(LimitExceeded)
    else match ParseTail(text, end)
      case Bad(s) => Bad(s)
      case Good(exponent) =>
        var scale := FractionIn(text, start, end) - exponent;
        if IsInt32(scale) then Good(Canon(text[0] == '-', c, scale)) else Bad(OutOfRange)
  }

  function ParseText(text: string): (r: Result<Number>)
    ensures r.Bad? ==> r.status in {InvalidArgument, OutOfRange, LimitExceeded}
  {
    if text == "" then Bad(InvalidArgument)
    else if |text| > MAX_TEXT then Bad(LimitExceeded)
    else
      var start := if IsSign(text[0]) then 1 else 0;
      ParseMantissa(text, start, MantissaEnd(text, start))
  }

  // ---- Which texts are accepted -------------------------------------------------------------

  /** Between two positions stand digits, perhaps with a point behind some of them, but not a point alone. They
      make a whole part and f decimal places, and c is both without the point. */
  ghost predicate MantissaAt(text: string, start: nat, point: nat, end: nat, c: nat, f: nat) {
    && start <= point <= end <= |text| && OnlyDigits(text, start, point)
    && if point == end then start < end && f == 0 && c == NumberIn(text, start, end)
       else
         && text[point] == '.' && OnlyDigits(text, point + 1, end) && start + 1 < end && f == end - point - 1
         && c == Product(NumberIn(text, start, point), Pow10(f)) + NumberIn(text, point + 1, end)
  }

  /** From a position on stands nothing, or an exponent mark, perhaps a sign, and digits within 64 bits. */
  ghost predicate ExponentAt(text: string, at: nat, e: int) {
    && at <= |text|
    && if at == |text| then e == 0
       else
         var signed := at + 1 < |text| && IsSign(text[at + 1]);
         var first := if signed then at + 2 else at + 1;
         && IsExponentMark(text[at]) && first < |text| && OnlyDigits(text, first, |text|)
         && NumberIn(text, first, |text|) <= INT64_MAX
         && e == WithSign(signed && text[at + 1] == '-', NumberIn(text, first, |text|))
  }

  /** Position after an optional sign. */
  function SignEnd(text: string): (n: nat)
    ensures n <= |text|
  {
    if text != "" && IsSign(text[0]) then 1 else 0
  }

  /** The text is an optional sign, a mantissa and an optional exponent, within the limits, and n is its value. */
  ghost predicate SpellsNumber(text: string, n: Number) {
    && 0 < |text| <= MAX_TEXT
    && exists point: nat, end: nat, c: nat, f: nat, e: int ::
         MantissaAt(text, SignEnd(text), point, end, c, f) && ExponentAt(text, end, e) && Makes(text, c, f - e, n)
  }

  /** The number of these digits at this scale, with the sign of the text, if it is within the limits. */
  predicate Makes(text: string, c: nat, scale: int, n: Number)
    requires text != ""
  {
    Digits(c) <= MAX_DIGITS && IsInt32(scale) && n == Canon(text[0] == '-', c, scale)
  }

  lemma {:induction false} NoPoint(text: string, from: nat, to: nat)
    requires to <= |text| && IsMantissa(text, from, to) && !HasPoint(text, from, to)
    ensures OnlyDigits(text, from, to) && FractionIn(text, from, to) == 0
  {
    if from < to { NoPoint(text, from, to - 1); }
  }

  /** The characters a mantissa is made of have one reading as digits and a point. */
  lemma {:induction false} FindPoint(text: string, from: nat, to: nat) returns (point: nat)
    requires from <= to <= |text| && IsMantissa(text, from, to) && HasPoint(text, from, to)
    ensures from <= point < to && OnlyDigits(text, from, point) && text[point] == '.'
    ensures OnlyDigits(text, point + 1, to) && FractionIn(text, from, to) == to - point - 1
  {
    if text[to - 1] == '.' {
      point := to - 1;
      NoPoint(text, from, to - 1);
    } else {
      point := FindPoint(text, from, to - 1);
    }
  }

  /** Skipping the point, the digits make the whole part times a power of ten and the decimal places. */
  lemma {:induction false} NumberAroundPoint(text: string, from: nat, point: nat, to: nat)
    requires from <= point < to <= |text| && text[point] == '.' && OnlyDigits(text, point + 1, to)
    ensures NumberIn(text, from, to)
            == Product(NumberIn(text, from, point), Pow10(to - point - 1)) + NumberIn(text, point + 1, to)
  {
    if point + 1 < to {
      NumberAroundPoint(text, from, point, to - 1);
      ShiftOne(NumberIn(text, from, point), Pow10(to - point - 2), NumberIn(text, point + 1, to - 1));
    }
  }

  lemma MantissaRead(text: string, start: nat, point: nat, end: nat, c: nat, f: nat)
    requires MantissaAt(text, start, point, end, c, f)
    ensures IsMantissa(text, start, end) && DigitsIn(text, start, end) > 0
    ensures NumberIn(text, start, end) == c && FractionIn(text, start, end) == f
    ensures forall i :: start <= i < end ==> IsDigit(text[i]) || text[i] == '.'
  {
    if point == end {
      PlainMantissa(text, start, end);
      HasDigit(text, start, end, start);
    } else {
      NumberAroundPoint(text, start, point, end);
      HasDigit(text, start, end, if start < point then start else end - 1);
      if point + 1 == end { PlainMantissa(text, start, point); } else { PointMantissa(text, start, point, end); }
    }
  }

  lemma {:induction false} HasDigit(text: string, from: nat, to: nat, k: nat)
    requires from <= k < to <= |text| && IsDigit(text[k])
    ensures DigitsIn(text, from, to) > 0
  {
    if k < to - 1 { HasDigit(text, from, to - 1, k); }
  }

  lemma {:induction false} NoDigit(text: string, from: nat, to: nat)
    requires to <= |text| && forall i :: from <= i < to ==> !IsDigit(text[i])
    ensures DigitsIn(text, from, to) == 0
  {
    if from < to { NoDigit(text, from, to - 1); }
  }

  lemma MantissaFound(text: string, start: nat, end: nat) returns (point: nat)
    requires start <= end <= |text| && IsMantissa(text, start, end) && DigitsIn(text, start, end) > 0
    ensures MantissaAt(text, start, point, end, NumberIn(text, start, end), FractionIn(text, start, end))
  {
    if HasPoint(text, start, end) {
      point := FindPoint(text, start, end);
      NumberAroundPoint(text, start, point, end);
      if end == start + 1 { NoDigit(text, start, end); }
    } else {
      point := end;
      NoPoint(text, start, end);
    }
  }

  /** Digits are read to their number exactly if all are digits and the number is within 64 bits. */
  lemma {:induction false} MagnitudeExactly(text: string, from: nat, to: nat)
    requires from <= to <= |text|
    ensures ParseMagnitude(text, from, to).Good?
            <==> OnlyDigits(text, from, to) && NumberIn(text, from, to) <= INT64_MAX
    ensures ParseMagnitude(text, from, to).Good? ==> ParseMagnitude(text, from, to).value == NumberIn(text, from, to)
  {
    if from < to { MagnitudeExactly(text, from, to - 1); }
  }

  /** Behind a mantissa an exponent is parsed to a value exactly if it stands there. */
  lemma TailExactly(text: string, end: nat, e: int)
    requires end <= |text| && (end == |text| || IsExponentMark(text[end]))
    ensures ParseTail(text, end) == Good(e) <==> ExponentAt(text, end, e)
  {
    if end < |text| {
      var signed := end + 1 < |text| && IsSign(text[end + 1]);
      var first := if signed then end + 2 else end + 1;
      MagnitudeExactly(text, first, |text|);
    }
  }

  lemma {:induction false} AtMantissaEnd(text: string, from: nat)
    requires from <= |text|
    ensures var end := MantissaEnd(text, from); end == |text| || IsExponentMark(text[end])
    decreases |text| - from
  {
    if from < |text| && !IsExponentMark(text[from]) { AtMantissaEnd(text, from + 1); }
  }

  /** A text is parsed to a number exactly if it spells it. */
  lemma AcceptedExactly(text: string, n: Number)
    ensures ParseText(text) == Good(n) <==> SpellsNumber(text, n)
  {
    if ParseText(text) == Good(n) { ParsedIsSpelled(text, n); }
    if SpellsNumber(text, n) { SpelledIsParsed(text, n); }
  }

  lemma ParsedIsSpelled(text: string, n: Number)
    requires ParseText(text) == Good(n)
    ensures SpellsNumber(text, n)
  {
    var start := SignEnd(text);
    var end := MantissaEnd(text, start);
    var point := MantissaFound(text, start, end);
    var e := ParseTail(text, end).value;
    AtMantissaEnd(text, start);
    TailExactly(text, end, e);
    assert Makes(text, NumberIn(text, start, end), FractionIn(text, start, end) - e, n);
  }

  lemma SpelledIsParsed(text: string, n: Number)
    requires SpellsNumber(text, n)
    ensures ParseText(text) == Good(n)
  {
    var start := SignEnd(text);
    var point: nat, end: nat, c: nat, f: nat, e: int :|
      MantissaAt(text, start, point, end, c, f) && ExponentAt(text, end, e) && Makes(text, c, f - e, n);
    PartsAreParsed(text, n, point, end, c, f, e);
  }

  lemma PartsAreParsed(text: string, n: Number, point: nat, end: nat, c: nat, f: nat, e: int)
    requires 0 < |text| <= MAX_TEXT && MantissaAt(text, SignEnd(text), point, end, c, f)
    requires ExponentAt(text, end, e) && Makes(text, c, f - e, n)
    ensures ParseText(text) == Good(n)
  {
    MantissaRead(text, SignEnd(text), point, end, c, f);
    MantissaEndAt(text, SignEnd(text), end);
    TailExactly(text, end, e);
  }

  // ---- Parsing undoes formatting ------------------------------------------------------------

  lemma {:induction false} MantissaEndAt(text: string, from: nat, end: nat)
    requires from <= end <= |text|
    requires forall i :: from <= i < end ==> IsDigit(text[i]) || text[i] == '.'
    requires end == |text| || IsExponentMark(text[end])
    ensures MantissaEnd(text, from) == end
    decreases end - from
  {
    if from < end { MantissaEndAt(text, from + 1, end); }
  }

  lemma {:induction false} PlainMantissa(text: string, from: nat, to: nat)
    requires to <= |text| && OnlyDigits(text, from, to)
    ensures IsMantissa(text, from, to) && !HasPoint(text, from, to) && FractionIn(text, from, to) == 0
  {
    if from < to { PlainMantissa(text, from, to - 1); }
  }

  lemma {:induction false} PointMantissa(text: string, from: nat, point: nat, to: nat)
    requires from <= point < to <= |text| && text[point] == '.'
    requires OnlyDigits(text, from, point) && OnlyDigits(text, point + 1, to)
    ensures IsMantissa(text, from, to) && HasPoint(text, from, to)
    ensures FractionIn(text, from, to) == to - point - 1
  {
    if point == to - 1 { PlainMantissa(text, from, point); } else { PointMantissa(text, from, point, to - 1); }
  }

  /** The numeral of c with a decimal point put in after its first k digits. */
  predicate HoldsWithPoint(text: string, from: nat, c: nat, k: nat) {
    && k <= Digits(c) && from + Digits(c) + 1 <= |text|
    && text[from + k] == '.'
    && forall i :: 0 <= i < Digits(c) ==> text[from + i + (if i < k then 0 else 1)] == Numeral(c)[i]
  }

  lemma PointedDigits(text: string, from: nat, c: nat, k: nat)
    requires HoldsWithPoint(text, from, c, k)
    ensures OnlyDigits(text, from, from + k) && OnlyDigits(text, from + k + 1, from + Digits(c) + 1)
  {
    forall i | from <= i < from + k ensures IsDigit(text[i]) {
      NumeralDigit(c, i - from);
      assert text[from + (i - from) + 0] == Numeral(c)[i - from];
    }
    forall i | from + k < i < from + Digits(c) + 1 ensures IsDigit(text[i]) {
      NumeralDigit(c, i - from - 1);
      assert text[from + (i - from - 1) + 1] == Numeral(c)[i - from - 1];
    }
  }

  lemma {:induction false} PointedNumeralRead(text: string, from: nat, c: nat, k: nat)
    requires HoldsWithPoint(text, from, c, k) && k > 0
    ensures NumberIn(text, from, from + Digits(c) + 1) == c
  {
    var d := Digits(c);
    if k == d {
      forall i | 0 <= i < d ensures text[from + i] == Numeral(c)[i] {
        assert text[from + i + 0] == Numeral(c)[i];
      }
      NumeralRead(text, from, c);
    } else {
      PointedPrefix(text, from, c, k);
      PointedNumeralRead(text, from, c / 10, k);
      LastPointed(text, from, c, k);
    }
  }

  lemma LastPointed(text: string, from: nat, c: nat, k: nat)
    requires HoldsWithPoint(text, from, c, k) && 0 < k < Digits(c)
    ensures Digits(c / 10) == Digits(c) - 1 && IsDigit(text[from + Digits(c)])
    ensures DigitOf(text[from + Digits(c)]) == c % 10
  {
    var d := Digits(c);
    assert text[from + (d - 1) + 1] == Numeral(c)[d - 1] == CharOf(c % 10);
  }

  lemma PointedPrefix(text: string, from: nat, c: nat, k: nat)
    requires HoldsWithPoint(text, from, c, k) && 0 < k < Digits(c)
    ensures c >= 10 && HoldsWithPoint(text, from, c / 10, k)
  {
    forall i | 0 <= i < Digits(c / 10)
      ensures text[from + i + (if i < k then 0 else 1)] == Numeral(c / 10)[i]
    {
      assert Numeral(c / 10)[i] == Numeral(c)[i];
    }
  }

  lemma {:induction false} MagnitudeRead(text: string, from: nat, c: nat)
    requires Holds(text, from, c) && c <= INT64_MAX
    ensures ParseMagnitude(text, from, from + Digits(c)) == Good(c)
  {
    if c >= 10 {
      forall i | 0 <= i < Digits(c / 10) ensures text[from + i] == Numeral(c / 10)[i] {
        assert text[from + i] == Numeral(c)[i];
      }
      MagnitudeRead(text, from, c / 10);
    }
    var k := Digits(c) - 1;
    assert text[from + k] == Numeral(c)[k] == CharOf(c % 10);
  }

  /** What scanning finds between two positions of a text. */
  ghost predicate Reads(text: string, from: nat, to: nat, c: nat, fraction: nat)
    requires to <= |text|
  {
    && from < to && IsMantissa(text, from, to) && DigitsIn(text, from, to) > 0
    && NumberIn(text, from, to) == c && FractionIn(text, from, to) == fraction
    && IsDigit(text[from])
    && forall i :: from <= i < to ==> IsDigit(text[i]) || text[i] == '.'
  }

  lemma PlainRead(text: string, from: nat, c: nat)
    requires Holds(text, from, c)
    ensures Reads(text, from, from + Digits(c), c, 0)
  {
    NumeralRead(text, from, c);
    DigitsInRange(text, from, from + Digits(c));
    PlainMantissa(text, from, from + Digits(c));
  }

  lemma PointRead(text: string, from: nat, c: nat, k: nat)
    requires HoldsWithPoint(text, from, c, k) && k > 0
    ensures Reads(text, from, from + Digits(c) + 1, c, Digits(c) - k)
  {
    var to := from + Digits(c) + 1;
    PointedNumeralRead(text, from, c, k);
    PointedDigits(text, from, c, k);
    PointMantissa(text, from, from + k, to);
    NumberSplit(text, from, from + k, to);
    DigitsInRange(text, from, from + k);
  }

  lemma LeadingZeroRead(text: string, from: nat, zeros: nat, c: nat)
    requires Holds(text, from + 2 + zeros, c) && text[from] == '0' && text[from + 1] == '.'
    requires forall i :: from + 2 <= i < from + 2 + zeros ==> text[i] == '0'
    ensures Reads(text, from, from + 2 + zeros + Digits(c), c, zeros + Digits(c))
  {
    var mid, to := from + 2 + zeros, from + 2 + zeros + Digits(c);
    NumeralRead(text, mid, c);
    PointMantissa(text, from, from + 1, to);
    ZeroPrefix(text, from, mid, to);
    DigitsInRange(text, mid, to);
  }

  lemma ZeroPrefix(text: string, from: nat, mid: nat, to: nat)
    requires from <= mid <= to <= |text| && forall i :: from <= i < mid ==> !IsDigit(text[i]) || text[i] == '0'
    ensures NumberIn(text, from, to) == NumberIn(text, mid, to)
    ensures DigitsIn(text, from, to) >= DigitsIn(text, mid, to)
  {
    NumberSplit(text, from, mid, to);
    ZerosRead(text, from, mid);
  }

  /** The text holds m at the given place. */
  predicate Occurs(m: string, text: string, from: nat) {
    from + |m| <= |text| && forall i :: 0 <= i < |m| ==> m[i] == text[from + i]
  }

  lemma PointOccurs(t: string, k: nat, text: string, from: nat, c: nat)
    requires t == Numeral(c) && k <= |t| && Occurs(t[..k] + "." + t[k..], text, from)
    ensures HoldsWithPoint(text, from, c, k)
  {
    var m := t[..k] + "." + t[k..];
    assert m[k] == '.';
    forall i | 0 <= i < |t| ensures text[from + i + (if i < k then 0 else 1)] == t[i] {
      assert m[i + (if i < k then 0 else 1)] == t[i];
    }
  }

  lemma LeadingZeroOccurs(t: string, zeros: nat, text: string, from: nat, c: nat)
    requires t == Numeral(c) && Occurs("0." + ZeroText(zeros) + t, text, from)
    ensures Reads(text, from, from + 2 + zeros + |t|, c, zeros + |t|)
  {
    var m := "0." + ZeroText(zeros) + t;
    assert m[0] == '0' && m[1] == '.';
    forall i | 0 <= i < |t| ensures text[from + 2 + zeros + i] == t[i] {
      assert m[2 + zeros + i] == t[i];
    }
    forall i | from + 2 <= i < from + 2 + zeros ensures text[i] == '0' {
      assert m[i - from] == '0';
    }
    LeadingZeroRead(text, from, zeros, c);
  }

  /** Whatever the layout, the mantissa carries the coefficient and says how many digits follow the point. */
  lemma MantissaRoundTrip(n: Number, text: string, from: nat)
    requires n.Num? && n.Canonical() && Occurs(MantissaText(n), text, from)
    ensures Reads(text, from, from + |MantissaText(n)|, n.coefficient, ReadScale(n))
  {
    var t := Numeral(n.coefficient);
    if Scientific(n) && |t| > 1 {
      PointRoundTrip(n, text, from, 1);
    } else if Scientific(n) || n.scale == 0 {
      assert MantissaText(n) == t;
      PlainRead(text, from, n.coefficient);
    } else if n.scale < |t| {
      PointRoundTrip(n, text, from, |t| - n.scale);
    } else {
      LeadingZeroOccurs(t, n.scale - |t|, text, from, n.coefficient);
    }
  }

  lemma PointRoundTrip(n: Number, text: string, from: nat, k: nat)
    requires n.Num? && 0 < k <= Digits(n.coefficient) && Occurs(MantissaText(n), text, from)
    requires MantissaText(n) == Numeral(n.coefficient)[..k] + "." + Numeral(n.coefficient)[k..]
    requires ReadScale(n) == Digits(n.coefficient) - k
    ensures Reads(text, from, from + |MantissaText(n)|, n.coefficient, ReadScale(n))
  {
    PointOccurs(Numeral(n.coefficient), k, text, from, n.coefficient);
    PointRead(text, from, n.coefficient, k);
  }

  /** Number of fraction digits shown, the written exponent accounting for the rest of the scale. */
  function ReadScale(n: Number): int
    requires n.Num?
  {
    n.scale + WrittenExponent(n)
  }

  function WrittenExponent(n: Number): int
    requires n.Num?
  {
    if Scientific(n) then Adjusted(n) else 0
  }

  lemma TextLength(n: Number)
    requires n.Num? && n.Canonical()
    ensures 0 < |Text(n)| <= MAX_TEXT
  {
    assert Pow10(5) == 100000;
    PowAdd(5, 5);
    DigitsWithin(Magnitude(Adjusted(n)), 10);
  }

  lemma TailRead(text: string, end: nat, exponent: int)
    requires end < |text| && text[end] == 'E' && -INT64_MAX <= exponent <= INT64_MAX
    requires Occurs(ExponentText(exponent), text, end + 1) && |text| == end + 1 + |ExponentText(exponent)|
    ensures ParseTail(text, end) == Good(exponent)
  {
    var t := ExponentText(exponent);
    assert t[0] == text[end + 1] && IsSign(t[0]);
    forall i | 0 <= i < Digits(Magnitude(exponent))
      ensures text[end + 2 + i] == Numeral(Magnitude(exponent))[i]
    {
      assert t[1 + i] == text[end + 1 + (1 + i)];
    }
    MagnitudeRead(text, end + 2, Magnitude(exponent));
  }

  lemma Parts(sign: string, m: string, tail: string)
    ensures Occurs(m, sign + m + tail, |sign|) && Occurs(tail, sign + m + tail, |sign| + |m|)
  {
  }

  /** Parsing the text of any number restores its coefficient, sign and scale. */
  lemma TextRoundTrip(n: Number)
    requires n.Num? && n.Canonical()
    ensures ParseText(Text(n)) == Good(n)
  {
    TextLength(n);
    TextParts(n);
    LaidOutRead(n, Text(n));
  }

  /** Sign, mantissa and exponent stand where scanning looks for them. */
  ghost predicate LaidOut(n: Number, text: string)
    requires n.Num?
  {
    var start: nat := if n.negative then 1 else 0;
    var end := start + |MantissaText(n)|;
    && Occurs(MantissaText(n), text, start)
    && (n.negative ==> text[0] == '-')
    && (end < |text| ==> text[end] == 'E') && ParseTail(text, end) == Good(WrittenExponent(n))
  }

  lemma LaidOutRead(n: Number, text: string)
    requires n.Num? && n.Canonical() && LaidOut(n, text) && 0 < |text| <= MAX_TEXT
    ensures ParseText(text) == Good(n)
  {
    var start: nat := if n.negative then 1 else 0;
    MantissaRoundTrip(n, text, start);
    ReadBack(n, text, start, start + |MantissaText(n)|);
  }

  lemma TextParts(n: Number)
    requires n.Num? && n.Canonical()
    ensures LaidOut(n, Text(n))
  {
    var sign, m, tail := SignText(n.negative), MantissaText(n), TailText(n);
    Parts(sign, m, tail);
    if tail != "" { TailOfText(sign + m, Adjusted(n)); }
  }

  lemma TailOfText(head: string, exponent: int)
    requires -INT64_MAX <= exponent <= INT64_MAX
    ensures var text := head + ("E" + ExponentText(exponent));
            text[|head|] == 'E' && ParseTail(text, |head|) == Good(exponent)
  {
    var text := head + ("E" + ExponentText(exponent));
    assert text == head + "E" + ExponentText(exponent);
    Parts(head, "E", ExponentText(exponent));
    TailRead(text, |head|, exponent);
  }

  lemma ReadBack(n: Number, text: string, start: nat, end: nat)
    requires n.Num? && n.Canonical() && start <= end <= |text| && 0 < |text| <= MAX_TEXT
    requires start == (if n.negative then 1 else 0) && n.negative == (text[0] == '-')
    requires Reads(text, start, end, n.coefficient, ReadScale(n))
    requires ParseTail(text, end) == Good(WrittenExponent(n))
    requires end == |text| || text[end] == 'E'
    ensures ParseText(text) == Good(n)
  {
    MantissaEndAt(text, start, end);
  }

  // ---- Formatting ---------------------------------------------------------------------------

  /** Appends one character to the text written after what the buffer held before. */
  method Put(buffer: array<char>, position: nat, ch: char, ghost before: string, ghost written: string)
    requires position < buffer.Length && buffer[..position] == before + written
    modifies buffer
    ensures buffer[..position + 1] == before + (written + [ch])
    ensures forall j :: position + 1 <= j < buffer.Length ==> buffer[j] == old(buffer[j])
  {
    buffer[position] := ch;
    assert buffer[..position + 1] == buffer[..position] + [ch];
  }

  /** The first i digits of a numeral, a point before the digit at k. */
  function Pointed(t: string, k: nat, i: nat): (p: string)
    requires i <= |t|
    ensures |p| == i + if i > k then 1 else 0
  {
    if i <= k then t[..i] else t[..k] + "." + t[k..i]
  }

  lemma PointedStep(t: string, k: nat, i: nat)
    requires i < |t|
    ensures Pointed(t, k, i + 1) == Pointed(t, k, i) + (if i == k then "." else "") + [t[i]]
  {
    if i >= k { assert t[k..i + 1] == t[k..i] + [t[i]]; }
  }

  method DigitChar(value: Decimal, digits: nat, i: nat) returns (ch: char)
    requires value.Valid() && i < digits == Digits(value.Coefficient())
    ensures ch == Numeral(value.Coefficient())[i]
  {
    NumeralDigit(value.Coefficient(), i);
    var digit := value.DigitFromTop(digits, i);
    ch := CharOf(digit);
  }

  /** Writes the digits of the coefficient with a point before the digit at k. */
  method WritePointed(value: Decimal, digits: nat, k: nat, buffer: array<char>, position: nat,
                      ghost t: string)
    returns (next: nat)
    requires value.Valid() && digits == Digits(value.Coefficient()) && t == Numeral(value.Coefficient())
    requires position + digits + (if k < digits then 1 else 0) <= buffer.Length
    modifies buffer
    ensures next == position + |Pointed(t, k, digits)| <= buffer.Length
    ensures buffer[..next] == old(buffer[..position]) + Pointed(t, k, digits)
    ensures forall j :: next <= j < buffer.Length ==> buffer[j] == old(buffer[j])
  {
    ghost var before := buffer[..position];
    ghost var written := "";
    next := position;
    assert before + written == before;
    for i := 0 to digits
      invariant next == position + |written| && written == Pointed(t, k, i)
      invariant forall j :: next <= j < buffer.Length ==> buffer[j] == old(buffer[j])
      invariant buffer[..next] == before + written
    {
      next := WriteDigit(value, digits, k, i, buffer, next, t, before, written);
      written := Pointed(t, k, i + 1);
    }
  }

  /** Writes the i-th digit, and the point in front of it if it is the k-th. */
  method WriteDigit(value: Decimal, digits: nat, k: nat, i: nat, buffer: array<char>, position: nat,
                    ghost t: string, ghost before: string, ghost written: string)
    returns (next: nat)
    requires value.Valid() && i < digits == Digits(value.Coefficient()) && t == Numeral(value.Coefficient())
    requires written == Pointed(t, k, i) && position + (if i == k then 2 else 1) <= buffer.Length
    requires buffer[..position] == before + written
    modifies buffer
    ensures next == position + |Pointed(t, k, i + 1)| - |written| <= buffer.Length
    ensures buffer[..next] == before + Pointed(t, k, i + 1)
    ensures forall j :: next <= j < buffer.Length ==> buffer[j] == old(buffer[j])
  {
    next := position;
    ghost var pointed := written;
    PointedStep(t, k, i);
    if i == k {
      Put(buffer, next, '.', before, written);
      pointed := written + ".";
      next := next + 1;
    }
    var ch := DigitChar(value, digits, i);
    Put(buffer, next, ch, before, pointed);
    next := next + 1;
  }

  /** The digits of the exponent, least significant first. */
  method ExponentDigits(exponent: int) returns (reversed: seq<char>)
    ensures Reversed(reversed, Numeral(Magnitude(exponent)))
  {
    var magnitude := Magnitude(exponent);
    reversed := [];
    while magnitude >= 10
      invariant Reversed(reversed + Backwards(Numeral(magnitude)), Numeral(Magnitude(exponent)))
      decreases magnitude
    {
      assert Backwards(Numeral(magnitude)) == [CharOf(magnitude % 10)] + Backwards(Numeral(magnitude / 10));
      assert reversed + ([CharOf(magnitude % 10)] + Backwards(Numeral(magnitude / 10)))
          == reversed + [CharOf(magnitude % 10)] + Backwards(Numeral(magnitude / 10));
      reversed := reversed + [CharOf(magnitude % 10)];
      magnitude := magnitude / 10;
    }
    assert Backwards(Numeral(magnitude)) == [CharOf(magnitude)];
    reversed := reversed + [CharOf(magnitude)];
  }

  function Backwards(t: string): string {
    seq(|t|, i requires 0 <= i < |t| => t[|t| - 1 - i])
  }

  predicate Reversed(a: string, b: string) {
    |a| == |b| && forall i :: 0 <= i < |a| ==> a[i] == b[|b| - 1 - i]
  }

  method WriteExponent(exponent: int, reversed: seq<char>, buffer: array<char>, position: nat)
    returns (next: nat)
    requires Reversed(reversed, Numeral(Magnitude(exponent)))
    requires position + 2 + |reversed| <= buffer.Length
    modifies buffer
    ensures next == position + |"E" + ExponentText(exponent)|
    ensures buffer[..next] == old(buffer[..position]) + ("E" + ExponentText(exponent))
    ensures forall j :: next <= j < buffer.Length ==> buffer[j] == old(buffer[j])
  {
    ghost var before := buffer[..position];
    ghost var t := Numeral(Magnitude(exponent));
    var sign := if exponent < 0 then '-' else '+';
    assert before + "" == before;
    Put(buffer, position, 'E', before, "");
    Put(buffer, position + 1, sign, before, "E");
    next := position + 2;
    var i := |reversed|;
    ghost var written := "E" + [sign];
    while i > 0
      invariant 0 <= i <= |reversed| && next == position + |written|
      invariant written == "E" + [sign] + t[..|t| - i] && buffer[..next] == before + written
      invariant forall j :: next <= j < buffer.Length ==> buffer[j] == old(buffer[j])
    {
      Put(buffer, next, reversed[i - 1], before, written);
      written := written + [reversed[i - 1]];
      next := next + 1;
      i := i - 1;
    }
    assert written == "E" + ExponentText(exponent);
  }

  method WriteZeros(count: nat, buffer: array<char>, position: nat) returns (next: nat)
    requires position + count <= buffer.Length
    modifies buffer
    ensures next == position + count && buffer[..next] == old(buffer[..position]) + ZeroText(count)
    ensures forall j :: next <= j < buffer.Length ==> buffer[j] == old(buffer[j])
  {
    ghost var before := buffer[..position];
    next := position;
    assert before + ZeroText(0) == before;
    for i := 0 to count
      invariant next == position + i && buffer[..next] == before + ZeroText(i)
      invariant forall j :: next <= j < buffer.Length ==> buffer[j] == old(buffer[j])
    {
      Put(buffer, next, '0', before, ZeroText(i));
      assert ZeroText(i + 1) == ZeroText(i) + "0";
      next := next + 1;
    }
  }

  /** Number of characters of the text, computed before anything is written. */
  method TextSize(value: Decimal, digits: nat, exponentLength: nat) returns (length: nat)
    requires value.Valid() && !value.isNull && digits == Digits(value.Coefficient())
    requires Scientific(value.Model()) ==> exponentLength == Digits(Magnitude(Adjusted(value.Model())))
    ensures length == |Text(value.Model())|
  {
    var exponent := digits - 1 - value.scale;
    length := if value.negative then 1 else 0;
    if value.scale < 0 || exponent < PLAIN_MIN_EXPONENT {
      length := length + digits + (if digits > 1 then 1 else 0) + 2 + exponentLength;
    } else if value.scale == 0 {
      length := length + digits;
    } else if value.scale < digits {
      length := length + digits + 1;
    } else {
      length := length + 2 + value.scale;
    }
  }

  /** Writes the text and its terminator, or only reports the required size. */
  method Format(value: Decimal, buffer: array?<char>, capacity: nat)
    returns (status: Status, required: nat, isNull: bool)
    requires value.Valid() && (buffer != null ==> capacity <= buffer.Length)
    modifies buffer
    ensures (buffer == null && capacity != 0) <==> status == InvalidArgument
    ensures status != InvalidArgument ==>
              && isNull == (value.Model() == Null)
              && required == (if isNull then 0 else |Text(value.Model())| + 1)
              && status == (if buffer != null && capacity < required then BufferTooSmall else Ok)
    ensures buffer != null ==>
              if status == Ok && !isNull
              then buffer[..required] == Text(value.Model()) + ['\0'] && buffer[required..] == old(buffer[required..])
              else buffer[..] == old(buffer[..])
  {
    ghost var n := value.Model();
    required, isNull := 0, false;
    if buffer == null && capacity != 0 { return InvalidArgument, 0, false; }
    if value.isNull { return Ok, 0, true; }
    var digits, reversed;
    digits, reversed, required := Measure(value, n);
    if buffer == null { return Ok, required, false; }
    if capacity < required { return BufferTooSmall, required, false; }
    WriteText(value, n, digits, reversed, buffer);
    return Ok, required, false;
  }

  method Measure(value: Decimal, ghost n: Number) returns (digits: nat, reversed: seq<char>, required: nat)
    requires value.Valid() && n.Num? && n == value.Model()
    ensures digits == Digits(n.coefficient) && required == |Text(n)| + 1
    ensures Scientific(n) ==> Reversed(reversed, Numeral(Magnitude(Adjusted(n))))
  {
    digits := value.DigitCount();
    var exponent := digits - 1 - value.scale;
    var scientific := value.scale < 0 || exponent < PLAIN_MIN_EXPONENT;
    reversed := [];
    if scientific { reversed := ExponentDigits(exponent); }
    var length := TextSize(value, digits, |reversed|);
    required := length + 1;
  }

  method WriteText(value: Decimal, ghost n: Number, digits: nat, reversed: seq<char>, buffer: array<char>)
    requires value.Valid() && n.Num? && n == value.Model() && digits == Digits(n.coefficient)
    requires Scientific(n) ==> Reversed(reversed, Numeral(Magnitude(Adjusted(n))))
    requires |Text(n)| < buffer.Length
    modifies buffer
    ensures buffer[..|Text(n)| + 1] == Text(n) + ['\0']
    ensures forall j :: |Text(n)| + 1 <= j < buffer.Length ==> buffer[j] == old(buffer[j])
  {
    var exponent := digits - 1 - value.scale;
    var scientific := value.scale < 0 || exponent < PLAIN_MIN_EXPONENT;
    var position := WriteMantissa(value, n, digits, scientific, buffer);
    if scientific { position := WriteExponent(exponent, reversed, buffer, position); }
    Terminate(buffer, position, Text(n));
  }

  method Terminate(buffer: array<char>, position: nat, ghost text: string)
    requires position < buffer.Length && buffer[..position] == text
    modifies buffer
    ensures buffer[..position + 1] == text + ['\0']
    ensures forall j :: position + 1 <= j < buffer.Length ==> buffer[j] == old(buffer[j])
  {
    buffer[position] := '\0';
    assert buffer[..position + 1] == buffer[..position] + ['\0'];
  }

  method WriteMantissa(value: Decimal, ghost n: Number, digits: nat, scientific: bool, buffer: array<char>)
    returns (position: nat)
    requires value.Valid() && n.Num? && n == value.Model() && digits == Digits(n.coefficient)
    requires scientific == Scientific(n) && |Text(n)| <= buffer.Length
    modifies buffer
    ensures position <= |Text(n)|
    ensures buffer[..position] == SignText(n.negative) + MantissaText(n)
    ensures forall j :: position <= j < buffer.Length ==> buffer[j] == old(buffer[j])
  {
    position := WriteSign(value.negative, buffer);
    position := WriteBody(value, n, digits, scientific, buffer, position, SignText(n.negative));
  }

  method WriteSign(negative: bool, buffer: array<char>) returns (position: nat)
    requires buffer.Length > 0
    modifies buffer
    ensures position <= buffer.Length && buffer[..position] == SignText(negative)
    ensures forall j :: position <= j < buffer.Length ==> buffer[j] == old(buffer[j])
  {
    if !negative { return 0; }
    buffer[0] := '-';
    return 1;
  }

  method WriteBody(value: Decimal, ghost n: Number, digits: nat, scientific: bool, buffer: array<char>,
                   position: nat, ghost sign: string)
    returns (next: nat)
    requires value.Valid() && n.Num? && n == value.Model() && digits == Digits(n.coefficient)
    requires scientific == Scientific(n) && position + |MantissaText(n)| <= buffer.Length
    requires buffer[..position] == sign
    modifies buffer
    ensures next == position + |MantissaText(n)| && buffer[..next] == sign + MantissaText(n)
    ensures forall j :: next <= j < buffer.Length ==> buffer[j] == old(buffer[j])
  {
    ghost var t := Numeral(n.coefficient);
    if !scientific && value.scale > 0 && value.scale >= digits {
      assert MantissaText(n) == "0." + ZeroText(value.scale - digits) + t;
      next := WriteLeadingZero(value, digits, buffer, position, t, sign);
    } else {
      var k := if scientific then 1 else digits - value.scale;
      PointedMantissa(n, k);
      next := WritePointed(value, digits, k, buffer, position, t);
    }
  }

  lemma PointedMantissa(n: Number, k: int)
    requires n.Num?
    requires if Scientific(n) then k == 1 else k == Digits(n.coefficient) - n.scale > 0
    ensures Pointed(Numeral(n.coefficient), k, Digits(n.coefficient)) == MantissaText(n)
  {
    var t := Numeral(n.coefficient);
    assert t[..|t|] == t;
    if k < |t| { assert t[k..|t|] == t[k..]; }
  }

  /** Writes zero, point and so many zeros. */
  method WriteZeroPoint(count: nat, buffer: array<char>, position: nat, ghost sign: string) returns (next: nat)
    requires position + 2 + count <= buffer.Length && buffer[..position] == sign
    modifies buffer
    ensures next == position + 2 + count && buffer[..next] == sign + ("0." + ZeroText(count))
    ensures forall j :: next <= j < buffer.Length ==> buffer[j] == old(buffer[j])
  {
    assert sign + "" == sign;
    Put(buffer, position, '0', sign, "");
    Put(buffer, position + 1, '.', sign, "0");
    next := WriteZeros(count, buffer, position + 2);
    assert sign + "0." + ZeroText(count) == sign + ("0." + ZeroText(count));
  }

  method WriteLeadingZero(value: Decimal, digits: nat, buffer: array<char>, position: nat,
                          ghost t: string, ghost sign: string)
    returns (next: nat)
    requires value.Valid() && digits == Digits(value.Coefficient()) && t == Numeral(value.Coefficient())
    requires value.scale >= digits && position + 2 + value.scale <= buffer.Length
    requires buffer[..position] == sign
    modifies buffer
    ensures next == position + 2 + value.scale
    ensures buffer[..next] == sign + ("0." + ZeroText(value.scale - digits) + t)
    ensures forall j :: next <= j < buffer.Length ==> buffer[j] == old(buffer[j])
  {
    ghost var zeros := ZeroText(value.scale - digits);
    next := WriteZeroPoint(value.scale - digits, buffer, position, sign);
    assert t[..|t|] == t;
    next := WritePointed(value, digits, digits, buffer, next, t);
    assert sign + ("0." + zeros) + t == sign + ("0." + zeros + t);
  }

  // ---- Parsing ------------------------------------------------------------------------------

  /** Number of digits from the first nonzero one on. */
  function DigitsOrNone(c: nat): nat {
    if c == 0 then 0 else Digits(c)
  }

  lemma {:induction false} NoMantissa(text: string, from: nat, mid: nat, to: nat)
    requires mid <= to <= |text| && !IsMantissa(text, from, mid)
    ensures !IsMantissa(text, from, to)
  {
    if mid < to { NoMantissa(text, from, mid, to - 1); }
  }

  /** Scans the mantissa once, counting digits, significant digits and fraction digits. */
  method ScanMantissa(text: string, start: nat)
    returns (valid: bool, end: nat, digits: nat, significant: nat, fractional: nat)
    requires start <= |text|
    ensures valid == IsMantissa(text, start, MantissaEnd(text, start))
    ensures valid ==>
              && end == MantissaEnd(text, start)
              && digits == DigitsIn(text, start, end)
              && significant == DigitsOrNone(NumberIn(text, start, end))
              && fractional == FractionIn(text, start, end)
  {
    end, digits, significant, fractional := start, 0, 0, 0;
    var point := false;
    while end < |text| && !IsExponentMark(text[end])
      invariant start <= end <= |text| && MantissaEnd(text, start) == MantissaEnd(text, end)
      invariant IsMantissa(text, start, end) && point == HasPoint(text, start, end)
      invariant digits == DigitsIn(text, start, end)
      invariant significant == DigitsOrNone(NumberIn(text, start, end))
      invariant fractional == FractionIn(text, start, end) && (!point ==> fractional == 0)
    {
      var ch := text[end];
      if ch == '.' && !point {
        point := true;
      } else if IsDigit(ch) {
        digits := digits + 1;
        if ch != '0' || significant != 0 { significant := significant + 1; }
        if point { fractional := fractional + 1; }
      } else {
        NoMantissa(text, start, end + 1, MantissaEnd(text, start));
        return false, end, 0, 0, 0;
      }
      end := end + 1;
    }
    valid := true;
  }

  lemma {:induction false} NoMagnitude(text: string, from: nat, mid: nat, to: nat)
    requires mid <= to <= |text| && ParseMagnitude(text, from, mid).Bad?
    ensures ParseMagnitude(text, from, to) == ParseMagnitude(text, from, mid)
  {
    if mid < to { NoMagnitude(text, from, mid, to - 1); }
  }

  method ScanExponent(text: string, from: nat) returns (status: Status, exponent: int)
    requires from <= |text|
    ensures status == ParseExponent(text, from).Code()
    ensures status == Ok ==> ParseExponent(text, from) == Good(exponent)
  {
    var position := from;
    var negative := false;
    exponent := 0;
    if position < |text| && IsSign(text[position]) {
      negative := text[position] == '-';
      position := position + 1;
    }
    if position == |text| { return InvalidArgument, 0; }
    ghost var first := position;
    while position < |text|
      invariant first <= position <= |text| && 0 <= exponent <= INT64_MAX
      invariant ParseMagnitude(text, first, position) == Good(exponent)
    {
      if !IsDigit(text[position]) {
        NoMagnitude(text, first, position + 1, |text|);
        return InvalidArgument, 0;
      }
      var digit := DigitOf(text[position]);
      if exponent > (INT64_MAX - digit) / 10 {
        NoMagnitude(text, first, position + 1, |text|);
        return OutOfRange, 0;
      }
      exponent := exponent * 10 + digit;
      position := position + 1;
    }
    return Ok, WithSign(negative, exponent);
  }

  /** The limbs with a digit, already shifted into place, put into one of them. */
  function WithDigit(cells: seq<nat>, i: nat, shifted: nat): seq<nat>
    requires i < |cells|
  {
    cells[i := cells[i] + shifted]
  }

  /** Adding a digit at a decimal position adds its weight. */
  lemma DigitAddsWeight(cells: seq<nat>, offset: nat, i: nat, j: nat, digit: nat, shifted: nat, weight: nat)
    requires i < |cells| && offset == LIMB_DIGITS * i + j
    requires shifted == Product(digit, Pow10(j)) && weight == Product(digit, Pow10(offset))
    ensures LimbValue(WithDigit(cells, i, shifted)) == LimbValue(cells) + weight
  {
    ValueUpdate(LIMB_DIGITS, cells, i, shifted);
    DigitWeight(i, j, digit);
  }

  /** It keeps the limbs in range, and those above still empty. */
  lemma DigitKeepsRange(cells: seq<nat>, offset: nat, i: nat, j: nat, digit: nat, shifted: nat)
    requires i < |cells| && j < LIMB_DIGITS && offset == LIMB_DIGITS * i + j
    requires digit < 10 && shifted == Product(digit, Pow10(j)) && Filled(cells, offset)
    ensures Filled(WithDigit(cells, i, shifted), offset + 1)
  {
    DigitFits(cells[i], j, digit);
    StillFilled(cells, i, j, shifted);
  }

  lemma StillFilled(cells: seq<nat>, i: nat, j: nat, x: nat)
    requires i < |cells| && j < LIMB_DIGITS && Filled(cells, LIMB_DIGITS * i + j)
    requires cells[i] + x < Pow10(j + 1) <= Pow10(LIMB_DIGITS)
    ensures Filled(cells[i := cells[i] + x], LIMB_DIGITS * i + j + 1)
  {
    var next := cells[i := cells[i] + x];
    var offset := LIMB_DIGITS * i + j;
    assert offset / LIMB_DIGITS == i && offset % LIMB_DIGITS == j;
    assert forall k :: 0 <= k < |next| ==> next[k] == if k == i then cells[i] + x else cells[k];
    if j + 1 == LIMB_DIGITS {
      assert (offset + 1) / LIMB_DIGITS == i + 1 && (offset + 1) % LIMB_DIGITS == 0;
    } else {
      assert (offset + 1) / LIMB_DIGITS == i && (offset + 1) % LIMB_DIGITS == j + 1;
    }
  }

  lemma DigitWeight(i: nat, j: nat, digit: nat)
    ensures Product(Unit(LIMB_DIGITS, i), Product(digit, Pow10(j))) == Product(digit, Pow10(LIMB_DIGITS * i + j))
  {
    UnitIsPow(LIMB_DIGITS, i);
    PowAdd(LIMB_DIGITS * i, j);
    var u, p := Unit(LIMB_DIGITS, i), Pow10(j);
    Associate(u, digit, p);
    Commute(u, digit);
    Associate(digit, u, p);
  }

  lemma DigitFits(cell: nat, j: nat, digit: nat)
    requires j < LIMB_DIGITS && digit < 10 && cell < Pow10(j)
    ensures cell + Product(digit, Pow10(j)) < Pow10(j + 1) <= Pow10(LIMB_DIGITS)
  {
    MulLe(digit, 9, Pow10(j));
    PowMono(j + 1, LIMB_DIGITS);
  }

  /** Only the first digits, counted from the least significant end, have been filled in. */
  ghost predicate Filled(cells: seq<nat>, offset: nat) {
    && Cells(LIMB_DIGITS, cells)
    && (offset / LIMB_DIGITS < |cells| ==> cells[offset / LIMB_DIGITS] < Pow10(offset % LIMB_DIGITS))
    && forall k :: offset / LIMB_DIGITS < k < |cells| ==> cells[k] == 0
  }

  lemma ValueUpdate(w: nat, cells: seq<nat>, i: nat, x: nat)
    requires i < |cells|
    ensures Value(w, cells[i := cells[i] + x]) == Value(w, cells) + Product(Unit(w, i), x)
  {
    var next := cells[i := cells[i] + x];
    assert cells == cells[..i] + [cells[i]] + cells[i + 1..];
    assert next == cells[..i] + [cells[i] + x] + cells[i + 1..];
    ValueAppend(w, cells[..i] + [cells[i]], cells[i + 1..]);
    ValueAppend(w, cells[..i] + [cells[i] + x], cells[i + 1..]);
    ValueSnoc(w, cells[..i], cells[i]);
    ValueSnoc(w, cells[..i], cells[i] + x);
    DistributeLeft(Unit(w, i), cells[i], x);
  }

  /** Adds a digit at its place into the limbs, which hold the digits after it. */
  method AddDigit(limbs: array<nat>, count: nat, offset: nat, digit: nat, ghost cells: seq<nat>)
    returns (ghost grown: seq<nat>)
    requires |cells| == count <= limbs.Length && limbs[..count] == cells && Filled(cells, offset)
    requires offset / LIMB_DIGITS < count && digit < 10
    modifies limbs
    ensures |grown| == count && limbs[..count] == grown && Filled(grown, offset + 1)
    ensures LimbValue(grown) == LimbValue(cells) + Product(digit, Pow10(offset))
  {
    var k, j := offset / LIMB_DIGITS, offset % LIMB_DIGITS;
    var shifted := Product(digit, TableEntry(j));
    DigitAddsWeight(cells, offset, k, j, digit, shifted, Product(digit, Pow10(offset)));
    DigitKeepsRange(cells, offset, k, j, digit, shifted);
    limbs[k] := limbs[k] + shifted;
    grown := WithDigit(cells, k, shifted);
    assert limbs[..count] == grown;
  }

  /** Fills limbs from the last mantissa character backwards; leading zeros are never reached. */
  method FillLimbs(limbs: array<nat>, text: string, start: nat, end: nat, significant: nat)
    requires start <= end <= |text| && IsMantissa(text, start, end)
    requires significant == DigitsOrNone(NumberIn(text, start, end))
    requires (significant + LIMB_DIGITS - 1) / LIMB_DIGITS <= limbs.Length
    modifies limbs
    ensures var count := (significant + LIMB_DIGITS - 1) / LIMB_DIGITS;
            Cells(LIMB_DIGITS, limbs[..count]) && LimbValue(limbs[..count]) == NumberIn(text, start, end)
  {
    var count := (significant + LIMB_DIGITS - 1) / LIMB_DIGITS;
    ClearLimbs(limbs, count);
    var offset: nat := 0;
    var i := end;
    ghost var cells := limbs[..count];
    ValueZero(LIMB_DIGITS, cells);
    while i > start && offset < significant
      invariant start <= i <= end && offset == DigitsIn(text, i, end) && offset <= significant
      invariant |cells| == count && limbs[..count] == cells
      invariant Filled(cells, offset) && LimbValue(cells) == NumberIn(text, i, end)
    {
      var ch := text[i - 1];
      PrependChar(text, i, end);
      if ch != '.' {
        MantissaChar(text, start, end, i - 1);
        cells := AddDigit(limbs, count, offset, DigitOf(ch), cells);
        offset := offset + 1;
      }
      i := i - 1;
    }
    AllSignificantRead(text, start, i, end);
  }

  lemma {:induction false} MantissaChar(text: string, from: nat, to: nat, i: nat)
    requires from <= i < to <= |text| && IsMantissa(text, from, to)
    ensures IsDigit(text[i]) || text[i] == '.'
  {
    if i < to - 1 { MantissaChar(text, from, to - 1, i); }
  }

  lemma PrependChar(text: string, i: nat, to: nat)
    requires 0 < i <= to <= |text|
    ensures var d := if IsDigit(text[i - 1]) then 1 else 0;
            && DigitsIn(text, i - 1, to) == d + DigitsIn(text, i, to)
            && NumberIn(text, i - 1, to) == NumberIn(text, i, to)
               + if d == 1 then Product(DigitOf(text[i - 1]), Pow10(DigitsIn(text, i, to))) else 0
  {
    NumberSplit(text, i - 1, i, to);
  }

  /** Once as many digits are read as are significant, only zeros are left in front. */
  lemma AllSignificantRead(text: string, start: nat, i: nat, end: nat)
    requires start <= i <= end <= |text|
    requires i == start || DigitsIn(text, i, end) == DigitsOrNone(NumberIn(text, start, end))
    ensures NumberIn(text, i, end) == NumberIn(text, start, end)
  {
    var c, high := NumberIn(text, start, end), NumberIn(text, start, i);
    NumberSplit(text, start, i, end);
    if i > start {
      var p := Pow10(DigitsIn(text, i, end));
      DigitsBounds(c);
      if high > 0 { MulLe(1, high, p); }
    }
  }

  /** Parses into an existing object, which keeps its value unless parsing succeeds. */
  method Parse(value: Decimal, text: string, isNull: bool, memory: bool) returns (status: Status)
    requires value.Valid()
    modifies value, value.inline
    ensures value.Valid()
    ensures value.limbs == old(value.limbs) || value.limbs == value.inline || fresh(value.limbs)
    ensures status == AllocFail ==> !memory
    ensures if isNull then status == Ok && value.Model() == Null
            else status == AllocFail || status == ParseText(text).Code()
    ensures !isNull && status == Ok ==> ParseText(text) == Good(value.Model())
    ensures status != Ok ==> value.Model() == old(value.Model())
  {
    if isNull {
      value.SetNull();
      return Ok;
    }
    if |text| == 0 { return InvalidArgument; }
    if |text| > MAX_TEXT { return LimitExceeded; }
    var start, end, significant, scale;
    status, start, end, significant, scale := Scan(text);
    if status != Ok { return; }
    var temporary := new Decimal();
    var count := (significant + LIMB_DIGITS - 1) / LIMB_DIGITS;
    status := temporary.Reserve(count, memory);
    if status != Ok { return; }
    FillLimbs(temporary.limbs, text, start, end, significant);
    temporary.used := count;
    value.Adopt(temporary, text[0] == '-', scale);
  }

  /** Everything that can be refused is refused before the object is touched. */
  method Scan(text: string) returns (status: Status, start: nat, end: nat, significant: nat, scale: int)
    requires 0 < |text| <= MAX_TEXT
    ensures status == ParseText(text).Code()
    ensures status == Ok ==>
              && start <= end <= |text| && IsMantissa(text, start, end)
              && significant == DigitsOrNone(NumberIn(text, start, end)) <= MAX_DIGITS
              && Digits(NumberIn(text, start, end)) <= MAX_DIGITS && IsInt32(scale)
              && ParseText(text) == Good(Canon(text[0] == '-', NumberIn(text, start, end), scale))
  {
    start := if IsSign(text[0]) then 1 else 0;
    scale := 0;
    var valid, digits, fractional;
    valid, end, digits, significant, fractional := ScanMantissa(text, start);
    if !valid || digits == 0 { status := InvalidArgument; return; }
    if significant > MAX_DIGITS { status := LimitExceeded; return; }
    var exponent := 0;
    status := Ok;
    if end < |text| {
      status, exponent := ScanExponent(text, end + 1);
      if status != Ok { return; }
    }
    if exponent < fractional - INT32_MAX || exponent > fractional - INT32_MIN { status := OutOfRange; return; }
    scale := fractional - exponent;
  }
}
