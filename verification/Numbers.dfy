/** What a decimal object means: SQL NULL, or a signed unbounded coefficient times 10^-scale.
    The exact results that the operations of src/sqli_decimal.c owe their callers are stated
    here over these meanings; module Decimals proves the limb algorithms against them. */
module Numbers {
  import opened Status
  import opened Radix

  const MAX_DIGITS: nat := 1_000_000

  datatype Number = Null | Num(negative: bool, coefficient: nat, scale: int) {

    /** What every stored value satisfies. */
    ghost predicate Canonical() {
      Num? ==>
        && (coefficient == 0 ==> !negative)
        && IsInt32(scale)
        && Digits(coefficient) <= MAX_DIGITS
    }

    function Signed(): int
      requires Num?
    {
      WithSign(negative, coefficient)
    }

    /** The value in units of 10^-at. */
    function Units(at: int): int
      requires Num? && scale <= at
    {
      Signed() * Pow10(at - scale)
    }
  }

  function WithSign(negative: bool, magnitude: nat): int {
    if negative then -(magnitude as int) else magnitude
  }

  function Max(a: int, b: int): int {
    if a > b then a else b
  }

  function Sign(x: int): int {
    if x < 0 then -1 else if x > 0 then 1 else 0
  }

  // ---- Order and equality of the exact rational values --------------------------------------

  /** Sign of the difference of the two exact values. */
  function Order(a: Number, b: Number): int
    requires a.Num? && b.Num?
  {
    var at := Max(a.scale, b.scale);
    Sign(a.Units(at) - b.Units(at))
  }

  predicate SameValue(a: Number, b: Number)
    requires a.Num? && b.Num?
  {
    Order(a, b) == 0
  }

  lemma SignScale(x: int, p: int)
    requires p > 0
    ensures Sign(x * p) == Sign(x)
  {
    if x > 0 { MulLt(0, x, p); }
    if x < 0 { MulLt(x, 0, p); }
  }

  lemma SignOfDifference(x: int, y: int, p: int)
    requires p > 0
    ensures Sign(x * p - y * p) == Sign(x - y)
  {
    if x < y { MulLt(x, y, p); }
    if y < x { MulLt(y, x, p); }
  }

  lemma UnitsGrow(a: Number, low: int, high: int)
    requires a.Num? && a.scale <= low <= high
    ensures a.Units(high) == a.Units(low) * Pow10(high - low)
  {
    PowAdd(low - a.scale, high - low);
    Associate(a.Signed(), Pow10(low - a.scale), Pow10(high - low));
  }

  /** The order does not depend on the common scale at which the values are compared. */
  lemma OrderAtAnyScale(a: Number, b: Number, at: int)
    requires a.Num? && b.Num? && a.scale <= at && b.scale <= at
    ensures Order(a, b) == Sign(a.Units(at) - b.Units(at))
  {
    var low := Max(a.scale, b.scale);
    UnitsGrow(a, low, at);
    UnitsGrow(b, low, at);
    SignOfDifference(a.Units(low), b.Units(low), Pow10(at - low));
  }

  /** Comparing exact values is a total order whose equality is a congruence. */
  lemma OrderIsTotal(a: Number, b: Number, c: Number)
    requires a.Num? && b.Num? && c.Num?
    ensures Order(a, a) == 0 && Order(a, b) == -Order(b, a)
    ensures Order(a, b) <= 0 && Order(b, c) <= 0 ==> Order(a, c) <= 0
    ensures Order(a, b) == 0 ==> Order(a, c) == Order(b, c)
  {
    var at := Max(a.scale, Max(b.scale, c.scale));
    OrderAtAnyScale(a, b, at);
    OrderAtAnyScale(b, a, at);
    OrderAtAnyScale(b, c, at);
    OrderAtAnyScale(a, c, at);
  }

  /** Position of the leading digit: a nonzero magnitude lies in [10^(e-1), 10^e). */
  function Exponent(n: Number): int
    requires n.Num?
  {
    Digits(n.coefficient) - n.scale
  }

  /** The coefficient with zeros appended until it has the given number of digits. */
  function Padded(c: nat, digits: nat): nat
    requires Digits(c) <= digits
  {
    Product(c, Pow10(digits - Digits(c)))
  }

  /** Order of two coefficients whose leading digits are put in the same place. */
  function PaddedOrder(a: nat, b: nat): int {
    var count := Max(Digits(a), Digits(b));
    Sign(Padded(a, count) - Padded(b, count))
  }

  function Quotient(a: nat, p: nat): nat
    requires p > 0
  {
    a / p
  }

  function Remainder(a: nat, p: nat): nat
    requires p > 0
  {
    a % p
  }

  function Product(a: nat, b: nat): nat {
    MulLe(0, a, b);
    a * b
  }

  // ---- Dropping and appending digits --------------------------------------------------------

  /** A number with zeros appended. */
  function Shifted(m: nat, zeros: nat): nat {
    if zeros == 0 then m else 10 * Shifted(m, zeros - 1)
  }

  /** A number without its last digits. */
  function Cut(n: nat, digits: nat): nat {
    if digits == 0 then n else Cut(n, digits - 1) / 10
  }

  /** Whether the last digits are zeros. */
  predicate Rounded(n: nat, digits: nat) {
    digits == 0 || (Rounded(n, digits - 1) && Cut(n, digits - 1) % 10 == 0)
  }

  /** Appending zeros multiplies by a power of ten. */
  lemma {:induction false} ShiftedIs(m: nat, x: nat)
    ensures Shifted(m, x) == Product(m, Pow10(x))
  {
    if x > 0 {
      ShiftedIs(m, x - 1);
      Associate(10, m, Pow10(x - 1));
      Associate(m, 10, Pow10(x - 1));
      Commute(10, m);
    }
  }

  /** Dropping digits divides by a power of ten, exactly if they are zeros. */
  lemma {:induction false} CutIs(n: nat, x: nat)
    ensures Cut(n, x) == Quotient(n, Pow10(x)) && (Rounded(n, x) <==> Remainder(n, Pow10(x)) == 0)
  {
    if x > 0 {
      CutIs(n, x - 1);
      DivDiv(n, Pow10(x - 1), 10);
      Commute(Pow10(x - 1), 10);
      if n / Pow10(x - 1) % 10 != 0 { MulLe(1, n / Pow10(x - 1) % 10, Pow10(x - 1)); }
    }
  }

  lemma {:induction false} CutOfShifted(m: nat, x: nat)
    ensures Cut(Shifted(m, x), x) == m && Rounded(Shifted(m, x), x)
  {
    if x > 0 {
      CutOfShifted(m, x - 1);
      CutOfTen(Shifted(m, x - 1), x - 1);
    }
  }

  lemma {:induction false} CutOfTen(n: nat, x: nat)
    ensures Cut(10 * n, x + 1) == Cut(n, x) && (Rounded(10 * n, x + 1) <==> Rounded(n, x))
  {
    if x > 0 { CutOfTen(n, x - 1); }
  }

  lemma {:induction false} ShiftedOfCut(n: nat, x: nat)
    requires Rounded(n, x)
    ensures Shifted(Cut(n, x), x) == n
  {
    if x > 0 {
      ShiftedOfCut(n, x - 1);
      ShiftedOfTen(Cut(n, x), x - 1);
    }
  }

  lemma {:induction false} ShiftedOfTen(m: nat, x: nat)
    ensures Shifted(10 * m, x) == 10 * Shifted(m, x)
  {
    if x > 0 { ShiftedOfTen(m, x - 1); }
  }

  lemma {:induction false} CutBelow(n: nat, x: nat, y: nat)
    requires n < Pow10(x + y)
    ensures Cut(n, x) < Pow10(y)
  {
    if x > 0 { CutBelow(n, x - 1, y + 1); }
  }

  lemma {:induction false} ShiftedBelow(m: nat, x: nat, y: nat)
    requires m < Pow10(y)
    ensures Shifted(m, x) < Pow10(x + y)
  {
    if x > 0 { ShiftedBelow(m, x - 1, y); }
  }

  lemma {:induction false} NothingCut(x: nat)
    ensures Cut(0, x) == 0 && Rounded(0, x) && Shifted(0, x) == 0
  {
    if x > 0 { NothingCut(x - 1); }
  }

  lemma UnitsOf(n: Number, at: int)
    requires n.Num? && n.scale <= at
    ensures n.Units(at) == WithSign(n.negative, Product(n.coefficient, Pow10(at - n.scale)))
  {
    NegateProduct(n.coefficient, Pow10(at - n.scale));
  }

  lemma OrderBySign(a: Number, b: Number)
    requires a.Num? && b.Num? && a.Canonical() && b.Canonical()
    requires a.negative != b.negative || a.coefficient == 0 || b.coefficient == 0
    ensures Order(a, b) == Sign(Sign(a.Signed()) - Sign(b.Signed()))
  {
    var at := Max(a.scale, b.scale);
    SignScale(a.Signed(), Pow10(at - a.scale));
    SignScale(b.Signed(), Pow10(at - b.scale));
  }

  /** Of two values of one sign, the one whose leading digit stands higher has the larger magnitude. */
  lemma OrderByExponent(a: Number, b: Number)
    requires a.Num? && b.Num? && a.coefficient > 0 && b.coefficient > 0 && a.negative == b.negative
    requires Exponent(a) < Exponent(b)
    ensures Order(a, b) == if a.negative then 1 else -1
  {
    var at := Max(a.scale, b.scale);
    UnitsOf(a, at);
    UnitsOf(b, at);
    MagnitudeBounds(a, at);
    MagnitudeBounds(b, at);
    PowMono(Exponent(a) + at, Exponent(b) + at - 1);
  }

  lemma MagnitudeBounds(n: Number, at: int)
    requires n.Num? && n.coefficient > 0 && n.scale <= at
    ensures Exponent(n) + at - 1 >= 0
    ensures Pow10(Exponent(n) + at - 1) <= Product(n.coefficient, Pow10(at - n.scale)) < Pow10(Exponent(n) + at)
  {
    var c, k := n.coefficient, at - n.scale;
    var d := Digits(c);
    DigitsBounds(c);
    PowAdd(d, k);
    PowAdd(d - 1, k);
    MulLe(Pow10(d - 1), c, Pow10(k));
    MulLt(c, Pow10(d), Pow10(k));
  }

  /** Values whose leading digits stand equally high compare like their padded coefficients. */
  lemma OrderByAligned(a: Number, b: Number)
    requires a.Num? && b.Num? && a.negative == b.negative && Exponent(a) == Exponent(b)
    ensures var s := PaddedOrder(a.coefficient, b.coefficient);
            Order(a, b) == if a.negative then -s else s
  {
    var at := Max(a.scale, b.scale);
    UnitsOf(a, at);
    UnitsOf(b, at);
    NegateProduct(1, 1);
  }

  // ---- Rescaling ----------------------------------------------------------------------------

  /** The value with another scale, or why there is none. */
  function Rescaled(n: Number, scale: int): Result<Number>
  {
    if n.Null? then Bad(NullValue)
    else if n.scale == scale || n.coefficient == 0 then Good(n.(scale := scale))
    else if scale > n.scale then
      if scale - n.scale > MAX_DIGITS - Digits(n.coefficient) then Bad(LimitExceeded)
      else Good(n.(coefficient := n.coefficient * Pow10(scale - n.scale), scale := scale))
    else
      var p := Pow10(n.scale - scale);
      if n.coefficient % p != 0 then Bad(Inexact)
      else Good(n.(coefficient := n.coefficient / p, scale := scale))
  }

  /** Rescaling succeeds exactly when some coefficient within the digit limit denotes the same value
      at the new scale, and then yields it; the two failures tell which part is impossible. */
  lemma RescaledIsExact(n: Number, scale: int)
    requires n.Num? && n.Canonical() && IsInt32(scale)
    ensures match Rescaled(n, scale)
            case Good(r) => r.Num? && r.Canonical() && r.scale == scale && SameValue(n, r)
            case Bad(s) =>
              && (s == Inexact || s == LimitExceeded)
              && (forall c: nat, neg: bool :: SameValue(n, Num(neg, c, scale)) ==>
                    s == LimitExceeded && Digits(c) > MAX_DIGITS)
  {
    if n.scale != scale && n.coefficient != 0 {
      if scale > n.scale { ScaleUpIsExact(n, scale); } else { ScaleDownIsExact(n, scale); }
    }
  }

  lemma ScaleUpIsExact(n: Number, scale: int)
    requires n.Num? && n.Canonical() && IsInt32(scale) && n.coefficient != 0 && scale > n.scale
    ensures var c := Product(n.coefficient, Pow10(scale - n.scale));
            && Digits(c) == Digits(n.coefficient) + scale - n.scale
            && SameValue(n, Num(n.negative, c, scale))
            && forall d: nat, neg: bool :: SameValue(n, Num(neg, d, scale)) ==> d == c
  {
    UnitsOf(n, scale);
    DigitsOfShift(n.coefficient, scale - n.scale);
    forall d: nat, neg: bool ensures Num(neg, d, scale).Units(scale) == WithSign(neg, d) {}
  }

  lemma ScaleDownIsExact(n: Number, scale: int)
    requires n.Num? && n.Canonical() && IsInt32(scale) && n.coefficient != 0 && scale < n.scale
    ensures var c, p := n.coefficient, Pow10(n.scale - scale);
            && (c % p == 0 ==> SameValue(n, Num(n.negative, c / p, scale)) && Digits(c / p) <= Digits(c))
            && forall d: nat, neg: bool :: SameValue(n, Num(neg, d, scale)) ==> c % p == 0
  {
    var c, p := n.coefficient, Pow10(n.scale - scale);
    if c % p == 0 {
      DivModWhole(c, p);
      QuotientFits(c, p);
      SameValueBelow(n, n.negative, c / p, scale);
    }
    forall d: nat, neg: bool | SameValue(n, Num(neg, d, scale)) ensures c % p == 0 {
      SameValueBelow(n, neg, d, scale);
      MulDivCancel(d, p);
    }
  }

  lemma SameValueBelow(n: Number, neg: bool, d: nat, scale: int)
    requires n.Num? && scale < n.scale && (n.negative ==> n.coefficient != 0)
    ensures SameValue(n, Num(neg, d, scale)) <==>
            WithSign(n.negative, n.coefficient) == WithSign(neg, Product(d, Pow10(n.scale - scale)))
  {
    UnitsOf(n, n.scale);
    assert Product(n.coefficient, Pow10(0)) == n.coefficient;
    UnitsOf(Num(neg, d, scale), n.scale);
  }

  lemma NegateProduct(x: int, p: int)
    ensures -x * p == -(x * p)
  {
  }

  lemma QuotientFits(c: nat, p: nat)
    requires p > 0
    ensures Digits(c / p) <= Digits(c)
  {
    var q := c / p;
    DivModWhole(c, p);
    MulLe(1, p, q);
    Commute(p, q);
    DigitsBounds(q);
    DigitsBounds(c);
    if Digits(q) > Digits(c) {
      PowMono(Digits(c), Digits(q) - 1);
    }
  }

  /** Rescaling back restores the original, coefficient, sign and scale. */
  lemma RescaleRoundTrip(n: Number, scale: int)
    requires n.Num? && n.Canonical() && IsInt32(scale) && Rescaled(n, scale).Good?
    ensures Rescaled(Rescaled(n, scale).value, n.scale) == Good(n)
  {
    var c := n.coefficient;
    if n.scale != scale && c != 0 {
      if scale > n.scale {
        MulDivCancel(c, Pow10(scale - n.scale));
        DigitsOfShift(c, scale - n.scale);
      } else {
        var p := Pow10(n.scale - scale);
        DivModWhole(c, p);
        if c / p == 0 { assert false; }
        DigitsOfShift(c / p, n.scale - scale);
      }
    }
  }

  /** Rescaling either operand never changes a comparison. */
  lemma OrderIgnoresScale(a: Number, b: Number, scale: int)
    requires a.Num? && b.Num? && a.Canonical() && IsInt32(scale)
    requires Rescaled(a, scale).Good?
    ensures Rescaled(a, scale).value.Num?
    ensures Order(Rescaled(a, scale).value, b) == Order(a, b)
  {
    RescaledIsExact(a, scale);
    OrderIsTotal(a, Rescaled(a, scale).value, b);
  }

  // ---- Integers -----------------------------------------------------------------------------

  /** The value as a 64-bit integer: not an integer at all, an integer out of range, or that integer. */
  function Integer(n: Number): Result<int>
  {
    if n.Null? then Bad(NullValue)
    else if Fractional(n.coefficient, n.scale) then Bad(Inexact)
    else
      var value := WithSign(n.negative, WholePart(n.coefficient, n.scale));
      if INT64_MIN <= value <= INT64_MAX then Good(value) else Bad(OutOfRange)
  }

  predicate Fractional(c: nat, scale: int) {
    scale > 0 && c % Pow10(scale) != 0
  }

  /** The magnitude without its fractional digits, or with the zeros a negative scale stands for. */
  function WholePart(c: nat, scale: int): nat {
    if scale > 0 then Quotient(c, Pow10(scale)) else Product(c, Pow10(-scale))
  }

  /** The integer returned is the value; none is missed. */
  lemma IntegerIsExact(n: Number)
    requires n.Num? && n.Canonical()
    ensures match Integer(n)
            case Good(v) => INT64_MIN <= v <= INT64_MAX && SameValue(n, OfInt(v, 0))
            case Bad(s) =>
              && (s == Inexact || s == OutOfRange)
              && (forall v: int :: SameValue(n, OfInt(v, 0)) ==>
                    s == OutOfRange && !(INT64_MIN <= v <= INT64_MAX))
  {
    if n.scale > 0 {
      if n.coefficient % Pow10(n.scale) == 0 { WholeUnits(n, n.coefficient / Pow10(n.scale)); }
      forall v: int | SameValue(n, OfInt(v, 0))
        ensures n.coefficient % Pow10(n.scale) == 0
        ensures v == WithSign(n.negative, n.coefficient / Pow10(n.scale))
      {
        FractionIsInteger(n, v);
      }
    } else {
      WholeIsInteger(n);
    }
  }

  lemma WholeIsInteger(n: Number)
    requires n.Num? && n.scale <= 0
    ensures forall v: int :: SameValue(n, OfInt(v, 0)) <==>
              v == WithSign(n.negative, Product(n.coefficient, Pow10(-n.scale)))
  {
    UnitsOf(n, 0);
    forall v: int ensures OfInt(v, 0).Units(0) == v {}
  }

  lemma WholeUnits(n: Number, q: nat)
    requires n.Num? && n.scale > 0
    requires n.coefficient % Pow10(n.scale) == 0 && q == n.coefficient / Pow10(n.scale)
    requires n.negative ==> n.coefficient > 0
    ensures SameValue(n, OfInt(WithSign(n.negative, q), 0))
  {
    var p := Pow10(n.scale);
    DivModWhole(n.coefficient, p);
    NegateProduct(q, p);
    assert n.Units(n.scale) == n.Signed();
    var o := OfInt(WithSign(n.negative, q), 0);
    assert o.Units(n.scale) == o.Signed() * p;
  }

  lemma FractionIsInteger(n: Number, v: int)
    requires n.Num? && n.Canonical() && n.scale > 0 && SameValue(n, OfInt(v, 0))
    ensures n.coefficient % Pow10(n.scale) == 0
    ensures v == WithSign(n.negative, n.coefficient / Pow10(n.scale))
  {
    var p := Pow10(n.scale);
    var o := OfInt(v, 0);
    var m := o.coefficient;
    assert n.Units(n.scale) == n.Signed() == o.Signed() * p;
    NegateProduct(m, p);
    MulLe(0, m, p);
    assert n.coefficient == m * p;
    MulDivCancel(m, p);
    if m > 0 { MulLt(0, m, p); }
  }

  /** The number a signed coefficient and a scale denote. */
  function OfInt(value: int, scale: int): Number {
    Num(value < 0, if value < 0 then -value else value, scale)
  }

  lemma IntegerOfInt(v: int)
    requires INT64_MIN <= v <= INT64_MAX
    ensures Integer(OfInt(v, 0)) == Good(v)
  {
  }
}
