/** The decimal object of src/sqli_decimal.c: base-10^9 limbs, least significant first, held either
    in four inline cells or in a heap buffer. Parameters named `memory` say whether the allocator
    would satisfy a request. */
module Decimals {
  import opened Status
  import opened Arrays
  import opened Radix
  import opened Numbers

  const LIMB_DIGITS: nat := 9
  const LIMB_BASE: nat := 1_000_000_000
  const INLINE_LIMBS: nat := 4
  const MAX_LIMBS: nat := (MAX_DIGITS + LIMB_DIGITS - 1) / LIMB_DIGITS
  const POWERS: seq<nat> := [1, 10, 100, 1000, 10000, 100000, 1000000, 10000000, 100000000]

  lemma LimbBase()
    ensures Pow10(9) == LIMB_BASE
  {
    assert Pow10(3) == 1000;
    PowAdd(3, 3);
    PowAdd(3, 6);
  }

  lemma PowersTable(i: nat)
    requires i < 9
    ensures POWERS[i] == Pow10(i)
  {
    assert Pow10(3) == 1000;
    if i >= 3 { PowAdd(3, i - 3); }
    if i >= 6 { PowAdd(3, i - 6); }
  }

  function TableEntry(i: nat): (p: nat)
    requires i < 9
    ensures p == Pow10(i)
  {
    PowersTable(i);
    POWERS[i]
  }

  /** One digit of a limb, by the table of powers. */
  function LimbDigit(limb: nat, j: nat): (digit: nat)
    requires j < LIMB_DIGITS
    ensures digit == DigitAt(limb, j)
  {
    limb / TableEntry(j) % 10
  }

  function LimbValue(limbs: seq<nat>): nat {
    Value(LIMB_DIGITS, limbs)
  }

  method LimbsInRange(source: array<nat>, count: nat) returns (valid: bool)
    requires count <= source.Length
    ensures valid == CellsInRange(source[..count]) == Cells(LIMB_DIGITS, source[..count])
  {
    LimbBase();
    for i := 0 to count
      invariant Cells(LIMB_DIGITS, source[..i])
    {
      if source[i] >= LIMB_BASE {
        assert source[..count][i] == source[i];
        return false;
      }
      assert source[..i + 1] == source[..i] + [source[i]];
    }
    return true;
  }

  /** Number of limbs once leading zero limbs are ignored. */
  method SignificantLimbs(source: array<nat>, count: nat) returns (n: nat)
    requires count <= source.Length
    ensures n <= count && LimbValue(source[..n]) == LimbValue(source[..count])
    ensures n > 0 ==> source[n - 1] != 0
  {
    n := count;
    while n != 0 && source[n - 1] == 0
      invariant n <= count && LimbValue(source[..n]) == LimbValue(source[..count])
    {
      assert source[..n] == source[..n - 1] + [source[n - 1]];
      ValueSnoc(LIMB_DIGITS, source[..n - 1], source[n - 1]);
      n := n - 1;
    }
  }

  /** Digit at a position counted from the most significant one; zeros continue past the end. */
  function TopDigit(c: nat, position: nat): nat {
    if position < Digits(c) then DigitAt(c, Digits(c) - 1 - position) else 0
  }

  /** The first i digits of two coefficients padded to one length are the same. */
  ghost predicate AgreeOnTop(a: nat, b: nat, count: nat, i: nat)
    requires Digits(a) <= count && Digits(b) <= count && i <= count
  {
    AgreeAbove(Padded(a, count), Padded(b, count), count - i)
  }

  lemma LeadingDigitsAgree(a: nat, b: nat, count: nat)
    requires Digits(a) <= count && Digits(b) <= count
    ensures AgreeOnTop(a, b, count, 0)
  {
    NothingAbove(a, count);
    NothingAbove(b, count);
  }

  lemma NothingAbove(c: nat, count: nat)
    requires Digits(c) <= count
    ensures Padded(c, count) / Pow10(count) == 0
  {
    var d := Digits(c);
    DigitsBounds(c);
    PowSub(count, count - d);
    MulLt(c, Pow10(d), Pow10(count - d));
    Commute(Pow10(d), Pow10(count - d));
    DivModUnique(Padded(c, count), Pow10(count), 0, Padded(c, count));
  }

  lemma CompareNextDigit(a: nat, b: nat, count: nat, i: nat)
    requires count == Max(Digits(a), Digits(b)) && i < count && AgreeOnTop(a, b, count, i)
    ensures TopDigit(a, i) == TopDigit(b, i) ==> AgreeOnTop(a, b, count, i + 1)
    ensures TopDigit(a, i) != TopDigit(b, i) ==>
              PaddedOrder(a, b) == if TopDigit(a, i) < TopDigit(b, i) then -1 else 1
  {
    var k := count - 1 - i;
    DigitOfShifted(a, count - Digits(a), k);
    DigitOfShifted(b, count - Digits(b), k);
    NextDigitDecides(Padded(a, count), Padded(b, count), k);
  }

  lemma AllDigitsAgree(a: nat, b: nat, count: nat)
    requires count == Max(Digits(a), Digits(b)) && AgreeOnTop(a, b, count, count)
    ensures PaddedOrder(a, b) == 0
  {
    SameLeading(Padded(a, count), Padded(b, count));
  }

  // ---- Splitting a machine integer into limbs -----------------------------------------------

  lemma SplitLimb(whole: nat, low: seq<nat>, rest: nat)
    requires Cells(LIMB_DIGITS, low) && |low| <= INLINE_LIMBS && rest > 0
    requires whole == LimbValue(low) + Product(Unit(LIMB_DIGITS, |low|), rest) && whole <= INT64_MAX + 1
    ensures |low| < INLINE_LIMBS
    ensures Cells(LIMB_DIGITS, low + [rest % LIMB_BASE])
    ensures whole == LimbValue(low + [rest % LIMB_BASE]) + Product(Unit(LIMB_DIGITS, |low| + 1), rest / LIMB_BASE)
  {
    var u := Unit(LIMB_DIGITS, |low|);
    AtMostThree(|low|, u, rest);
    LimbBase();
    ValueSnoc(LIMB_DIGITS, low, rest % LIMB_BASE);
    SplitProduct(u, rest);
  }

  lemma SplitProduct(u: nat, x: nat)
    ensures Product(u, x) == u * (x % LIMB_BASE) + Product(LIMB_BASE * u, x / LIMB_BASE)
  {
    var q, r := x / LIMB_BASE, x % LIMB_BASE;
    DistributeLeft(u, r, LIMB_BASE * q);
  }

  lemma AtMostThree(n: nat, u: nat, rest: nat)
    requires u == Unit(LIMB_DIGITS, n) && rest > 0 && Product(u, rest) <= INT64_MAX + 1
    ensures n < 3
  {
    MulLe(1, rest, u);
    Commute(rest, u);
    UnitIsPow(LIMB_DIGITS, n);
    Int64Limit();
    if n >= 3 { PowMono(19, 9 * n); }
  }

  lemma FewLimbs(limbs: seq<nat>, value: nat)
    requires |limbs| <= INLINE_LIMBS && Cells(LIMB_DIGITS, limbs) && value <= INT64_MAX + 1
    ensures CellsInRange(limbs) && Digits(value) <= MAX_DIGITS
  {
    LimbBase();
    Int64Limit();
    DigitsBounds(value);
    if Digits(value) > 19 { PowMono(19, Digits(value) - 1); }
  }

  lemma Int64Limit()
    ensures INT64_MAX + 1 < Pow10(19)
  {
    LimbBase();
    PowAdd(9, 9);
    PowAdd(1, 18);
  }

  // ---- Reading an integer digit by digit ----------------------------------------------------

  lemma ZeroInteger(n: Number)
    requires n.Num? && n.coefficient == 0
    ensures Integer(n) == Good(0)
  {
    if n.scale > 0 { DivModUnique(0, Pow10(n.scale), 0, 0); }
  }

  lemma BelowOne(c: nat, scale: int)
    requires c > 0 && Digits(c) <= scale
    ensures c % Pow10(scale) != 0 && Fractional(c, scale)
  {
    DigitsBounds(c);
    PowMono(Digits(c), scale);
    DivModUnique(c, Pow10(scale), 0, c);
  }

  predicate SameLow(c: nat, m: nat, k: nat) {
    c % Pow10(m) == c % Pow10(k)
  }

  lemma NoLowDigits(c: nat, scale: nat)
    requires SameLow(c, scale, 0)
    ensures c % Pow10(scale) == 0
  {
  }

  /** The number without its k low digits. */
  function Leading(x: nat, k: nat): nat {
    Quotient(x, Pow10(k))
  }

  /** A nonzero digit among the low ones rules out divisibility; a zero digit leaves it to the rest. */
  lemma NextLowDigit(c: nat, scale: nat, k: nat)
    requires SameLow(c, scale, k + 1)
    ensures DigitAt(c, k) == 0 ==> SameLow(c, scale, k)
    ensures DigitAt(c, k) != 0 ==> c % Pow10(scale) != 0
  {
    DigitStep(c, k);
    MulLe(if DigitAt(c, k) == 0 then 0 else 1, DigitAt(c, k), Pow10(k));
  }

  lemma WholePartDigits(c: nat, scale: int)
    requires c > 0 && Digits(c) > scale
    ensures Digits(WholePart(c, scale)) == Digits(c) - scale
    ensures Pow10(Digits(c) - scale - 1) <= WholePart(c, scale) < Pow10(Digits(c) - scale)
  {
    if scale > 0 {
      var d := Digits(c);
      DigitsBounds(c);
      PowSub(d, scale);
      PowSub(d - 1, scale);
      QuotientRange(c, Pow10(scale), Pow10(d - 1 - scale), Pow10(d - scale));
      DigitsUnique(c / Pow10(scale), d - scale);
    } else {
      DigitsOfShift(c, -scale);
      DigitsBounds(WholePart(c, scale));
    }
  }

  lemma QuotientRange(x: nat, p: nat, low: nat, high: nat)
    requires p > 0 && p * low <= x < p * high
    ensures low <= x / p < high
  {
    DivModWhole(x, p);
    Commute(p, low);
    Commute(p, high);
    if x / p < low { MulLe(x / p + 1, low, p); Distribute(x / p, 1, p); }
    if x / p >= high { MulLe(high, x / p, p); }
  }

  lemma WholePartDigit(c: nat, scale: int, i: nat)
    requires c > 0 && i < Digits(c) - scale
    ensures var k := Digits(c) - scale - 1 - i;
            Leading(WholePart(c, scale), k) == 10 * Leading(WholePart(c, scale), k + 1) + TopDigit(c, i)
            && TopDigit(c, i) < 10
  {
    var k := Digits(c) - scale - 1 - i;
    DigitStep(WholePart(c, scale), k);
    if scale > 0 {
      PowAdd(scale, k);
      DivDiv(c, Pow10(scale), Pow10(k));
    } else {
      DigitOfShifted(c, -scale, k);
    }
  }

  lemma LeadingNone(x: nat)
    ensures Leading(x, Digits(x)) == 0
  {
    DigitsBounds(x);
    DivModUnique(x, Pow10(Digits(x)), 0, x);
  }

  lemma PrefixBound(x: nat, k: nat)
    ensures Leading(x, k) <= x
  {
    QuotientLe(x, Pow10(k));
  }

  lemma QuotientLe(x: nat, p: nat)
    requires p > 0
    ensures x / p <= x
  {
    DivModWhole(x, p);
    if x / p > 0 { MulLe(1, p, x / p); Commute(x / p, p); }
  }

  // ---- Multiplying and dividing by a power of ten -------------------------------------------

  method ClearLimbs(target: array<nat>, count: nat)
    requires count <= target.Length
    modifies target
    ensures forall i :: 0 <= i < count ==> target[i] == 0
  {
    for i := 0 to count
      invariant forall j :: 0 <= j < i ==> target[j] == 0
    {
      target[i] := 0;
    }
  }

  /** Multiplies limb by limb into the cells above the shift and returns the final carry. */
  method MultiplyInto(target: array<nat>, source: array<nat>, n: nat, shift: nat, factor: nat)
    returns (carry: nat)
    requires target != source && n <= source.Length && shift + n <= target.Length
    requires Cells(LIMB_DIGITS, source[..n]) && 0 < factor < LIMB_BASE
    modifies target
    ensures forall i :: 0 <= i < target.Length && !(shift <= i < shift + n) ==> target[i] == old(target[i])
    ensures Cells(LIMB_DIGITS, target[shift..shift + n]) && carry < factor
    ensures LimbValue(target[shift..shift + n]) + Product(Unit(LIMB_DIGITS, n), carry)
            == Product(factor, LimbValue(source[..n]))
  {
    carry := 0;
    LimbBase();
    ZeroProducts(factor);
    assert target[shift..shift] == [] && source[..0] == [];
    for i := 0 to n
      invariant forall j :: 0 <= j < target.Length && !(shift <= j < shift + i) ==> target[j] == old(target[j])
      invariant Cells(LIMB_DIGITS, target[shift..shift + i]) && carry < factor
      invariant LimbValue(target[shift..shift + i]) + Product(Unit(LIMB_DIGITS, i), carry)
                == Product(factor, LimbValue(source[..i]))
    {
      ghost var done := target[shift..shift + i];
      assert source[i] == source[..n][i] < LIMB_BASE;
      MultiplyStep(done, source[..i], source[i], carry, factor);
      var product := Product(source[i], factor) + carry;
      assert product <= UINT64_MAX;
      target[i + shift] := product % LIMB_BASE;
      carry := product / LIMB_BASE;
      assert target[shift..shift + i + 1] == done + [target[i + shift]];
      assert source[..i + 1] == source[..i] + [source[i]];
    }
  }

  lemma ZeroProducts(factor: nat)
    ensures Product(factor, 0) == 0 && Product(Unit(LIMB_DIGITS, 0), 0) == 0
  {
  }

  lemma MultiplyStep(done: seq<nat>, low: seq<nat>, limb: nat, carry: nat, factor: nat)
    requires |done| == |low| && limb < LIMB_BASE && carry < factor < LIMB_BASE
    requires LimbValue(done) + Product(Unit(LIMB_DIGITS, |low|), carry) == Product(factor, LimbValue(low))
    ensures var product := Product(limb, factor) + carry;
            && product / LIMB_BASE < factor
            && product <= UINT64_MAX
            && LimbValue(done + [product % LIMB_BASE])
               + Product(Unit(LIMB_DIGITS, |low| + 1), product / LIMB_BASE)
               == Product(factor, LimbValue(low + [limb]))
  {
    var u := Unit(LIMB_DIGITS, |low|);
    var product := Product(limb, factor) + carry;
    var q, r := product / LIMB_BASE, product % LIMB_BASE;
    LimbBase();
    MulLe(limb + 1, LIMB_BASE, factor);
    Distribute(limb, 1, factor);
    MulLe(factor, LIMB_BASE, LIMB_BASE);
    ValueSnoc(LIMB_DIGITS, done, r);
    ValueSnoc(LIMB_DIGITS, low, limb);
    DistributeLeft(factor, LimbValue(low), u * limb);
    Associate(factor, u, limb);
    Commute(factor, u);
    Associate(u, factor, limb);
    Commute(factor, limb);
    DistributeLeft(u, limb * factor, carry);
    DistributeLeft(u, LIMB_BASE * q, r);
    Associate(u, LIMB_BASE, q);
    Commute(u, LIMB_BASE);
  }

  method ShiftAndMultiply(target: array<nat>, source: array<nat>, n: nat, digits: nat, power: nat)
    requires target != source && 0 < n <= source.Length && Cells(LIMB_DIGITS, source[..n])
    requires digits == Digits(LimbValue(source[..n])) && LimbValue(source[..n]) > 0
    requires LIMB_DIGITS * (n - 1) < digits
    requires (digits + power + LIMB_DIGITS - 1) / LIMB_DIGITS <= target.Length
    modifies target
    ensures var count := (digits + power + LIMB_DIGITS - 1) / LIMB_DIGITS;
            && Cells(LIMB_DIGITS, target[..count])
            && LimbValue(target[..count]) == Product(old(LimbValue(source[..n])), Pow10(power))
  {
    var count := (digits + power + LIMB_DIGITS - 1) / LIMB_DIGITS;
    ClearLimbs(target, count);
    var shift := power / LIMB_DIGITS;
    var factor := TableEntry(power % LIMB_DIGITS);
    EnoughLimbs(n, digits, power);
    ghost var cells := source[..n];
    var carry := MultiplyInto(target, source, n, shift, factor);
    ghost var product := target[shift..shift + n];
    ghost var zeros := target[..shift];
    CarryHasLimb(cells, product, carry, digits, power);
    ghost var top := if carry == 0 then [] else [carry];
    if carry != 0 { target[n + shift] := carry; }
    assert target[..count] == zeros + product + top;
    ShiftedProduct(cells, zeros, product, top, carry, power);
  }

  lemma EnoughLimbs(n: nat, digits: nat, power: nat)
    requires LIMB_DIGITS * (n - 1) < digits && n > 0
    ensures power / LIMB_DIGITS + n <= (digits + power + LIMB_DIGITS - 1) / LIMB_DIGITS
  {
  }

  lemma ManyLimbs(n: nat, digits: nat)
    requires LIMB_DIGITS * (n - 1) < digits <= MAX_DIGITS
    ensures n <= MAX_LIMBS
  {
  }

  /** A final carry has an allocated limb, and no limb is left over without one. */
  lemma CarryHasLimb(source: seq<nat>, product: seq<nat>, carry: nat, digits: nat, power: nat)
    requires |product| == |source| > 0 && Cells(LIMB_DIGITS, source) && Cells(LIMB_DIGITS, product)
    requires LimbValue(source) > 0 && digits == Digits(LimbValue(source))
    requires LIMB_DIGITS * (|source| - 1) < digits
    requires LimbValue(product) + Product(Unit(LIMB_DIGITS, |source|), carry)
             == Product(Pow10(power % LIMB_DIGITS), LimbValue(source))
    ensures (digits + power + LIMB_DIGITS - 1) / LIMB_DIGITS
            == power / LIMB_DIGITS + |source| + if carry == 0 then 0 else 1
  {
    var n := |source|;
    var u := Unit(LIMB_DIGITS, n);
    UnitIsPow(LIMB_DIGITS, n);
    ValueBound(LIMB_DIGITS, source);
    ValueBound(LIMB_DIGITS, product);
    DigitsWithin(LimbValue(source), LIMB_DIGITS * n);
    Commute(Pow10(power % LIMB_DIGITS), LimbValue(source));
    DigitsOfShift(LimbValue(source), power % LIMB_DIGITS);
    DigitsWithin(Product(Pow10(power % LIMB_DIGITS), LimbValue(source)), LIMB_DIGITS * n);
    if carry == 0 { Commute(u, 0); } else { Commute(u, carry); MulLe(1, carry, u); }
  }

  lemma ShiftedProduct(source: seq<nat>, zeros: seq<nat>, product: seq<nat>, top: seq<nat>, carry: nat, power: nat)
    requires |zeros| == power / LIMB_DIGITS && forall i :: 0 <= i < |zeros| ==> zeros[i] == 0
    requires |product| == |source| && Cells(LIMB_DIGITS, product) && carry < LIMB_BASE
    requires top == if carry == 0 then [] else [carry]
    requires LimbValue(product) + Product(Unit(LIMB_DIGITS, |source|), carry)
             == Product(Pow10(power % LIMB_DIGITS), LimbValue(source))
    ensures Cells(LIMB_DIGITS, zeros + product + top)
    ensures LimbValue(zeros + product + top) == Product(LimbValue(source), Pow10(power))
  {
    LimbBase();
    ValueZero(LIMB_DIGITS, zeros);
    if carry == 0 {
      Commute(Unit(LIMB_DIGITS, |source|), 0);
      assert product + top == product;
    } else {
      ValueSnoc(LIMB_DIGITS, product, carry);
    }
    ValueAppend(LIMB_DIGITS, zeros, product + top);
    assert zeros + product + top == zeros + (product + top);
    UnitIsPow(LIMB_DIGITS, |zeros|);
    var f, v := Pow10(power % LIMB_DIGITS), LimbValue(source);
    PowAdd(LIMB_DIGITS * |zeros|, power % LIMB_DIGITS);
    Associate(Unit(LIMB_DIGITS, |zeros|), f, v);
    Commute(v, Pow10(power));
  }

  method LowLimbsZero(limbs: array<nat>, shift: nat) returns (zero: bool)
    requires shift <= limbs.Length
    ensures zero == forall i :: 0 <= i < shift ==> limbs[i] == 0
  {
    for i := 0 to shift
      invariant forall j :: 0 <= j < i ==> limbs[j] == 0
    {
      if limbs[i] != 0 { return false; }
    }
    return true;
  }

  /** Divisibility by a power of ten shows in the low limbs and the remainder of a single limb. */
  lemma DivisibleLimbs(limbs: seq<nat>, power: nat)
    requires Cells(LIMB_DIGITS, limbs) && power / LIMB_DIGITS < |limbs|
    ensures var shift := power / LIMB_DIGITS;
            LimbValue(limbs) % Pow10(power) == 0 <==>
            (forall i :: 0 <= i < shift ==> limbs[i] == 0) && limbs[shift] % TableEntry(power % LIMB_DIGITS) == 0
    ensures var shift := power / LIMB_DIGITS;
            LimbValue(limbs) / Pow10(power) == LimbValue(limbs[shift..]) / Pow10(power % LIMB_DIGITS)
  {
    var shift, j := power / LIMB_DIGITS, power % LIMB_DIGITS;
    UnitIsPow(LIMB_DIGITS, shift);
    PowAdd(LIMB_DIGITS * shift, j);
    ValueSplit(LIMB_DIGITS, limbs, shift);
    ValueZero(LIMB_DIGITS, limbs[..shift]);
    DivDiv(LimbValue(limbs), Unit(LIMB_DIGITS, shift), Pow10(j));
    assert limbs[shift..] == [limbs[shift]] + limbs[shift + 1..];
    LowRemainder(limbs[shift], LimbValue(limbs[shift + 1..]), j);
    var high := LimbValue(limbs[shift..]) % Pow10(j);
    assert Product(high, Unit(LIMB_DIGITS, shift)) + LimbValue(limbs[..shift]) == LimbValue(limbs) % Pow10(power);
    if high > 0 { MulLe(1, high, Unit(LIMB_DIGITS, shift)); }
    assert forall i :: 0 <= i < shift ==> limbs[..shift][i] == limbs[i];
  }

  method DivisibleByPower(limbs: array<nat>, n: nat, digits: nat, power: nat) returns (divisible: bool)
    requires 0 < n <= limbs.Length && Cells(LIMB_DIGITS, limbs[..n])
    requires LimbValue(limbs[..n]) > 0
    requires digits == Digits(LimbValue(limbs[..n])) <= LIMB_DIGITS * n
    ensures divisible == (LimbValue(limbs[..n]) % Pow10(power) == 0)
    ensures divisible ==> power < LIMB_DIGITS * n
  {
    if power >= digits {
      BelowOne(LimbValue(limbs[..n]), power);
      return false;
    }
    var shift := power / LIMB_DIGITS;
    var divisor := TableEntry(power % LIMB_DIGITS);
    ghost var cells := limbs[..n];
    DivisibleLimbs(cells, power);
    var zero := LowLimbsZero(limbs, shift);
    assert zero == forall i :: 0 <= i < shift ==> cells[i] == 0;
    return zero && limbs[shift] % divisor == 0;
  }

  method ShiftAndDivide(target: array<nat>, source: array<nat>, n: nat, power: nat)
    requires target != source && n <= source.Length && Cells(LIMB_DIGITS, source[..n])
    requires power < LIMB_DIGITS * n && n - power / LIMB_DIGITS <= target.Length
    modifies target
    ensures var count := n - power / LIMB_DIGITS;
            && Cells(LIMB_DIGITS, target[..count])
            && LimbValue(target[..count]) == Quotient(old(LimbValue(source[..n])), Pow10(power))
  {
    var divisor := TableEntry(power % LIMB_DIGITS);
    DivisibleLimbs(source[..n], power);
    DivideInto(target, source, n, power / LIMB_DIGITS, divisor);
  }

  lemma LowRemainder(limb: nat, rest: nat, j: nat)
    requires j < LIMB_DIGITS
    ensures (limb + Pow10(LIMB_DIGITS) * rest) % Pow10(j) == limb % Pow10(j)
  {
    PowSub(LIMB_DIGITS, j);
    Associate(Pow10(j), Pow10(LIMB_DIGITS - j), rest);
    DivAddMultiple(limb, Pow10(j), Product(Pow10(LIMB_DIGITS - j), rest));
  }

  /** Long division from the top limb down; the remainder is discarded. */
  method DivideInto(target: array<nat>, source: array<nat>, n: nat, shift: nat, divisor: nat)
    requires target != source && shift <= n <= source.Length && n - shift <= target.Length
    requires Cells(LIMB_DIGITS, source[..n]) && 0 < divisor < LIMB_BASE
    modifies target
    ensures Cells(LIMB_DIGITS, target[..n - shift])
    ensures LimbValue(target[..n - shift]) == Quotient(LimbValue(source[..n][shift..]), divisor)
  {
    var remainder: nat := 0;
    var i: nat := n;
    ghost var cells := source[..n];
    ghost var done: seq<nat> := [];
    NothingDivided(divisor);
    while i > shift
      invariant shift <= i <= n && source[..n] == cells
      invariant |done| == n - i && target[i - shift..n - shift] == done
      invariant Cells(LIMB_DIGITS, done) && Divided(cells[i..], done, divisor, remainder)
    {
      var quotient, rest := DivideLimb(remainder, source[i - 1], divisor);
      DivideStep(cells, i, done, remainder, divisor, quotient, rest);
      target[i - shift - 1] := quotient;
      remainder := rest;
      done := [quotient] + done;
      i := i - 1;
    }
    FinalQuotient(cells[shift..], done, divisor, remainder);
  }

  /** Long division so far: the high limbs are divisor times the quotient limbs, plus the remainder. */
  ghost predicate Divided(high: seq<nat>, quotient: seq<nat>, divisor: nat, remainder: nat) {
    remainder < divisor && LimbValue(high) == Product(divisor, LimbValue(quotient)) + remainder
  }

  lemma NothingDivided(divisor: nat)
    requires divisor > 0
    ensures Divided([], [], divisor, 0)
  {
  }

  lemma FinalQuotient(high: seq<nat>, quotient: seq<nat>, divisor: nat, remainder: nat)
    requires Divided(high, quotient, divisor, remainder)
    ensures LimbValue(quotient) == Quotient(LimbValue(high), divisor)
  {
    DivModSum(remainder, divisor, LimbValue(quotient));
  }

  method DivideLimb(remainder: nat, limb: nat, divisor: nat) returns (quotient: nat, rest: nat)
    requires remainder < divisor < LIMB_BASE && limb < Pow10(LIMB_DIGITS)
    ensures quotient < Pow10(LIMB_DIGITS) && rest < divisor
    ensures remainder * LIMB_BASE + limb == Product(quotient, divisor) + rest
  {
    LimbBase();
    var dividend := remainder * LIMB_BASE + limb;
    assert dividend <= UINT64_MAX;
    QuotientBelow(dividend, divisor, LIMB_BASE);
    DivModWhole(dividend, divisor);
    quotient := Quotient(dividend, divisor);
    rest := Remainder(dividend, divisor);
  }

  lemma DivideStep(cells: seq<nat>, i: nat, done: seq<nat>, remainder: nat, divisor: nat, q: nat, r: nat)
    requires 0 < i <= |cells| && Divided(cells[i..], done, divisor, remainder) && r < divisor
    requires remainder * LIMB_BASE + cells[i - 1] == Product(q, divisor) + r
    ensures Divided(cells[i - 1..], [q] + done, divisor, r)
  {
    LimbBase();
    assert cells[i - 1..][1..] == cells[i..] && ([q] + done)[1..] == done;
    LongDivision(q, LimbValue(done), divisor);
  }

  lemma LongDivision(q: nat, done: nat, divisor: nat)
    ensures Product(divisor, q + LIMB_BASE * done) == q * divisor + LIMB_BASE * Product(divisor, done)
  {
    DistributeLeft(divisor, q, LIMB_BASE * done);
  }

  lemma QuotientBelow(x: nat, p: nat, limit: nat)
    requires p > 0 && x < p * limit
    ensures x / p < limit
  {
    DivModWhole(x, p);
    Commute(p, limit);
    if x / p >= limit { MulLe(limit, x / p, p); }
  }

  class Decimal {
    const inline: array<nat>
    var limbs: array<nat>
    var used: nat
    var capacity: nat
    var scale: int
    var negative: bool
    var isNull: bool

    /** Storage is consistent; the top limb may still be zero. */
    ghost predicate Shape()
      reads this, limbs
    {
      && inline.Length == INLINE_LIMBS
      && capacity == limbs.Length
      && used <= capacity
      && Cells(LIMB_DIGITS, limbs[..used])
    }

    ghost function Coefficient(): nat
      reads this, limbs
      requires Shape()
    {
      LimbValue(limbs[..used])
    }

    /** What every object satisfies between calls. */
    ghost predicate Valid()
      reads this, limbs
    {
      && Shape()
      && (used > 0 ==> limbs[used - 1] != 0)
      && (used == 0 ==> !negative)
      && (isNull ==> used == 0 && scale == 0)
      && IsInt32(scale)
      && Digits(Coefficient()) <= MAX_DIGITS
    }

    /** The number this object holds. */
    ghost function Model(): (n: Number)
      reads this, limbs
      requires Valid()
      ensures n.Canonical()
    {
      if isNull then Null else (LeadingLimb(); Num(negative, Coefficient(), scale))
    }

    lemma LeadingLimb()
      requires Shape()
      requires used > 0 ==> limbs[used - 1] != 0
      ensures used == 0 <==> Coefficient() == 0
      ensures used > 0 ==>
                Digits(Coefficient()) == LIMB_DIGITS * (used - 1) + Digits(limbs[used - 1])
    {
      if used > 0 {
        assert limbs[..used] == limbs[..used - 1] + [limbs[used - 1]];
        DigitsOfCells(LIMB_DIGITS, limbs[..used - 1], limbs[used - 1]);
      }
    }

    constructor ()
      ensures Valid() && Model() == Null
      ensures fresh(inline) && limbs == inline && inline.Length == INLINE_LIMBS
    {
      inline := new nat[INLINE_LIMBS];
      new;
      limbs := inline;
      used, capacity, scale, negative, isNull := 0, INLINE_LIMBS, 0, false, true;
      assert limbs[..used] == [];
    }

    method Reserve(count: nat, memory: bool) returns (status: Status)
      requires Shape()
      modifies this`limbs, this`capacity
      ensures status == if count > MAX_LIMBS then LimitExceeded
                        else if count > old(capacity) && !memory then AllocFail else Ok
      ensures Shape() && limbs[..used] == old(limbs[..used])
      ensures status == Ok ==> count <= capacity
      ensures limbs == old(limbs) || fresh(limbs)
    {
      if count > MAX_LIMBS { return LimitExceeded; }
      if count <= capacity { return Ok; }
      if !memory { return AllocFail; }
      var grown := new nat[count];
      CopyFirst(grown, limbs, used);
      limbs := grown;
      capacity := count;
      return Ok;
    }

    /** Takes over the contents of a finished temporary, which is not used afterwards. */
    method Move(source: Decimal)
      requires source != this && source.Valid() && inline.Length == INLINE_LIMBS
      requires source.inline != inline && source.limbs != inline
      modifies this, inline, source`limbs
      ensures Valid() && Model() == old(source.Model())
      ensures limbs == inline || (limbs == old(source.limbs) && limbs != source.inline)
      ensures source.limbs == source.inline
    {
      used := source.used;
      scale := source.scale;
      negative := source.negative;
      isNull := source.isNull;
      if source.limbs == source.inline {
        limbs := inline;
        capacity := INLINE_LIMBS;
        CopyFirst(inline, source.inline, INLINE_LIMBS);
        assert limbs[..used] == limbs[..INLINE_LIMBS][..used];
        assert old(source.limbs[..source.used]) == old(source.limbs[..INLINE_LIMBS][..source.used]);
      } else {
        limbs := source.limbs;
        capacity := source.capacity;
        source.limbs := source.inline;
      }
      assert limbs[..used] == old(source.limbs[..source.used]);
    }

    /** Drops leading zero limbs; the coefficient stays. */
    method Trim()
      requires Shape()
      modifies this`used, this`negative
      ensures Shape() && Coefficient() == old(Coefficient())
      ensures used > 0 ==> limbs[used - 1] != 0
      ensures negative == (old(negative) && used != 0)
    {
      while used != 0 && limbs[used - 1] == 0
        invariant used <= old(used) && Shape() && Coefficient() == old(Coefficient())
        invariant negative == old(negative)
        decreases used
      {
        assert limbs[..used] == limbs[..used - 1] + [limbs[used - 1]];
        ValueSnoc(LIMB_DIGITS, limbs[..used - 1], limbs[used - 1]);
        used := used - 1;
      }
      if used == 0 { negative := false; }
    }

    method DigitCount() returns (digits: nat)
      requires Shape() && (used > 0 ==> limbs[used - 1] != 0)
      ensures digits == Digits(Coefficient())
    {
      LeadingLimb();
      if used == 0 { return 1; }
      digits := (used - 1) * LIMB_DIGITS + 1;
      var top := limbs[used - 1];
      while top >= 10
        invariant digits + Digits(top) - 1 == Digits(Coefficient())
      {
        digits := digits + 1;
        top := top / 10;
      }
    }

    /** The digit at a position counted from the most significant one; zeros continue past the end. */
    method DigitFromTop(digits: nat, position: nat) returns (digit: nat)
      requires Valid() && digits == Digits(Coefficient())
      ensures digit == TopDigit(Coefficient(), position)
    {
      LeadingLimb();
      if used == 0 || position >= digits {
        if position < digits { assert DigitAt(0, 0) == 0; }
        return 0;
      }
      var offset := digits - position - 1;
      var i, j := offset / LIMB_DIGITS, offset % LIMB_DIGITS;
      LimbDigits(limbs[used - 1]);
      DigitOfCell(LIMB_DIGITS, limbs[..used], i, j, offset);
      return LimbDigit(limbs[i], j);
    }

    lemma LimbDigits(limb: nat)
      requires limb < Pow10(LIMB_DIGITS)
      ensures Digits(limb) <= LIMB_DIGITS
    {
      DigitsBounds(limb);
      PowMono(LIMB_DIGITS, Max(LIMB_DIGITS, Digits(limb) - 1));
    }

    method SetNull()
      requires Valid()
      modifies this`used, this`scale, this`negative, this`isNull
      ensures Valid() && Model() == Null
    {
      isNull, used, scale, negative := true, 0, 0, false;
      assert limbs[..used] == [];
    }

    /** Imports a coefficient, which may be borrowed from this very object. */
    method SetParts(source: array<nat>, count: nat, newScale: int, newNegative: bool, memory: bool)
      returns (status: Status)
      requires Valid() && count <= source.Length && IsInt32(newScale)
      modifies this, inline
      ensures Valid() && (limbs == old(limbs) || limbs == inline || fresh(limbs))
      ensures status == AllocFail || status == Import(old(source[..count]), newScale, newNegative).Code()
      ensures status == Ok ==> Model() == Import(old(source[..count]), newScale, newNegative).value
      ensures status != Ok ==> Model() == old(Model())
      ensures memory || count <= INLINE_LIMBS ==> status != AllocFail
    {
      if count > MAX_LIMBS { return LimitExceeded; }
      var valid := LimbsInRange(source, count);
      if !valid { return InvalidArgument; }
      var n := SignificantLimbs(source, count);
      var temporary;
      status, temporary := Build(source, n, newScale, newNegative, memory);
      if status == Ok { Move(temporary); }
    }

    /** Numeric order, found without rescaling either operand. */
    method Compare(other: Decimal) returns (status: Status, order: int)
      requires Valid() && other.Valid()
      ensures status == if isNull || other.isNull then NullValue else Ok
      ensures status == Ok ==> order == Order(Model(), other.Model())
    {
      order := 0;
      if isNull || other.isNull { return NullValue, 0; }
      status := Ok;
      LeadingLimb();
      other.LeadingLimb();
      if used == 0 || other.used == 0 {
        OrderBySign(Model(), other.Model());
        if used != 0 {
          order := if negative then -1 else 1;
        } else if other.used != 0 {
          order := if other.negative then 1 else -1;
        }
      } else if negative != other.negative {
        OrderBySign(Model(), other.Model());
        order := if negative then -1 else 1;
      } else {
        order := CompareMagnitude(other);
        if negative { order := -order; }
      }
    }

    method CompareMagnitude(other: Decimal) returns (order: int)
      requires Valid() && other.Valid() && used != 0 && other.used != 0 && negative == other.negative
      requires Model().Num? && other.Model().Num?
      ensures Order(Model(), other.Model()) == if negative then -order else order
    {
      LeadingLimb();
      other.LeadingLimb();
      var leftDigits := DigitCount();
      var rightDigits := other.DigitCount();
      var leftExponent := leftDigits - scale;
      var rightExponent := rightDigits - other.scale;
      if leftExponent != rightExponent {
        order := if leftExponent < rightExponent then -1 else 1;
        if order < 0 {
          OrderByExponent(Model(), other.Model());
        } else {
          OrderByExponent(other.Model(), Model());
          OrderIsTotal(Model(), other.Model(), Model());
        }
        return;
      }
      OrderByAligned(Model(), other.Model());
      order := CompareDigits(other, leftDigits, rightDigits);
    }

    /** Compares digit by digit from the top, zeros continuing past the end of the shorter operand. */
    method CompareDigits(other: Decimal, leftDigits: nat, rightDigits: nat) returns (order: int)
      requires Valid() && other.Valid()
      requires leftDigits == Digits(Coefficient()) && rightDigits == Digits(other.Coefficient())
      ensures order == PaddedOrder(Coefficient(), other.Coefficient())
    {
      var count := if leftDigits > rightDigits then leftDigits else rightDigits;
      ghost var a, b := Coefficient(), other.Coefficient();
      LeadingDigitsAgree(a, b, count);
      for i := 0 to count
        invariant AgreeOnTop(a, b, count, i)
      {
        var left := DigitFromTop(leftDigits, i);
        var right := other.DigitFromTop(rightDigits, i);
        CompareNextDigit(a, b, count, i);
        if left != right {
          return if left < right then -1 else 1;
        }
      }
      AllDigitsAgree(a, b, count);
      return 0;
    }

    method SetI64(coefficient: int, newScale: int, memory: bool) returns (status: Status)
      requires Valid() && INT64_MIN <= coefficient <= INT64_MAX && IsInt32(newScale)
      modifies this, inline
      ensures status == Ok && Valid() && Model() == OfInt(coefficient, newScale)
      ensures limbs == old(limbs) || limbs == inline || fresh(limbs)
    {
      var magnitude: nat := if coefficient < 0 then -coefficient else coefficient;
      ghost var whole := magnitude;
      var cells := new nat[INLINE_LIMBS];
      var n: nat := 0;
      LimbBase();
      while magnitude != 0
        invariant n <= INLINE_LIMBS && Cells(LIMB_DIGITS, cells[..n])
        invariant whole == LimbValue(cells[..n]) + Product(Unit(LIMB_DIGITS, n), magnitude)
        modifies cells
      {
        ghost var before := cells[..n];
        SplitLimb(whole, before, magnitude);
        cells[n] := magnitude % LIMB_BASE;
        magnitude := magnitude / LIMB_BASE;
        n := n + 1;
        assert cells[..n] == before + [cells[n - 1]];
      }
      FewLimbs(cells[..n], whole);
      status := SetParts(cells, n, newScale, coefficient < 0, memory);
    }

    method ToI64() returns (status: Status, value: int)
      requires Valid()
      ensures status == Integer(Model()).Code()
      ensures status == Ok ==> value == Integer(Model()).value
    {
      value := 0;
      if isNull { return NullValue, 0; }
      LeadingLimb();
      if used == 0 {
        ZeroInteger(Model());
        return Ok, 0;
      }
      ghost var c := Coefficient();
      var digits := DigitCount();
      var wholeDigits := digits - scale;
      if wholeDigits <= 0 {
        BelowOne(c, scale);
        return Inexact, 0;
      }
      if scale > 0 {
        var fraction := HasFraction(digits, wholeDigits);
        if fraction { return Inexact, 0; }
      }
      status, value := WholeToI64(digits, wholeDigits);
    }

    /** The conversion once no fraction is left. */
    method WholeToI64(digits: nat, wholeDigits: nat) returns (status: Status, value: int)
      requires Valid() && !isNull && Coefficient() > 0 && !Fractional(Coefficient(), scale)
      requires digits == Digits(Coefficient()) && wholeDigits == digits - scale > 0
      ensures status == Integer(Model()).Code()
      ensures status == Ok ==> value == Integer(Model()).value
    {
      value := 0;
      WholePartDigits(Coefficient(), scale);
      if wholeDigits > 19 {
        PowMono(19, wholeDigits - 1);
        Int64Limit();
        return OutOfRange, 0;
      }
      var limit: nat := INT64_MAX + if negative then 1 else 0;
      var fits, magnitude := Accumulate(digits, wholeDigits, limit);
      if !fits { return OutOfRange, 0; }
      return Ok, WithSign(negative, magnitude);
    }

    /** Whether any of the digits after the decimal point is not zero. */
    method HasFraction(digits: nat, wholeDigits: nat) returns (fraction: bool)
      requires Valid() && scale > 0 && digits == Digits(Coefficient()) == wholeDigits + scale
      ensures fraction == Fractional(Coefficient(), scale)
    {
      ghost var c := Coefficient();
      for i := wholeDigits to digits
        invariant SameLow(c, scale, digits - i)
      {
        var digit := DigitFromTop(digits, i);
        NextLowDigit(c, scale, digits - i - 1);
        if digit != 0 { return true; }
      }
      NoLowDigits(c, scale);
      return false;
    }

    /** The whole digits as a number, unless it exceeds the limit. */
    method Accumulate(digits: nat, wholeDigits: nat, limit: nat) returns (fits: bool, magnitude: nat)
      requires Valid() && Coefficient() > 0 && limit >= 9
      requires digits == Digits(Coefficient()) && wholeDigits == digits - scale > 0
      ensures fits == (WholePart(Coefficient(), scale) <= limit)
      ensures fits ==> magnitude == WholePart(Coefficient(), scale)
    {
      ghost var c := Coefficient();
      magnitude := 0;
      WholePartDigits(c, scale);
      LeadingNone(WholePart(c, scale));
      for i := 0 to wholeDigits
        invariant magnitude == Leading(WholePart(c, scale), wholeDigits - i) && magnitude <= limit
      {
        var digit := DigitFromTop(digits, i);
        WholePartDigit(c, scale, i);
        PrefixBound(WholePart(c, scale), wholeDigits - i - 1);
        if magnitude > (limit - digit) / 10 { return false, 0; }
        magnitude := magnitude * 10 + digit;
      }
      WholeNumber(WholePart(c, scale));
      return true, magnitude;
    }

    /** Changes the scale without changing the value. */
    method RescaleExact(newScale: int, memory: bool) returns (status: Status)
      requires Valid() && IsInt32(newScale)
      modifies this, inline
      ensures Valid() && (limbs == old(limbs) || limbs == inline || fresh(limbs))
      ensures status == AllocFail || status == Rescaled(old(Model()), newScale).Code()
      ensures status == AllocFail ==> !memory
      ensures Model() == if status == Ok then Rescaled(old(Model()), newScale).value else old(Model())
    {
      if isNull { return NullValue; }
      if scale == newScale { return Ok; }
      LeadingLimb();
      if used == 0 {
        scale := newScale;
        return Ok;
      }
      status := Shift(newScale, memory);
    }

    /** Multiplies or divides a nonzero coefficient by the power of ten between the two scales. */
    method Shift(newScale: int, memory: bool) returns (status: Status)
      requires Valid() && IsInt32(newScale) && !isNull && scale != newScale && used != 0
      modifies this, inline
      ensures Valid() && (limbs == old(limbs) || limbs == inline || fresh(limbs))
      ensures status == AllocFail || status == Rescaled(old(Model()), newScale).Code()
      ensures status == AllocFail ==> !memory
      ensures Model() == if status == Ok then Rescaled(old(Model()), newScale).value else old(Model())
    {
      LeadingLimb();
      ghost var n := Model();
      var difference := newScale - scale;
      var temporary := new Decimal();
      if difference > 0 {
        status := temporary.MultiplyPower(this, difference, memory);
      } else {
        status := temporary.DividePower(this, -difference, memory);
      }
      RescaledIsExact(n, newScale);
      if status == Ok { Adopt(temporary, negative, newScale); }
    }

    /** Completes a temporary that holds a coefficient and takes over its contents. */
    method Adopt(temporary: Decimal, newNegative: bool, newScale: int)
      requires temporary != this && temporary.Shape() && inline.Length == INLINE_LIMBS && IsInt32(newScale)
      requires temporary.inline != inline && temporary.limbs != inline
      requires Digits(temporary.Coefficient()) <= MAX_DIGITS
      modifies this, inline, temporary
      ensures Valid() && Model() == Canon(newNegative, old(temporary.Coefficient()), newScale)
      ensures limbs == inline || (limbs == old(temporary.limbs) && limbs != temporary.inline)
    {
      temporary.isNull := false;
      temporary.negative := newNegative;
      temporary.scale := newScale;
      temporary.Trim();
      temporary.LeadingLimb();
      Move(temporary);
    }

    /** Fills a fresh temporary with the coefficient times 10^power. */
    method MultiplyPower(value: Decimal, power: nat, memory: bool) returns (status: Status)
      requires Valid() && value.Valid() && value.used != 0 && value != this
      requires limbs == inline && limbs != value.limbs
      modifies this`limbs, this`capacity, this`used, limbs
      ensures status == AllocFail ||
              status == if power > MAX_DIGITS - Digits(value.Coefficient()) then LimitExceeded else Ok
      ensures status == AllocFail ==> !memory
      ensures Shape() && (limbs == old(limbs) || fresh(limbs))
      ensures status == Ok ==> Coefficient() == Product(value.Coefficient(), Pow10(power))
    {
      var digits := value.DigitCount();
      if power > MAX_DIGITS - digits { return LimitExceeded; }
      var resultDigits := digits + power;
      var count := (resultDigits + LIMB_DIGITS - 1) / LIMB_DIGITS;
      used := 0;
      assert limbs[..used] == [];
      status := Reserve(count, memory);
      if status != Ok { return; }
      ghost var source := value.limbs[..value.used];
      value.LeadingLimb();
      ShiftAndMultiply(limbs, value.limbs, value.used, digits, power);
      assert value.limbs[..value.used] == source;
      used := count;
    }

    /** Fills a fresh temporary with the coefficient divided by 10^power, if that is exact. */
    method DividePower(value: Decimal, power: nat, memory: bool) returns (status: Status)
      requires Valid() && value.Valid() && value.used != 0 && value != this
      requires limbs == inline && limbs != value.limbs
      modifies this`limbs, this`capacity, this`used, limbs
      ensures status == AllocFail ||
              status == if value.Coefficient() % Pow10(power) != 0 then Inexact else Ok
      ensures status == AllocFail ==> !memory
      ensures Shape() && (limbs == old(limbs) || fresh(limbs))
      ensures status == Ok ==> Coefficient() == Quotient(value.Coefficient(), Pow10(power))
    {
      value.LeadingLimb();
      var digits := value.DigitCount();
      LimbDigits(value.limbs[value.used - 1]);
      var divisible := DivisibleByPower(value.limbs, value.used, digits, power);
      if !divisible { return Inexact; }
      var count := value.used - power / LIMB_DIGITS;
      ManyLimbs(value.used, digits);
      used := 0;
      assert limbs[..used] == [];
      status := Reserve(count, memory);
      if status != Ok { return; }
      ShiftAndDivide(limbs, value.limbs, value.used, power);
      used := count;
    }

    /** Copies the first limbs of a buffer into an empty object. */
    method Load(source: array<nat>, n: nat, memory: bool) returns (status: Status)
      requires Shape() && used == 0 && limbs != source && n <= source.Length && n <= MAX_LIMBS
      requires Cells(LIMB_DIGITS, source[..n])
      modifies this`limbs, this`capacity, this`used, limbs
      ensures status == if n > old(capacity) && !memory then AllocFail else Ok
      ensures Shape() && (limbs == old(limbs) || fresh(limbs))
      ensures status == Ok ==> used == n && limbs[..used] == source[..n] == old(source[..n])
    {
      ghost var cells := source[..n];
      status := Reserve(n, memory);
      if status != Ok { return; }
      CopyFirst(limbs, source, n);
      used := n;
    }

    /** A finished temporary holding the first limbs of a buffer. */
    static method Build(source: array<nat>, n: nat, newScale: int, newNegative: bool, memory: bool)
      returns (status: Status, temporary: Decimal)
      requires n <= source.Length && n <= MAX_LIMBS && IsInt32(newScale)
      requires Cells(LIMB_DIGITS, source[..n]) && (n > 0 ==> source[n - 1] != 0)
      ensures fresh(temporary) && fresh(temporary.inline) && fresh(temporary.limbs)
      ensures status == if n > INLINE_LIMBS && !memory then AllocFail
                        else if Digits(LimbValue(source[..n])) > MAX_DIGITS then LimitExceeded else Ok
      ensures status == Ok ==>
                temporary.Valid() && temporary.Model() == Canon(newNegative, LimbValue(source[..n]), newScale)
    {
      temporary := new Decimal();
      status := temporary.Load(source, n, memory);
      if status != Ok { return; }
      temporary.scale := newScale;
      temporary.negative := n != 0 && newNegative;
      temporary.isNull := false;
      temporary.LeadingLimb();
      var digits := temporary.DigitCount();
      if digits > MAX_DIGITS { status := LimitExceeded; }
    }
  }

  /** What importing a coefficient yields; the sign of zero is dropped. */
  function Import(limbs: seq<nat>, scale: int, negative: bool): Result<Number>
  {
    if |limbs| > MAX_LIMBS then Bad(LimitExceeded)
    else if !CellsInRange(limbs) then Bad(InvalidArgument)
    else if Digits(LimbValue(limbs)) > MAX_DIGITS then Bad(LimitExceeded)
    else Good(Canon(negative, LimbValue(limbs), scale))
  }

  predicate CellsInRange(limbs: seq<nat>) {
    forall i :: 0 <= i < |limbs| ==> limbs[i] < LIMB_BASE
  }

  function Canon(negative: bool, coefficient: nat, scale: int): Number {
    Num(negative && coefficient != 0, coefficient, scale)
  }
}
