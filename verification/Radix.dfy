/** Powers of ten, decimal digit counts and positional values, over unbounded naturals.
    Everything numerical in the project is stated against these definitions. */
module Radix {

  function Pow10(n: nat): (p: nat)
    ensures p > 0
  {
    if n == 0 then 1 else 10 * Pow10(n - 1)
  }

  lemma {:induction false} PowAdd(m: nat, n: nat)
    ensures Pow10(m + n) == Pow10(m) * Pow10(n)
  {
    if m > 0 {
      PowAdd(m - 1, n);
      assert Pow10(m) * Pow10(n) == 10 * (Pow10(m - 1) * Pow10(n));
    }
  }

  lemma PowSub(m: nat, n: nat)
    requires n <= m
    ensures Pow10(m) == Pow10(n) * Pow10(m - n)
  {
    PowAdd(n, m - n);
  }

  lemma {:induction false} PowMono(m: nat, n: nat)
    requires m <= n
    ensures Pow10(m) <= Pow10(n)
  {
    if m < n { PowMono(m, n - 1); }
  }

  // ---- Division -------------------------------------------------------------------------

  lemma Commute(a: int, b: int)
    ensures a * b == b * a
  {
  }

  lemma Distribute(a: int, b: int, k: int)
    ensures (a + b) * k == a * k + b * k
  {
  }

  lemma DistributeLeft(k: int, a: int, b: int)
    ensures k * (a + b) == k * a + k * b
  {
  }

  lemma Associate(a: int, b: int, c: int)
    ensures a * (b * c) == a * b * c
  {
  }

  lemma MulLe(a: int, b: int, k: int)
    requires k >= 0 && a <= b
    ensures a * k <= b * k
  {
  }

  lemma MulLt(a: int, b: int, k: int)
    requires k > 0 && a < b
    ensures a * k < b * k
  {
  }

  lemma DivModUnique(x: int, b: int, q: int, r: int)
    requires 0 <= r < b && x == q * b + r
    ensures x / b == q && x % b == r
  {
    var q' := x / b;
    assert x == b * q' + x % b;
    Commute(b, q');
    if q' > q { MulLe(q + 1, q', b); Distribute(q, 1, b); }
    if q' < q { MulLe(q' + 1, q, b); Distribute(q', 1, b); }
  }

  lemma DivModSum(r: int, b: int, q: int)
    requires 0 <= r < b
    ensures (r + b * q) / b == q && (r + b * q) % b == r
  {
    Commute(b, q);
    DivModUnique(r + b * q, b, q, r);
  }

  lemma DivDiv(x: nat, a: nat, b: nat)
    requires a > 0 && b > 0
    ensures a * b > 0 && x / (a * b) == x / a / b
    ensures x % (a * b) == x / a % b * a + x % a
  {
    MulLt(0, a, b);
    var q, r := x / a, x % a;
    var q2, r2 := q / b, q % b;
    DivModWhole(x, a);
    DivModWhole(q, b);
    Distribute(q2 * b, r2, a);
    Associate(q2, b, a);
    Commute(b, a);
    MulLe(r2 + 1, b, a);
    Distribute(r2, 1, a);
    DivModUnique(x, a * b, q2, r2 * a + r);
  }

  lemma DivModWhole(x: int, b: int)
    requires b > 0
    ensures x == x / b * b + x % b && 0 <= x % b < b
  {
    Commute(b, x / b);
  }

  lemma MulDivCancel(q: int, b: int)
    requires b > 0
    ensures q * b / b == q && q * b % b == 0
  {
    DivModUnique(q * b, b, q, 0);
  }

  // ---- Decimal digits -------------------------------------------------------------------

  /** Number of decimal digits; zero is written with one digit. */
  function Digits(c: nat): (d: nat)
    ensures d >= 1
  {
    if c < 10 then 1 else 1 + Digits(c / 10)
  }

  /** The digit of weight 10^k. */
  function DigitAt(c: nat, k: nat): nat
  {
    c / Pow10(k) % 10
  }

  lemma {:induction false} DigitsBounds(c: nat)
    ensures c < Pow10(Digits(c))
    ensures c > 0 ==> Pow10(Digits(c) - 1) <= c
  {
    if c >= 10 { DigitsBounds(c / 10); }
  }

  /** A number has d digits exactly when it lies between two consecutive powers of ten. */
  lemma DigitsUnique(c: nat, d: nat)
    requires d >= 1 && c < Pow10(d) && (d > 1 ==> Pow10(d - 1) <= c)
    ensures Digits(c) == d
  {
    DigitsBounds(c);
    var e := Digits(c);
    if e < d { PowMono(e, d - 1); }
    if d < e { PowMono(d, e - 1); }
  }

  lemma DigitsWithin(c: nat, e: nat)
    requires e >= 1
    ensures Digits(c) <= e <==> c < Pow10(e)
  {
    DigitsBounds(c);
    if Digits(c) <= e { PowMono(Digits(c), e); } else { PowMono(e, Digits(c) - 1); }
  }

  lemma DigitsOfShift(c: nat, k: nat)
    requires c > 0
    ensures c * Pow10(k) > 0
    ensures Digits(c * Pow10(k)) == Digits(c) + k
  {
    var d := Digits(c);
    DigitsBounds(c);
    PowAdd(d, k);
    PowAdd(d - 1, k);
    MulLe(Pow10(d - 1), c, Pow10(k));
    MulLt(c, Pow10(d), Pow10(k));
    MulLt(0, c, Pow10(k));
    DigitsUnique(c * Pow10(k), d + k);
  }

  /** Number of decimal zeros a positive number ends in. */
  function TrailingZeros(c: nat): nat
    requires c > 0
  {
    if c % 10 == 0 then 1 + TrailingZeros(c / 10) else 0
  }

  /** 10^k divides c exactly when c ends in at least k zeros. */
  lemma {:induction false} TrailingZerosDivides(c: nat, k: nat)
    requires c > 0
    ensures c % Pow10(k) == 0 <==> k <= TrailingZeros(c)
  {
    if k > 0 {
      DivDiv(c, 10, Pow10(k - 1));
      if c % 10 == 0 { TrailingZerosDivides(c / 10, k - 1); }
    }
  }

  /** Going down one digit extends the leading part by that digit. */
  lemma DigitStep(c: nat, k: nat)
    ensures c / Pow10(k) == 10 * (c / Pow10(k + 1)) + DigitAt(c, k)
    ensures c % Pow10(k + 1) == DigitAt(c, k) * Pow10(k) + c % Pow10(k)
  {
    DivDiv(c, Pow10(k), 10);
    Commute(Pow10(k), 10);
    assert Pow10(k + 1) == Pow10(k) * 10;
    DivModWhole(c / Pow10(k), 10);
  }

  /** Shifting by k digits appends k zeros. */
  lemma DigitOfShifted(c: nat, k: nat, j: nat)
    ensures c * Pow10(k) >= 0
    ensures DigitAt(c * Pow10(k), j) == if j >= k then DigitAt(c, j - k) else 0
  {
    MulLe(0, c, Pow10(k));
    if j >= k {
      PowSub(j, k);
      ShiftOut(c, Pow10(k), Pow10(j - k));
    } else {
      ZeroBelow(c, k, j);
    }
  }

  lemma ShiftOut(c: nat, a: nat, b: nat)
    requires a > 0 && b > 0
    ensures a * b > 0 && c * a / (a * b) == c / b
  {
    MulLe(0, c, a);
    MulDivCancel(c, a);
    DivDiv(c * a, a, b);
  }

  lemma ZeroBelow(c: nat, k: nat, j: nat)
    requires j < k
    ensures c * Pow10(k) >= 0 && DigitAt(c * Pow10(k), j) == 0
  {
    Commute(c, Pow10(k));
    DigitBelow(k, 0, c, j);
    DivModUnique(0, Pow10(j), 0, 0);
  }

  lemma LeadingOrder(a: nat, b: nat, p: nat)
    requires p > 0 && a / p < b / p
    ensures a < b
  {
    DivModWhole(a, p);
    DivModWhole(b, p);
    MulLe(a / p + 1, b / p, p);
    Distribute(a / p, 1, p);
  }

  /** The digits of weight 10^k and above are the same. */
  predicate AgreeAbove(a: nat, b: nat, k: nat) {
    a / Pow10(k) == b / Pow10(k)
  }

  /** Where all higher digits agree, the next digit decides the order, or agrees too. */
  lemma NextDigitDecides(a: nat, b: nat, k: nat)
    requires AgreeAbove(a, b, k + 1)
    ensures DigitAt(a, k) == DigitAt(b, k) ==> AgreeAbove(a, b, k)
    ensures DigitAt(a, k) < DigitAt(b, k) ==> a < b
    ensures DigitAt(a, k) > DigitAt(b, k) ==> a > b
  {
    DigitStep(a, k);
    DigitStep(b, k);
    if DigitAt(a, k) < DigitAt(b, k) { LeadingOrder(a, b, Pow10(k)); }
    if DigitAt(a, k) > DigitAt(b, k) { LeadingOrder(b, a, Pow10(k)); }
  }

  lemma SameLeading(a: nat, b: nat)
    requires AgreeAbove(a, b, 0)
    ensures a == b
  {
  }

  lemma WholeNumber(a: nat)
    ensures a / Pow10(0) == a
  {
  }

  // ---- Positional values ----------------------------------------------------------------

  /** Value of cells of w decimal digits each, least significant first. */
  function Value(w: nat, cells: seq<nat>): (v: nat)
  {
    if cells == [] then 0 else cells[0] + Pow10(w) * Value(w, cells[1..])
  }

  ghost predicate Cells(w: nat, cells: seq<nat>)
  {
    forall i :: 0 <= i < |cells| ==> cells[i] < Pow10(w)
  }

  /** Weight of the i-th cell. */
  function Unit(w: nat, i: nat): (p: nat)
    ensures p > 0
  {
    if i == 0 then 1 else Pow10(w) * Unit(w, i - 1)
  }

  lemma {:induction false} UnitIsPow(w: nat, i: nat)
    ensures w * i >= 0 && Unit(w, i) == Pow10(w * i)
  {
    if i > 0 {
      UnitIsPow(w, i - 1);
      DistributeLeft(w, i - 1, 1);
      PowAdd(w, w * (i - 1));
    }
  }

  lemma {:induction false} ValueAppend(w: nat, low: seq<nat>, high: seq<nat>)
    ensures Value(w, low + high) == Value(w, low) + Unit(w, |low|) * Value(w, high)
  {
    if low == [] {
      assert low + high == high;
    } else {
      ValueAppend(w, low[1..], high);
      assert (low + high)[1..] == low[1..] + high;
      var n := |low| - 1;
      var v := Value(w, high);
      DistributeLeft(Pow10(w), Value(w, low[1..]), Unit(w, n) * v);
      Associate(Pow10(w), Unit(w, n), v);
    }
  }

  lemma ValueSnoc(w: nat, low: seq<nat>, top: nat)
    ensures Value(w, low + [top]) == Value(w, low) + Unit(w, |low|) * top
  {
    ValueAppend(w, low, [top]);
    assert [top][1..] == [];
    assert Value(w, [top]) == top;
  }

  lemma {:induction false} ValueBound(w: nat, cells: seq<nat>)
    requires Cells(w, cells)
    ensures Value(w, cells) < Unit(w, |cells|)
  {
    if cells != [] {
      ValueBound(w, cells[1..]);
      var v := Value(w, cells[1..]);
      DistributeLeft(Pow10(w), v, 1);
      Commute(Pow10(w), v + 1);
      Commute(Pow10(w), Unit(w, |cells| - 1));
      MulLe(v + 1, Unit(w, |cells| - 1), Pow10(w));
    }
  }

  /** Dividing by the weight of a cell boundary drops exactly the cells below it. */
  lemma ValueSplit(w: nat, cells: seq<nat>, i: nat)
    requires i <= |cells| && Cells(w, cells)
    ensures Value(w, cells) / Unit(w, i) == Value(w, cells[i..])
    ensures Value(w, cells) % Unit(w, i) == Value(w, cells[..i])
  {
    assert cells == cells[..i] + cells[i..];
    ValueAppend(w, cells[..i], cells[i..]);
    ValueBound(w, cells[..i]);
    DivModSum(Value(w, cells[..i]), Unit(w, i), Value(w, cells[i..]));
  }

  /** Reading a digit out of one cell reads the digit of the whole number. */
  lemma DigitOfCell(w: nat, cells: seq<nat>, i: nat, j: nat, k: nat)
    requires j < w && i < |cells| && Cells(w, cells) && k == w * i + j
    ensures DigitAt(Value(w, cells), k) == DigitAt(cells[i], j)
  {
    UnitIsPow(w, i);
    PowAdd(w * i, j);
    ValueSplit(w, cells, i);
    DivDiv(Value(w, cells), Unit(w, i), Pow10(j));
    assert cells[i..] == [cells[i]] + cells[i + 1..];
    assert Value(w, cells[i..]) == cells[i] + Pow10(w) * Value(w, cells[i + 1..]);
    DigitBelow(w, cells[i], Value(w, cells[i + 1..]), j);
  }

  lemma DigitBelow(w: nat, cell: nat, rest: nat, j: nat)
    requires j < w
    ensures DigitAt(cell + Pow10(w) * rest, j) == DigitAt(cell, j)
  {
    var half := Pow10(w - j - 1) * rest;
    DigitShift(w, j, rest, half);
    DigitKept(cell, Pow10(j), half);
  }

  lemma DigitKept(x: nat, b: nat, half: nat)
    requires b > 0
    ensures b * (10 * half) >= 0
    ensures (x + b * (10 * half)) / b % 10 == x / b % 10
  {
    DivAddMultiple(x, b, 10 * half);
    assert (x / b + 10 * half) % 10 == x / b % 10;
  }

  lemma DivAddMultiple(x: nat, b: nat, k: nat)
    requires b > 0
    ensures (x + b * k) / b == x / b + k && (x + b * k) % b == x % b
  {
    var q, r := x / b, x % b;
    DistributeLeft(b, q, k);
    DivModSum(r, b, q + k);
  }

  lemma DigitShift(w: nat, j: nat, rest: nat, half: nat)
    requires j < w && half == Pow10(w - j - 1) * rest
    ensures Pow10(w) * rest == Pow10(j) * (10 * half)
  {
    PowSub(w, j);
    Associate(Pow10(j), Pow10(w - j), rest);
    Associate(10, Pow10(w - j - 1), rest);
  }

  /** Only zero cells have value zero. */
  lemma {:induction false} ValueZero(w: nat, cells: seq<nat>)
    ensures Value(w, cells) == 0 <==> forall i :: 0 <= i < |cells| ==> cells[i] == 0
  {
    if cells != [] {
      ValueZero(w, cells[1..]);
      if Value(w, cells[1..]) > 0 { MulLe(1, Value(w, cells[1..]), Pow10(w)); }
      assert cells == [cells[0]] + cells[1..];
      assert forall i :: 0 < i < |cells| ==> cells[i] == cells[1..][i - 1];
    }
  }

  lemma TopCell(low: nat, top: nat, p: nat, least: nat, limit: nat)
    requires low < p && least <= top < limit
    ensures least * p <= low + p * top < limit * p
  {
    MulLe(least, top, p);
    MulLe(top + 1, limit, p);
    Distribute(top, 1, p);
    Commute(p, top);
  }

  /** A number whose top cell is not zero has the digits of that cell plus w for every lower one. */
  lemma DigitsOfCells(w: nat, low: seq<nat>, top: nat)
    requires Cells(w, low) && 0 < top
    ensures Value(w, low + [top]) > 0
    ensures Digits(Value(w, low + [top])) == w * |low| + Digits(top)
  {
    var d := Digits(top);
    var v := Value(w, low + [top]);
    ValueSnoc(w, low, top);
    ValueBound(w, low);
    DigitsBounds(top);
    UnitIsPow(w, |low|);
    var n := w * |low|;
    PowAdd(d, n);
    PowAdd(d - 1, n);
    TopCell(Value(w, low), top, Pow10(n), Pow10(d - 1), Pow10(d));
    DigitsUnique(v, n + d);
  }
}
