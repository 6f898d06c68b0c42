/** Base-100 groups, most significant first, as DECIMAL, DATETIME and INTERVAL payloads carry them,
    and the radix complement of src/sqli_base100.h and src/sqli_result.c:88-98. */
module Base100 {
  import opened Status
  import opened Radix

  function Pow100(n: nat): (p: nat)
    ensures p > 0
  {
    Pow10(2 * n)
  }

  lemma Pow100Step(n: nat)
    ensures Pow100(n + 1) == 100 * Pow100(n)
  {
    assert Pow10(2 * n + 2) == 10 * Pow10(2 * n + 1);
  }

  /** Number denoted by the groups in a range. */
  function GroupsValue(g: seq<byte>, from: nat, to: nat): nat
    requires to <= |g|
  {
    if to <= from then 0 else 100 * GroupsValue(g, from, to - 1) + g[to - 1]
  }

  predicate AreGroups(g: seq<byte>) {
    forall i :: 0 <= i < |g| ==> g[i] < 100
  }

  function Number(g: seq<byte>): nat {
    GroupsValue(g, 0, |g|)
  }

  lemma {:induction false} ValueBelow(g: seq<byte>, from: nat, to: nat)
    requires from <= to <= |g| && forall i :: from <= i < to ==> g[i] < 100
    ensures GroupsValue(g, from, to) < Pow100(to - from)
  {
    if from < to {
      ValueBelow(g, from, to - 1);
      Pow100Step(to - 1 - from);
    }
  }

  lemma {:induction false} ValueSplits(g: seq<byte>, from: nat, mid: nat, to: nat)
    requires from <= mid <= to <= |g|
    ensures GroupsValue(g, from, mid) * Pow100(to - mid) >= 0
    ensures GroupsValue(g, from, to) == GroupsValue(g, from, mid) * Pow100(to - mid) + GroupsValue(g, mid, to)
  {
    MulLe(0, GroupsValue(g, from, mid), Pow100(to - mid));
    if mid < to {
      ValueSplits(g, from, mid, to - 1);
      Pow100Step(to - 1 - mid);
      Scale(GroupsValue(g, from, mid), Pow100(to - 1 - mid), 100);
    }
  }

  lemma Scale(a: int, p: int, k: int)
    ensures k * (a * p) == a * (k * p)
  {
    Associate(k, a, p);
    Commute(k, a);
    Associate(a, k, p);
  }

  /** Only the groups inside the range matter. */
  lemma {:induction false} ValueFrame(g: seq<byte>, h: seq<byte>, from: nat, to: nat)
    requires to <= |g| && to <= |h| && forall i :: from <= i < to ==> g[i] == h[i]
    ensures GroupsValue(g, from, to) == GroupsValue(h, from, to)
  {
    if from < to { ValueFrame(g, h, from, to - 1); }
  }

  /** The same groups stand in another sequence, moved. */
  lemma {:induction false} ValueMoved(g: seq<byte>, from: nat, to: nat, h: seq<byte>, at: nat)
    requires from <= to <= |g| && at + (to - from) <= |h|
    requires forall i :: from <= i < to ==> g[i] == h[at + (i - from)]
    ensures GroupsValue(g, from, to) == GroupsValue(h, at, at + (to - from))
  {
    if from < to {
      ValueMoved(g, from, to - 1, h, at);
      assert g[to - 1] == h[at + (to - 1 - from)];
    }
  }

  lemma {:induction false} ValueZeros(g: seq<byte>, from: nat, to: nat)
    requires to <= |g|
    ensures GroupsValue(g, from, to) == 0 <==> forall i :: from <= i < to ==> g[i] == 0
  {
    if from < to { ValueZeros(g, from, to - 1); }
  }

  /** Equal numbers written in equally many groups have equal groups. */
  lemma {:induction false} ValueDetermines(g: seq<byte>, h: seq<byte>, from: nat, to: nat)
    requires to <= |g| && to <= |h|
    requires forall i :: from <= i < to ==> g[i] < 100 && h[i] < 100
    requires GroupsValue(g, from, to) == GroupsValue(h, from, to)
    ensures forall i :: from <= i < to ==> g[i] == h[i]
  {
    if from < to { ValueDetermines(g, h, from, to - 1); }
  }

  lemma SameNumber(g: seq<byte>, h: seq<byte>)
    requires AreGroups(g) && AreGroups(h) && |g| == |h| && Number(g) == Number(h)
    ensures g == h
  {
    ValueDetermines(g, h, 0, |g|);
  }

  /** The groups of a number. */
  function GroupsOf(n: nat, v: nat): (g: seq<byte>)
    ensures |g| == n && AreGroups(g)
  {
    if n == 0 then [] else GroupsOf(n - 1, v / 100) + [v % 100]
  }

  lemma {:induction false} GroupsOfValue(n: nat, v: nat)
    requires v < Pow100(n)
    ensures Number(GroupsOf(n, v)) == v
  {
    if n > 0 {
      Pow100Step(n - 1);
      GroupsOfValue(n - 1, v / 100);
      ValueFrame(GroupsOf(n, v), GroupsOf(n - 1, v / 100), 0, n - 1);
    }
  }

  lemma NumberBelow(g: seq<byte>)
    requires AreGroups(g)
    ensures Number(g) < Pow100(|g|)
    ensures GroupsOf(|g|, Number(g)) == g
  {
    ValueBelow(g, 0, |g|);
    GroupsOfValue(|g|, Number(g));
    SameNumber(GroupsOf(|g|, Number(g)), g);
  }

  // ---- The radix complement -----------------------------------------------------------------

  function Negated(v: nat, modulus: nat): nat
    requires v < modulus
  {
    if v == 0 then 0 else modulus - v
  }

  /** Negation modulo 100^n. */
  function Complement(g: seq<byte>): (r: seq<byte>)
    requires AreGroups(g)
    ensures AreGroups(r) && |r| == |g|
  {
    NumberBelow(g);
    GroupsOf(|g|, Negated(Number(g), Pow100(|g|)))
  }

  /** The two numbers add up to zero modulo 100^n; zero is its own complement. */
  lemma ComplementValue(g: seq<byte>)
    requires AreGroups(g)
    ensures (Number(g) + Number(Complement(g))) % Pow100(|g|) == 0
    ensures Number(Complement(g)) == 0 <==> Number(g) == 0
  {
    NumberBelow(g);
    GroupsOfValue(|g|, Negated(Number(g), Pow100(|g|)));
    WholeTurn(Number(g), Pow100(|g|));
  }

  lemma WholeTurn(v: nat, p: nat)
    requires v < p
    ensures (v + Negated(v, p)) % p == 0
  {
    DivModUnique(p, p, 1, 0);
    DivModUnique(0, p, 0, 0);
  }

  lemma ComplementInvolutive(g: seq<byte>)
    requires AreGroups(g)
    ensures Complement(Complement(g)) == g
  {
    var p := Pow100(|g|);
    NumberBelow(g);
    GroupsOfValue(|g|, Negated(Number(g), p));
    assert Negated(Negated(Number(g), p), p) == Number(g);
  }

  /** Groups are the complement as soon as the sum is zero or a full turn. */
  lemma IsComplement(g: seq<byte>, r: seq<byte>)
    requires AreGroups(g) && AreGroups(r) && |g| == |r| && Number(g) < Pow100(|g|)
    requires Number(r) == Negated(Number(g), Pow100(|g|))
    ensures r == Complement(g)
  {
    GroupsOfValue(|g|, Number(r));
    SameNumber(r, GroupsOf(|g|, Number(r)));
  }

  /** Complements the groups of a span, from the last one back, carrying into the group before. */
  method RadixComplement(a: array<byte>, from: nat, to: nat)
    requires from <= to <= a.Length && AreGroups(a[from..to])
    modifies a
    ensures a[..from] == old(a[..from]) && a[to..] == old(a[to..])
    ensures a[from..to] == Complement(old(a[from..to]))
  {
    var carry: nat := 1;
    var k := to;
    ghost var was := a[..];
    assert forall i :: from <= i < to ==> was[i] == a[from..to][i - from];
    while k != from
      invariant from <= k <= to && carry <= 1
      invariant forall i :: 0 <= i < a.Length && !(k <= i < to) ==> a[i] == was[i]
      invariant forall i :: from <= i < to ==> a[i] < 100
      invariant Carried(was, a[..], k, to, carry)
    {
      k := k - 1;
      ghost var before := a[..];
      var digit := 99 - a[k] + carry;
      a[k] := digit % 100;
      CarryStep(was, before, a[..], k, to, carry);
      carry := digit / 100;
    }
    Complemented(was, a[..], from, to, carry);
    Outside(was, a[..], from, to);
  }

  lemma Outside(was: seq<byte>, now: seq<byte>, from: nat, to: nat)
    requires from <= to <= |was| == |now| && forall i :: 0 <= i < |was| && !(from <= i < to) ==> now[i] == was[i]
    ensures now[..from] == was[..from] && now[to..] == was[to..]
  {
  }

  /** From k on the complement is done, up to a carry still to be added. */
  ghost predicate Carried(was: seq<byte>, now: seq<byte>, k: nat, to: nat, carry: nat)
    requires k <= to <= |was| == |now|
  {
    carry <= 1 &&
    GroupsValue(now, k, to) + (if carry == 1 then Pow100(to - k) else 0)
    == Pow100(to - k) - GroupsValue(was, k, to)
  }

  lemma CarryStep(was: seq<byte>, before: seq<byte>, now: seq<byte>, k: nat, to: nat, carry: nat)
    requires k < to <= |was| && |was| == |before| == |now| && was[k] < 100 && carry <= 1
    requires now == before[k := (99 - was[k] + carry) % 100]
    requires Carried(was, before, k + 1, to, carry)
    ensures Carried(was, now, k, to, (99 - was[k] + carry) / 100)
  {
    var p := Pow100(to - k - 1);
    ValueFrame(before, now, k + 1, to);
    ValueSplits(now, k, k + 1, to);
    ValueSplits(was, k, k + 1, to);
    assert GroupsValue(now, k, k + 1) == now[k] && GroupsValue(was, k, k + 1) == was[k];
    Pow100Step(to - k - 1);
    CarryDigit(was[k], now[k], carry, p);
  }

  lemma CarryDigit(was: nat, now: nat, carry: nat, p: nat)
    requires was < 100 && carry <= 1 && now == (99 - was + carry) % 100
    ensures now * p + was * p
            == 99 * p + (if carry == 1 then p else 0) - (if (99 - was + carry) / 100 == 1 then 100 * p else 0)
    ensures (99 - was + carry) / 100 <= 1
  {
    Distribute(now, was, p);
    if carry == 1 && was == 0 { assert now + was == 0; }
    else { assert now + was == 99 + carry; }
  }

  lemma Complemented(was: seq<byte>, now: seq<byte>, from: nat, to: nat, carry: nat)
    requires from <= to <= |was| == |now| && Carried(was, now, from, to, carry)
    requires forall i :: from <= i < to ==> was[i] < 100 && now[i] < 100
    ensures now[from..to] == Complement(was[from..to])
  {
    var g, r := was[from..to], now[from..to];
    ValueMoved(was, from, to, g, 0);
    ValueMoved(now, from, to, r, 0);
    ValueBelow(r, 0, |r|);
    NumberBelow(g);
    IsComplement(g, r);
  }

  /** The second form in use: leave trailing zero groups, take the next from 100 and all others from 99. */
  method DigitComplement(a: array<byte>, count: nat)
    requires count <= a.Length && AreGroups(a[..count])
    modifies a
    ensures a[count..] == old(a[count..])
    ensures a[..count] == Complement(old(a[..count]))
  {
    var digit := 100;
    ghost var was := a[..];
    assert forall i :: 0 <= i < count ==> was[i] == a[..count][i];
    for i := count downto 0
      invariant digit == 100 || digit == 99
      invariant forall j :: 0 <= j < a.Length && !(i <= j < count) ==> a[j] == was[j]
      invariant forall j :: 0 <= j < count ==> a[j] < 100
      invariant digit == 100 ==> forall j :: i <= j < count ==> was[j] == 0 && a[j] == 0
      invariant digit == 99 ==> Carried(was, a[..], i, count, 0)
    {
      if a[i] != 0 || digit != 100 {
        ghost var before := a[..];
        if digit == 100 { ZerosCarry(was, before, i + 1, count); }
        a[i] := digit - a[i];
        CarryStep(was, before, a[..], i, count, digit - 99);
        digit := 99;
      }
    }
    if digit == 100 { ZerosCarry(was, a[..], 0, count); }
    Complemented(was, a[..], 0, count, digit - 99);
    assert a[..count] == a[0..count] && was[..count] == was[0..count];
  }

  lemma ZerosCarry(was: seq<byte>, now: seq<byte>, k: nat, to: nat)
    requires k <= to <= |was| == |now| && forall j :: k <= j < to ==> was[j] == 0 && now[j] == 0
    ensures Carried(was, now, k, to, 1)
  {
    ValueZeros(was, k, to);
    ValueZeros(now, k, to);
  }
}
