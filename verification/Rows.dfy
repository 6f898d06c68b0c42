/** Received tuples and the cursor over them (src/sqli_dispatch.c:733-816, src/sqli_result.c:285-545 and
    621-676, 901-991): one growing arena that holds all payloads, row pointers into it, and a cursor. */
module Rows {
  import opened Status
  import opened Transport
  import opened Columns

  const MAX_TUPLE: nat := 64 * 1024 * 1024
  const SIZE_MAX: nat := 0xFFFF_FFFF_FFFF_FFFF
  const UINT32_MAX: nat := 0xFFFF_FFFF

  /** Payload size in the header of a tuple message. */
  function TupleSize(s: seq<byte>): nat
    requires |s| >= 6
  {
    Be32(s[2..6])
  }

  /** What receiving a tuple message comes to: it is complete, too large, or cut off. */
  function TupleStatus(s: seq<byte>): Status {
    if |s| < 6 then IoError
    else if TupleSize(s) > MAX_TUPLE then ProtoError
    else if 6 + TupleSize(s) + TupleSize(s) % 2 > |s| then IoError
    else Ok
  }

  // ---- Where columns lie in a tuple ------------------------------------------------------------

  /** The places of all columns from the i-th on, one behind the other. */
  function Layout(columns: seq<Column>, i: nat, tuple: seq<byte>, offset: nat): (r: Result<seq<Place>>)
    requires i <= |columns|
    ensures r.Good? ==> |r.value| == |columns| - i
    ensures r.Bad? ==> r.status in {ProtoError, LimitExceeded}
    decreases |columns| - i
  {
    if i == |columns| then Good([])
    else if offset > UINT32_MAX then Bad(LimitExceeded)
    else if offset >= |tuple| then Bad(ProtoError)
    else match Locate(columns[i], tuple, offset)
      case Bad(e) => Bad(e)
      case Good(place) =>
        match Layout(columns, i + 1, tuple, offset + place.span)
        case Bad(e) => Bad(e)
        case Good(rest) => Good([place] + rest)
  }

  /** The offset of a column passes 32 bits only in a tuple longer than any that is received. */
  lemma {:induction false} OffsetsFit(columns: seq<Column>, i: nat, tuple: seq<byte>, offset: nat)
    requires i <= |columns| && offset <= |tuple| <= MAX_TUPLE
    ensures Layout(columns, i, tuple, offset) != Bad(LimitExceeded)
    decreases |columns| - i
  {
    if i < |columns| && offset < |tuple| && Locate(columns[i], tuple, offset).Good? {
      OffsetsFit(columns, i + 1, tuple, offset + Locate(columns[i], tuple, offset).value.span);
    }
  }

  /** Column data lies inside the tuple, in column order, and no two columns overlap. */
  lemma {:induction false} LayoutIsDisjoint(columns: seq<Column>, i: nat, tuple: seq<byte>, offset: nat)
    requires i <= |columns| && Layout(columns, i, tuple, offset).Good?
    ensures var places := Layout(columns, i, tuple, offset).value;
            && (forall j :: 0 <= j < |places| ==>
                  offset <= places[j].start && places[j].start + places[j].length <= |tuple|)
            && (forall j, k :: 0 <= j < k < |places| ==> places[j].start + places[j].length <= places[k].start)
    decreases |columns| - i
  {
    if i < |columns| {
      var place := Locate(columns[i], tuple, offset).value;
      LayoutIsDisjoint(columns, i + 1, tuple, offset + place.span);
    }
  }

  function Prepend(places: seq<Place>, r: Result<seq<Place>>): Result<seq<Place>> {
    match r
    case Bad(e) => Bad(e)
    case Good(rest) => Good(places + rest)
  }

  /** Places found so far, with the columns from i on still to be located. */
  ghost predicate LaidOut(columns: seq<Column>, tuple: seq<byte>, places: seq<Place>, i: nat, offset: nat) {
    i <= |columns| && Layout(columns, 0, tuple, 0) == Prepend(places, Layout(columns, i, tuple, offset))
  }

  lemma NothingLaidOut(columns: seq<Column>, tuple: seq<byte>)
    ensures LaidOut(columns, tuple, [], 0, 0)
  {
    var r := Layout(columns, 0, tuple, 0);
    if r.Good? { assert [] + r.value == r.value; }
  }

  lemma NextLaidOut(columns: seq<Column>, tuple: seq<byte>, places: seq<Place>, i: nat, offset: nat)
    requires i < |columns| && LaidOut(columns, tuple, places, i, offset) && offset < |tuple| && offset <= UINT32_MAX
    requires Locate(columns[i], tuple, offset).Good?
    ensures var place := Locate(columns[i], tuple, offset).value;
            LaidOut(columns, tuple, places + [place], i + 1, offset + place.span)
  {
    var place := Locate(columns[i], tuple, offset).value;
    var rest := Layout(columns, i + 1, tuple, offset + place.span);
    if rest.Good? { assert places + ([place] + rest.value) == (places + [place]) + rest.value; }
  }

  /** Whether the column at a place is SQL NULL. */
  predicate Mark(column: Column, tuple: seq<byte>, p: Place) {
    var offset := p.start + p.length - p.span;
    offset >= 0 && Inside(p, tuple, offset) && IsNull(column, tuple, offset, p)
  }

  function NullMarks(columns: seq<Column>, tuple: seq<byte>, places: seq<Place>): seq<bool>
    requires |places| <= |columns|
  {
    seq(|places|, i requires 0 <= i < |places| => Mark(columns[i], tuple, places[i]))
  }

  method PrepareColumn(column: Column, tuple: seq<byte>, offset: nat) returns (place: Result<Place>, isNull: bool)
    requires offset < |tuple|
    ensures place == Locate(column, tuple, offset)
    ensures place.Good? ==> isNull == Mark(column, tuple, place.value)
  {
    isNull := false;
    place := Locate(column, tuple, offset);
    if place.Good? { isNull := MarkNull(column, tuple, offset, place.value); }
  }

  /** Locates the columns of a tuple one behind the other and marks the NULL ones. The arrays for this are
      allocated unless they exist. */
  method PrepareRow(columns: seq<Column>, tuple: seq<byte>, memory: bool)
    returns (status: Status, places: seq<Place>, nulls: seq<bool>)
    ensures status == RowStatus(columns, tuple, memory)
    ensures status == Ok ==>
              && Layout(columns, 0, tuple, 0) == Good(places) && |places| == |columns|
              && nulls == NullMarks(columns, tuple, places)
  {
    places, nulls := [], [];
    if |columns| == 0 { return InvalidState, [], []; }
    if !memory { return AllocFail, [], []; }
    var offset: nat := 0;
    NothingLaidOut(columns, tuple);
    for i := 0 to |columns|
      invariant LaidOut(columns, tuple, places, i, offset)
      invariant |places| == i && nulls == NullMarks(columns, tuple, places)
    {
      if offset > UINT32_MAX { return LimitExceeded, places, nulls; }
      if offset >= |tuple| { return ProtoError, places, nulls; }
      var place, isNull := PrepareColumn(columns[i], tuple, offset);
      if place.Bad? { return ProtoError, places, nulls; }
      NextLaidOut(columns, tuple, places, i, offset);
      places, nulls := places + [place.value], nulls + [isNull];
      offset := offset + place.value.span;
    }
    assert places + [] == places;
    status := Ok;
  }

  /** What fetching does with a row: INVALID_STATE without columns, ALLOC_FAIL without memory for their places,
      else as its layout says. */
  function RowStatus(columns: seq<Column>, tuple: seq<byte>, memory: bool): Status {
    if columns == [] then InvalidState
    else if !memory then AllocFail
    else Layout(columns, 0, tuple, 0).Code()
  }

  // ---- Growing the row tables ------------------------------------------------------------------

  /** Which of the allocations for a tuple succeed: of the arena, of row addresses, of row lengths. */
  datatype Memory = Memory(arena: bool, addresses: bool, lengths: bool)

  const ENOUGH: Memory := Memory(true, true, true)

  /** Most rows the tables can hold before doubling their capacity overflows. */
  const MAX_ROWS: nat := 0x4000_0000

  /** The k-th capacity after doubling. */
  function Doubled(k: nat): nat {
    if k == 0 then 4 else 2 * Doubled(k - 1)
  }

  predicate IsCapacity(capacity: nat) {
    capacity == 0 || exists k: nat :: k <= 28 && capacity == Doubled(k)
  }

  lemma DoubledBounds(k: nat)
    requires k <= 28
    ensures Doubled(k) <= MAX_ROWS && (k < 28 ==> 2 * Doubled(k) <= MAX_ROWS) && (k == 28 ==> Doubled(k) == MAX_ROWS)
  {
    LargestCapacity();
    DoublingGrows(k, 28);
    if k < 28 { DoublingGrows(k + 1, 28); }
  }

  lemma LargestCapacity()
    ensures Doubled(28) == MAX_ROWS
  {
    assert Doubled(3) == 32 && Doubled(5) == 128 && Doubled(7) == 512 && Doubled(9) == 2048;
    assert Doubled(11) == 8192 && Doubled(13) == 0x8000 && Doubled(15) == 0x2_0000 && Doubled(17) == 0x8_0000;
    assert Doubled(19) == 0x20_0000 && Doubled(21) == 0x80_0000 && Doubled(23) == 0x200_0000;
    assert Doubled(25) == 0x800_0000 && Doubled(27) == 0x2000_0000;
  }

  lemma {:induction false} DoublingGrows(k: nat, m: nat)
    requires k <= m
    ensures Doubled(k) <= Doubled(m)
    decreases m - k
  {
    if k < m { DoublingGrows(k + 1, m); }
  }

  /** Doubling a capacity in a signed 32-bit integer overflows for one capacity alone, the largest. */
  lemma DoublingOverflowsExactly(capacity: nat)
    requires IsCapacity(capacity)
    ensures capacity <= MAX_ROWS
    ensures 2 * capacity > INT32_MAX <==> capacity == MAX_ROWS
    ensures 0 < capacity < MAX_ROWS ==> IsCapacity(2 * capacity)
  {
    if capacity > 0 {
      var k: nat :| k <= 28 && capacity == Doubled(k);
      DoubledBounds(k);
      if k < 28 { assert 2 * capacity == Doubled(k + 1); }
    }
  }

  // ---- Rows in an arena ------------------------------------------------------------------------

  /** The bytes at an address lie inside an arena of some size. */
  predicate Fits(size: nat, base: int, address: int, length: nat) {
    0 <= address - base && address - base + length <= size
  }

  ghost predicate AllFit(size: nat, base: int, rows: seq<int>, lengths: seq<nat>) {
    |rows| == |lengths| && forall i :: 0 <= i < |rows| ==> Fits(size, base, rows[i], lengths[i])
  }

  function BytesAt(bytes: seq<byte>, base: int, address: int, length: nat): seq<byte>
    requires Fits(|bytes|, base, address, length)
  {
    bytes[address - base..address - base + length]
  }

  /** The tuples that row addresses and lengths pick out of an arena. */
  ghost function Slices(bytes: seq<byte>, base: int, rows: seq<int>, lengths: seq<nat>): (t: seq<seq<byte>>)
    requires AllFit(|bytes|, base, rows, lengths)
    ensures |t| == |rows|
  {
    seq(|rows|, i requires 0 <= i < |rows| => BytesAt(bytes, base, rows[i], lengths[i]))
  }

  /** Bytes appended to the arena do not change its rows. */
  lemma SlicesGrow(bytes: seq<byte>, more: seq<byte>, base: int, rows: seq<int>, lengths: seq<nat>)
    requires |bytes| <= |more| && more[..|bytes|] == bytes && AllFit(|bytes|, base, rows, lengths)
    ensures AllFit(|more|, base, rows, lengths)
    ensures Slices(more, base, rows, lengths) == Slices(bytes, base, rows, lengths)
  {
    forall i | 0 <= i < |rows|
      ensures BytesAt(more, base, rows[i], lengths[i]) == BytesAt(bytes, base, rows[i], lengths[i])
    {
      SubSlice(more, 0, |bytes|, rows[i] - base, rows[i] - base + lengths[i]);
    }
  }

  /** A payload put behind the used part is found there, and the earlier rows stay. */
  lemma PayloadAdded(bytes: seq<byte>, whole: seq<byte>, size: nat, base: int, rows: seq<int>,
                    lengths: seq<nat>)
    requires |bytes| + size <= |whole| && AllFit(|bytes|, base, rows, lengths)
    requires forall i :: 0 <= i < |bytes| ==> whole[i] == bytes[i]
    ensures AllFit(|bytes| + size, base, rows, lengths)
    ensures Slices(whole[..|bytes| + size], base, rows, lengths) == Slices(bytes, base, rows, lengths)
    ensures BytesAt(whole[..|bytes| + size], base, base + |bytes|, size) == whole[|bytes|..|bytes| + size]
  {
    var more := whole[..|bytes| + size];
    assert more[..|bytes|] == bytes;
    SlicesGrow(bytes, more, base, rows, lengths);
    SubSlice(whole, 0, |more|, |bytes|, |bytes| + size);
  }

  /** Moving the arena and all its rows by one distance does not change them. */
  lemma SlicesMoved(bytes: seq<byte>, base: int, rows: seq<int>, lengths: seq<nat>, newBase: int,
                   newRows: seq<int>)
    requires AllFit(|bytes|, base, rows, lengths) && |newRows| == |rows|
    requires forall i :: 0 <= i < |rows| ==> newRows[i] - newBase == rows[i] - base
    ensures AllFit(|bytes|, newBase, newRows, lengths)
    ensures Slices(bytes, newBase, newRows, lengths) == Slices(bytes, base, rows, lengths)
  {
  }

  lemma SlicesAppend(bytes: seq<byte>, base: int, rows: seq<int>, lengths: seq<nat>, address: int,
                    length: nat)
    requires AllFit(|bytes|, base, rows, lengths) && Fits(|bytes|, base, address, length)
    ensures AllFit(|bytes|, base, rows + [address], lengths + [length])
    ensures Slices(bytes, base, rows + [address], lengths + [length])
            == Slices(bytes, base, rows, lengths) + [BytesAt(bytes, base, address, length)]
  {
  }

  // ---- The cursor as seen from outside ---------------------------------------------------------

  /** Number of rows delivered so far, the end, or a failure that stays. */
  datatype Cursor = At(delivered: nat) | End | Stuck(status: Status)

  /** What a fetch returns: a row, or the status instead of one. */
  datatype Fetched = Row(tuple: seq<byte>) | NoRow(status: Status)

  datatype Outcome = Outcome(cursor: Cursor, fetched: Fetched)

  /** Circumstances of a fetch: connection discarded, result closed by a transaction end, server error seen,
      memory there for the places of columns. */
  datatype Context = Context(discarded: bool, closed: bool, failed: bool, memory: bool)

  const NORMAL: Context := Context(false, false, false, true)

  function Step(cursor: Cursor, rows: seq<seq<byte>>, columns: seq<Column>, context: Context): Outcome {
    if context.discarded then Outcome(if cursor.Stuck? then cursor else End, NoRow(InvalidState))
    else if cursor.Stuck? then Outcome(cursor, NoRow(cursor.status))
    else if context.closed then Outcome(Stuck(InvalidState), NoRow(InvalidState))
    else if context.failed then Outcome(Stuck(ProtoError), NoRow(ProtoError))
    else if cursor.End? || cursor.delivered >= |rows| then Outcome(End, NoRow(Eof))
    else
      var status := RowStatus(columns, rows[cursor.delivered], context.memory);
      if status == Ok then Outcome(At(cursor.delivered + 1), Row(rows[cursor.delivered]))
      else Outcome(Stuck(status), NoRow(status))
  }

  /** The outcomes of a number of fetches, one after the other, each in its own circumstances. */
  function Fetches(cursor: Cursor, rows: seq<seq<byte>>, columns: seq<Column>, contexts: seq<Context>, n: nat): Outcome
    requires 0 < n <= |contexts|
  {
    if n == 1 then Step(cursor, rows, columns, contexts[0])
    else Step(Fetches(cursor, rows, columns, contexts, n - 1).cursor, rows, columns, contexts[n - 1])
  }

  /** Number of rows in front of the first one whose layout is wrong. */
  function WellFormedRows(rows: seq<seq<byte>>, columns: seq<Column>, from: nat): (n: nat)
    requires from <= |rows|
    ensures from <= n <= |rows|
    ensures forall i :: from <= i < n ==> RowStatus(columns, rows[i], true) == Ok
    ensures n < |rows| ==> RowStatus(columns, rows[n], true) != Ok
    decreases |rows| - from
  {
    if from == |rows| || RowStatus(columns, rows[from], true) != Ok then from
    else WellFormedRows(rows, columns, from + 1)
  }

  /** What fetching ends with. */
  function FinalStatus(rows: seq<seq<byte>>, columns: seq<Column>): (s: Status)
    ensures s != Ok
  {
    var w := WellFormedRows(rows, columns, 0);
    if w == |rows| then Eof else RowStatus(columns, rows[w], true)
  }

  /** The next fetch delivers the next row as long as it is well formed, and ends otherwise. */
  lemma NextInOrder(rows: seq<seq<byte>>, columns: seq<Column>, k: nat)
    requires k <= WellFormedRows(rows, columns, 0)
    ensures var o := Step(At(k), rows, columns, NORMAL);
            if k < WellFormedRows(rows, columns, 0) then o == Outcome(At(k + 1), Row(rows[k]))
            else o.fetched == NoRow(FinalStatus(rows, columns))
  {
  }

  /** Fetching from before the first row delivers every row once and in order up to the first malformed
      one; after that EOF, or the failure, for ever. */
  lemma {:induction false} DeliversInOrder(rows: seq<seq<byte>>, columns: seq<Column>, contexts: seq<Context>, n: nat)
    requires 0 < n <= |contexts| && forall i :: 0 <= i < n ==> contexts[i] == NORMAL
    ensures var w := WellFormedRows(rows, columns, 0);
            Fetches(At(0), rows, columns, contexts, n)
            == if n <= w then Outcome(At(n), Row(rows[n - 1]))
               else if w == |rows| then Outcome(End, NoRow(Eof))
               else Outcome(Stuck(RowStatus(columns, rows[w], true)), NoRow(RowStatus(columns, rows[w], true)))
  {
    if n > 1 { DeliversInOrder(rows, columns, contexts, n - 1); }
  }

  /** Once a fetch finds the result closed, the connection discarded or a failure, no later fetch delivers
      a row, whatever the circumstances. */
  lemma {:induction false} NoRowAfterClosing(cursor: Cursor, rows: seq<seq<byte>>, columns: seq<Column>,
                                             contexts: seq<Context>, k: nat, n: nat)
    requires 0 < k <= n <= |contexts| && contexts[k - 1] != NORMAL
    ensures var r := Fetches(cursor, rows, columns, contexts, n); r.fetched.NoRow? && !r.cursor.At?
  {
    if k < n { NoRowAfterClosing(cursor, rows, columns, contexts, k, n - 1); }
  }

  /** A failure stays: every later fetch on a usable connection reports it again. */
  lemma {:induction false} FailureStays(cursor: Cursor, rows: seq<seq<byte>>, columns: seq<Column>,
                                        contexts: seq<Context>, k: nat, n: nat)
    requires 0 < k < n <= |contexts| && Fetches(cursor, rows, columns, contexts, k).cursor.Stuck?
    requires forall i :: k <= i < n ==> !contexts[i].discarded
    ensures var s := Fetches(cursor, rows, columns, contexts, k).cursor.status;
            Fetches(cursor, rows, columns, contexts, n) == Outcome(Stuck(s), NoRow(s))
  {
    if k + 1 < n { FailureStays(cursor, rows, columns, contexts, k, n - 1); }
  }
}
