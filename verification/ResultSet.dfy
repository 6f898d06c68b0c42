/** The result object that stores received tuples and fetches them, over addresses into its arena. */
module ResultSets {
  import opened Status
  import opened Arrays
  import opened Transport
  import opened Columns
  import opened Rows

  /** What a result reads of its connection. */
  class Session {
    var discarded: bool
    var commitEpoch: nat
    var rollbackEpoch: nat

    constructor ()
      ensures !discarded
    {
      discarded, commitEpoch, rollbackEpoch := false, 0, 0;
    }
  }

  class ResultSet {
    const columns: seq<Column>
    const holdable: bool
    const commitEpoch: nat
    const rollbackEpoch: nat

    /** Contents of the arena, the address it is at, and how much of it is used. */
    var arena: array<byte>
    var base: int
    var used: nat
    /** Address and length of each row's payload. */
    var rows: seq<int>
    var lengths: seq<nat>
    /** Rows the tables may hold, and the cells allocated for addresses and for lengths. */
    var rowCapacity: nat
    var addressCells: nat
    var lengthCells: nat

    var cursor: int
    var absoluteRow: int
    var beforeFirst: bool
    var afterLast: bool
    /** The current tuple, if positioned on a row. */
    var positioned: bool
    var tupleAddress: int
    var tupleLength: nat
    var currentRow: int
    var fetchStatus: Status
    var cachedRow: int
    /** Where the columns of the cached row lie and which are NULL; the arrays for this, once allocated, stay. */
    var places: seq<Place>
    var nulls: seq<bool>
    var cacheReady: bool
    var sawError: bool

    /** Every row lies in the used part of the arena. */
    ghost predicate Stored()
      reads this
    {
      && |rows| <= rowCapacity && rowCapacity <= addressCells && rowCapacity <= lengthCells
      && IsCapacity(rowCapacity) && used <= arena.Length
      && AllFit(used, base, rows, lengths)
    }

    ghost predicate Valid()
      reads this
    {
      && Stored()
      && (fetchStatus != Ok || afterLast ==> !positioned)
      && (fetchStatus == Ok && !afterLast && beforeFirst ==> !positioned && cursor == -1 && absoluteRow == 0)
      && (fetchStatus == Ok && !afterLast && !beforeFirst ==>
            && 0 <= cursor < |rows| && positioned && currentRow == cursor && absoluteRow == cursor + 1
            && tupleAddress == rows[cursor] && tupleLength == lengths[cursor])
    }

    /** The plain sequence of tuples this object stands for. */
    ghost function Tuples(): (t: seq<seq<byte>>)
      reads this, arena
      requires Stored()
      ensures |t| == |rows|
    {
      Slices(arena[..used], base, rows, lengths)
    }

    ghost function Position(): Cursor
      reads this
      requires Valid()
    {
      if fetchStatus != Ok then Stuck(fetchStatus)
      else if afterLast then End
      else if beforeFirst then At(0)
      else At(cursor + 1)
    }

    /** The tuple a fetch has positioned on. */
    ghost function CurrentTuple(): seq<byte>
      reads this, arena
      requires Valid() && positioned && fetchStatus == Ok && !afterLast && !beforeFirst
    {
      BytesAt(arena[..used], base, tupleAddress, tupleLength)
    }

    /** Every column of a tuple has its place and its null mark. */
    ghost predicate Prepared(tuple: seq<byte>)
      reads this
    {
      && Layout(columns, 0, tuple, 0) == Good(places) && |places| == |columns|
      && nulls == NullMarks(columns, tuple, places)
    }

    /** Positioned on a row with this tuple, whose columns are located and marked. */
    ghost predicate Delivers(tuple: seq<byte>)
      reads this, arena
      requires Valid()
    {
      && positioned && !beforeFirst && !afterLast && fetchStatus == Ok
      && CurrentTuple() == tuple && Prepared(tuple)
    }

    predicate ClosedBy(session: Session)
      reads this, session
    {
      session.rollbackEpoch != rollbackEpoch || (!holdable && session.commitEpoch != commitEpoch)
    }

    function Circumstances(session: Session, memory: bool): Context
      reads this, session
    {
      Context(session.discarded, ClosedBy(session), sawError, cacheReady || memory)
    }

    constructor (columns: seq<Column>, holdable: bool, session: Session)
      ensures Valid() && fresh(arena) && Tuples() == [] && Position() == At(0)
      ensures this.columns == columns && !ClosedBy(session) && !sawError && !positioned && used == 0
    {
      this.columns := columns;
      this.holdable := holdable;
      commitEpoch, rollbackEpoch := session.commitEpoch, session.rollbackEpoch;
      arena, base, used := new byte[0], 0, 0;
      rows, lengths, rowCapacity, addressCells, lengthCells := [], [], 0, 0, 0;
      cursor, absoluteRow, beforeFirst, afterLast := -1, 0, true, false;
      positioned, tupleAddress, tupleLength, currentRow := false, 0, 0, -1;
      fetchStatus, cachedRow, places, nulls, cacheReady, sawError := Ok, -1, [], [], false, false;
    }

    // ---- Receiving ------------------------------------------------------------------------------

    /** Makes room for a payload. The grown arena is at an address the allocator chooses, so all row
        addresses move by the same distance. */
    method GrowArena(size: nat, newBase: int, memory: bool) returns (status: Status)
      requires Stored() && !positioned
      modifies this`arena, this`base, this`rows
      ensures Stored() && |rows| == |old(rows)| && Tuples() == old(Tuples()) && status in {Ok, AllocFail}
      ensures arena == old(arena) || fresh(arena)
      ensures status == Ok ==> used + size <= arena.Length
      ensures memory && used + size <= SIZE_MAX / 2 ==> status == Ok
    {
      if used > SIZE_MAX - size { return AllocFail; }
      if arena.Length > 0 && used + size <= arena.Length { return Ok; }
      var capacity := if arena.Length > 0 then arena.Length else 32768;
      while capacity < used + size
        invariant capacity > 0
        decreases used + size - capacity
      {
        if capacity > SIZE_MAX / 2 { return AllocFail; }
        capacity := capacity * 2;
      }
      if !memory { return AllocFail; }
      var grown := new byte[capacity];
      CopyFirst(grown, arena, used);
      MoveArena(grown, newBase);
      return Ok;
    }

    /** Takes the copy in place of the arena and rebases the rows by the distance the first one moved. */
    method MoveArena(grown: array<byte>, newBase: int)
      requires Stored() && used <= grown.Length && grown[..used] == arena[..used]
      modifies this`arena, this`base, this`rows
      ensures Stored() && arena == grown && |rows| == |old(rows)| && Tuples() == old(Tuples())
    {
      ghost var was, wasBase := rows, base;
      var firstOffset := if |rows| > 0 then rows[0] - base else 0;
      arena := grown;
      base := newBase;
      if |rows| > 0 {
        var delta := base + firstOffset - rows[0];
        for i := 0 to |rows|
          invariant |rows| == |was| && arena == grown && base == newBase
          invariant forall j :: 0 <= j < |rows| ==> rows[j] == if j < i then was[j] + delta else was[j]
        {
          rows := rows[i := rows[i] + delta];
        }
      }
      SlicesMoved(grown[..used], wasBase, was, lengths, base, rows);
    }

    /** Receives one tuple: warnings, size, payload and padding. Nothing is registered unless all of it
        arrives and there is memory for it, and no earlier row changes. What happens is undefined if the
        tables must grow beyond their largest capacity. */
    method ReceiveTuple(reader: Reader, newBase: int, memory: Memory) returns (defined: bool, status: Status)
      requires Valid() && !positioned && reader.Valid() && reader.buffer != arena
      modifies this`arena, this`base, this`used, this`rows, this`lengths, this`rowCapacity, this`addressCells,
               this`lengthCells, arena, reader`unread, reader`position, reader`limit, reader.buffer
      ensures Valid() && reader.Valid() && (arena == old(arena) || fresh(arena)) && Position() == old(Position())
      ensures used <= old(used) + MAX_TUPLE
      ensures !defined || status != Ok ==> Tuples() == old(Tuples())
      ensures !defined ==> old(|rows|) == MAX_ROWS && TupleStatus(old(reader.Pending())) == Ok
      ensures defined && status == Ok ==>
                var s := old(reader.Pending());
                && TupleStatus(s) == Ok && old(|rows|) < MAX_ROWS
                && Tuples() == old(Tuples()) + [s[6..6 + TupleSize(s)]]
                && reader.Pending() == s[6 + TupleSize(s) + TupleSize(s) % 2..]
      ensures reader.reliable && memory == ENOUGH && old(used) + MAX_TUPLE <= SIZE_MAX / 2 ==>
                var expected := TupleStatus(old(reader.Pending()));
                && (defined <==> old(|rows|) < MAX_ROWS || expected != Ok)
                && (defined ==> status == expected)
    {
      ghost var s := reader.Pending();
      defined := true;
      var size;
      status, size := ReadHeader(reader, s);
      if status != Ok { return; }
      if size > MAX_TUPLE { return true, ProtoError; }
      defined, status := StoreTuple(reader, size, newBase, memory, s);
    }

    /** Makes room for a payload, reads and registers it. */
    method StoreTuple(reader: Reader, size: nat, newBase: int, memory: Memory, ghost s: seq<byte>)
      returns (defined: bool, status: Status)
      requires Valid() && !positioned && reader.Valid() && reader.buffer != arena
      requires |s| >= 6 && reader.Pending() == s[6..] && size == TupleSize(s)
      modifies this`arena, this`base, this`used, this`rows, this`lengths, this`rowCapacity, this`addressCells,
               this`lengthCells, arena, reader`unread, reader`position, reader`limit, reader.buffer
      ensures Valid() && reader.Valid() && (arena == old(arena) || fresh(arena)) && Position() == old(Position())
      ensures used <= old(used) + size
      ensures !defined || status != Ok ==> Tuples() == old(Tuples())
      ensures !defined ==> old(|rows|) == MAX_ROWS && 6 + size + size % 2 <= |s|
      ensures defined && status == Ok ==>
                && 6 + size + size % 2 <= |s| && reader.Pending() == s[6 + size + size % 2..]
                && old(|rows|) < MAX_ROWS && Tuples() == old(Tuples()) + [s[6..6 + size]]
      ensures reader.reliable && memory == ENOUGH && old(used) + size <= SIZE_MAX / 2 ==>
                if 6 + size + size % 2 <= |s| then if old(|rows|) < MAX_ROWS then defined && status == Ok else !defined
                else defined && status == IoError
    {
      defined := true;
      status := GrowArena(size, newBase, memory.arena);
      if status != Ok { return; }
      defined, status := ReadPayload(reader, size, memory, s);
    }

    method ReadHeader(reader: Reader, ghost s: seq<byte>) returns (status: Status, size: nat)
      requires reader.Valid() && reader.Pending() == s
      modifies reader`unread, reader`position, reader`limit, reader.buffer
      ensures reader.Valid() && status in {Ok, IoError}
      ensures status == Ok ==> 6 <= |s| && size == TupleSize(s) && reader.Pending() == s[6..]
      ensures reader.reliable && 6 <= |s| ==> status == Ok
    {
      var warnings;
      size := 0;
      status, warnings := reader.ReadBe16();
      if status != Ok { return; }
      status, size := reader.ReadBe32();
      if status != Ok { return; }
      assert s[2..][4..] == s[6..];
      Be32Prefix(s, 2);
    }

    method ReadPayload(reader: Reader, size: nat, memory: Memory, ghost s: seq<byte>)
      returns (defined: bool, status: Status)
      requires Valid() && !positioned && used + size <= arena.Length
      requires reader.Valid() && reader.buffer != arena && |s| >= 6 && reader.Pending() == s[6..]
      modifies this`used, this`rows, this`lengths, this`rowCapacity, this`addressCells, this`lengthCells, arena
      modifies reader`unread, reader`position, reader`limit, reader.buffer
      ensures Valid() && reader.Valid() && arena == old(arena) && Position() == old(Position())
      ensures status in {Ok, IoError, AllocFail} && used <= old(used) + size
      ensures !defined || status != Ok ==> Tuples() == old(Tuples())
      ensures !defined ==> old(|rows|) == MAX_ROWS && 6 + size + size % 2 <= |s|
      ensures defined && status == Ok ==>
                && 6 + size + size % 2 <= |s| && reader.Pending() == s[6 + size + size % 2..]
                && old(|rows|) < MAX_ROWS && Tuples() == old(Tuples()) + [s[6..6 + size]]
      ensures reader.reliable && memory == ENOUGH ==>
                if 6 + size + size % 2 <= |s| then if old(|rows|) < MAX_ROWS then defined && status == Ok else !defined
                else defined && status == IoError
    {
      defined := true;
      var offset := used;
      status := ReadIntoArena(reader, size, s);
      if status != Ok { return; }
      ghost var all := arena[..used];
      status := SkipPadding(reader, size, s);
      assert arena[..used] == all;
      if status != Ok { return; }
      defined, status := Register(base + offset, size, memory.addresses, memory.lengths);
    }

    /** Drops the byte behind a payload of odd size. */
    method SkipPadding(reader: Reader, size: nat, ghost s: seq<byte>) returns (status: Status)
      requires Valid() && reader.Valid() && reader.buffer != arena
      requires 6 + size <= |s| && reader.Pending() == s[6 + size..]
      modifies reader`unread, reader`position, reader`limit, reader.buffer
      ensures reader.Valid() && status in {Ok, IoError}
      ensures status == Ok ==> 6 + size + size % 2 <= |s| && reader.Pending() == s[6 + size + size % 2..]
      ensures reader.reliable && 6 + size + size % 2 <= |s| ==> status == Ok
    {
      if size % 2 == 0 { return Ok; }
      Rest6(s, size);
      status := reader.ReadPad();
    }

    /** Reads the payload behind the used part of the arena, which then includes it. */
    method ReadIntoArena(reader: Reader, size: nat, ghost s: seq<byte>) returns (status: Status)
      requires Valid() && !positioned && used + size <= arena.Length
      requires reader.Valid() && reader.buffer != arena && |s| >= 6 && reader.Pending() == s[6..]
      modifies this`used, arena, reader`unread, reader`position, reader`limit, reader.buffer
      ensures Valid() && reader.Valid() && Position() == old(Position()) && Tuples() == old(Tuples())
      ensures status in {Ok, IoError} && used <= old(used) + size
      ensures status == Ok ==>
                && 6 + size <= |s| && reader.Pending() == s[6 + size..] && used == old(used) + size
                && BytesAt(arena[..used], base, base + old(used), size) == s[6..6 + size]
      ensures reader.reliable && 6 + size <= |s| ==> status == Ok
    {
      ghost var bytes := arena[..used];
      status := reader.ReadExact(arena, used, size);
      if status != Ok {
        assert arena[..used] == bytes;
        return;
      }
      PayloadAdded(bytes, arena[..], size, base, rows, lengths);
      Rest6(s, size);
      assert arena[..used + size] == arena[..][..used + size];
      assert arena[used..used + size] == arena[..][used..used + size];
      used := used + size;
    }

    lemma Rest6(s: seq<byte>, size: nat)
      requires 6 + size <= |s|
      ensures s[6..][..size] == s[6..6 + size] && s[6..][size..] == s[6 + size..]
      ensures 6 + size + 1 <= |s| ==> s[6 + size..][1..] == s[6 + size + 1..]
    {
    }

    /** Enters a row, doubling the row tables when they are full. With the largest number of rows that
        overflows; otherwise the row is entered unless one of the tables cannot grow. */
    method Register(address: int, length: nat, moreAddresses: bool, moreLengths: bool)
      returns (defined: bool, status: Status)
      requires Valid() && !positioned && Fits(used, base, address, length)
      modifies this`rows, this`lengths, this`rowCapacity, this`addressCells, this`lengthCells
      ensures Valid() && Position() == old(Position())
      ensures old(|rows|) <= MAX_ROWS && (defined <==> old(|rows|) < MAX_ROWS)
      ensures defined ==>
                status == if old(|rows| < rowCapacity) || (moreAddresses && moreLengths) then Ok else AllocFail
      ensures status in {Ok, AllocFail}
      ensures Tuples() == if defined && status == Ok
                          then old(Tuples()) + [BytesAt(arena[..used], base, address, length)] else old(Tuples())
    {
      DoublingOverflowsExactly(rowCapacity);
      if |rows| >= rowCapacity {
        defined, status := GrowTables(moreAddresses, moreLengths);
        if !defined || status != Ok { return; }
      }
      assert |rows| < addressCells && |rows| < lengthCells;
      SlicesAppend(arena[..used], base, rows, lengths, address, length);
      rows := rows + [address];
      lengths := lengths + [length];
      return true, Ok;
    }

    /** Doubles both tables. Their capacity is a signed 32-bit integer, whose doubling is undefined if it
        overflows; it stays as it was if either table cannot be reallocated. */
    method GrowTables(moreAddresses: bool, moreLengths: bool) returns (defined: bool, status: Status)
      requires Valid() && |rows| == rowCapacity
      modifies this`rowCapacity, this`addressCells, this`lengthCells
      ensures Valid() && status in {Ok, AllocFail}
      ensures defined <==> |rows| < MAX_ROWS
      ensures defined ==> status == if moreAddresses && moreLengths then Ok else AllocFail
      ensures if defined && status == Ok then |rows| < rowCapacity else rowCapacity == old(rowCapacity)
    {
      DoublingOverflowsExactly(rowCapacity);
      if 2 * rowCapacity > INT32_MAX { return false, AllocFail; }
      var capacity := if rowCapacity == 0 then 4 else rowCapacity * 2;
      if !moreAddresses { return true, AllocFail; }
      addressCells := capacity;
      if !moreLengths { return true, AllocFail; }
      lengthCells := capacity;
      rowCapacity := capacity;
      assert Doubled(0) == 4;
      return true, Ok;
    }

    // ---- Fetching -------------------------------------------------------------------------------

    method MarkClosed()
      requires Stored()
      modifies this`cursor, this`absoluteRow, this`beforeFirst, this`afterLast, this`positioned, this`currentRow,
               this`cachedRow, this`tupleLength
      ensures Valid() && Tuples() == old(Tuples())
      ensures Position() == if fetchStatus != Ok then Stuck(fetchStatus) else End
    {
      cachedRow, cursor, currentRow := -1, -1, -1;
      positioned, tupleLength, absoluteRow := false, 0, 0;
      beforeFirst, afterLast := false, true;
    }

    /** The bytes of a row's payload. */
    method Payload(index: nat) returns (tuple: seq<byte>)
      requires Stored() && index < |rows|
      ensures tuple == Tuples()[index]
    {
      var from := rows[index] - base;
      SubSlice(arena[..], 0, used, from, from + lengths[index]);
      tuple := arena[from..from + lengths[index]];
    }

    /** Points the cursor at a row. */
    method PointAt(index: nat)
      requires Stored() && index < |rows|
      modifies this`cursor, this`beforeFirst, this`afterLast, this`positioned, this`currentRow, this`cachedRow,
               this`tupleAddress, this`tupleLength
      ensures Stored() && Tuples() == old(Tuples())
      ensures positioned && cursor == currentRow == index && !beforeFirst && !afterLast
      ensures tupleAddress == rows[index] && tupleLength == lengths[index]
    {
      cursor, currentRow, cachedRow := index, index, -1;
      positioned, tupleAddress, tupleLength := true, rows[index], lengths[index];
      beforeFirst, afterLast := false, false;
    }

    /** Keeps a failure and gives up the position. */
    method Fail(status: Status)
      requires Stored() && status != Ok
      modifies this`cursor, this`absoluteRow, this`beforeFirst, this`afterLast, this`positioned, this`currentRow,
               this`cachedRow, this`tupleLength, this`fetchStatus
      ensures Valid() && Tuples() == old(Tuples()) && Position() == Stuck(status)
    {
      fetchStatus := status;
      MarkClosed();
    }

    /** Locates and marks the columns of a tuple, allocating the arrays for this the first time. */
    method Prepare(tuple: seq<byte>, memory: bool) returns (status: Status)
      modifies this`places, this`nulls, this`cacheReady
      ensures cacheReady ==> old(cacheReady) || memory
      ensures status == RowStatus(columns, tuple, old(cacheReady) || memory)
      ensures status == Ok ==> Prepared(tuple)
    {
      status, places, nulls := PrepareRow(columns, tuple, cacheReady || memory);
      if |columns| > 0 && memory { cacheReady := true; }
    }

    /** Points at a row and prepares its columns. */
    method Look(index: nat, memory: bool) returns (status: Status)
      requires Stored() && index < |rows| && fetchStatus == Ok
      modifies this`cursor, this`beforeFirst, this`afterLast, this`positioned, this`currentRow, this`cachedRow,
               this`tupleAddress, this`tupleLength, this`places, this`nulls, this`cacheReady
      ensures Stored() && Tuples() == old(Tuples()) && (cacheReady ==> old(cacheReady) || memory)
      ensures positioned && cursor == currentRow == index && !beforeFirst && !afterLast
      ensures tupleAddress == rows[index] && tupleLength == lengths[index]
      ensures status == RowStatus(columns, Tuples()[index], old(cacheReady) || memory)
      ensures status == Ok ==> Prepared(Tuples()[index])
    {
      var tuple := Payload(index);
      PointAt(index);
      status := Prepare(tuple, memory);
    }

    /** Positions on a row if its layout is right; otherwise the failure is kept. */
    method MoveToIndex(index: nat, memory: bool) returns (moved: bool)
      requires Stored() && index < |rows| && fetchStatus == Ok
      modifies this`cursor, this`absoluteRow, this`beforeFirst, this`afterLast, this`positioned, this`currentRow,
               this`cachedRow, this`tupleAddress, this`tupleLength, this`places, this`nulls, this`cacheReady,
               this`fetchStatus
      ensures Stored() && Tuples() == old(Tuples())
      ensures cacheReady ==> old(cacheReady) || memory
      ensures moved == (RowStatus(columns, Tuples()[index], old(cacheReady) || memory) == Ok)
      ensures moved ==>
                && fetchStatus == Ok && positioned && cursor == currentRow == index && !beforeFirst && !afterLast
                && absoluteRow == old(absoluteRow) && tupleAddress == rows[index] && tupleLength == lengths[index]
                && cachedRow == index && Prepared(Tuples()[index])
      ensures !moved ==> Valid() && Position() == Stuck(RowStatus(columns, Tuples()[index], old(cacheReady) || memory))
    {
      var status := Look(index, memory);
      moved := status == Ok;
      if moved { cachedRow := index; } else { Fail(status); }
    }

    /** Delivers a row and numbers it, or fails for good. */
    method Advance(index: nat, number: int, memory: bool) returns (row: bool)
      requires Stored() && index < |rows| && fetchStatus == Ok && number == index + 1
      modifies this`cursor, this`absoluteRow, this`beforeFirst, this`afterLast, this`positioned, this`currentRow,
               this`cachedRow, this`tupleAddress, this`tupleLength, this`places, this`nulls, this`cacheReady,
               this`fetchStatus
      ensures Valid() && Tuples() == old(Tuples())
      ensures row == (RowStatus(columns, Tuples()[index], old(cacheReady) || memory) == Ok)
      ensures if row then Position() == At(number) && Delivers(Tuples()[index])
              else Position() == Stuck(RowStatus(columns, Tuples()[index], old(cacheReady) || memory))
    {
      row := MoveToIndex(index, memory);
      if row { absoluteRow := number; }
    }

    /** Moves to the next row, to the end, or into failure. */
    method NextInternal(session: Session, memory: bool) returns (row: bool)
      requires Valid() && fetchStatus == Ok && !ClosedBy(session)
      modifies this`cursor, this`absoluteRow, this`beforeFirst, this`afterLast, this`positioned, this`currentRow,
               this`cachedRow, this`tupleAddress, this`tupleLength, this`places, this`nulls, this`cacheReady,
               this`fetchStatus
      ensures Valid() && Tuples() == old(Tuples())
      ensures var o := Step(old(Position()), Tuples(), columns, NORMAL.(memory := old(cacheReady) || memory));
              && Position() == o.cursor && row == o.fetched.Row?
              && (row ==> Delivers(o.fetched.tuple))
    {
      if afterLast { return false; }
      if beforeFirst { row := FirstRow(memory); } else { row := FollowingRow(memory); }
    }

    /** Moves to the first row, or to the end if there is none. */
    method FirstRow(memory: bool) returns (row: bool)
      requires Valid() && fetchStatus == Ok && !afterLast && beforeFirst
      modifies this`cursor, this`absoluteRow, this`beforeFirst, this`afterLast, this`positioned, this`currentRow,
               this`cachedRow, this`tupleAddress, this`tupleLength, this`places, this`nulls, this`cacheReady,
               this`fetchStatus
      ensures Valid() && Tuples() == old(Tuples())
      ensures var o := Step(At(0), Tuples(), columns, NORMAL.(memory := old(cacheReady) || memory));
              && Position() == o.cursor && row == o.fetched.Row?
              && (row ==> Delivers(o.fetched.tuple))
    {
      if |rows| == 0 {
        afterLast := true;
        return false;
      }
      row := Advance(0, 1, memory);
    }

    /** Moves from a row to the next one, or to the end behind the last. */
    method FollowingRow(memory: bool) returns (row: bool)
      requires Valid() && fetchStatus == Ok && !afterLast && !beforeFirst
      modifies this`cursor, this`absoluteRow, this`beforeFirst, this`afterLast, this`positioned, this`currentRow,
               this`cachedRow, this`tupleAddress, this`tupleLength, this`places, this`nulls, this`cacheReady,
               this`fetchStatus
      ensures Valid() && Tuples() == old(Tuples())
      ensures var o := Step(At(old(cursor) + 1), Tuples(), columns, NORMAL.(memory := old(cacheReady) || memory));
              && Position() == o.cursor && row == o.fetched.Row?
              && (row ==> Delivers(o.fetched.tuple))
    {
      var next := cursor + 1;
      if next < |rows| {
        row := Advance(next, absoluteRow + 1, memory);
        return;
      }
      PassLast();
      return false;
    }

    /** Leaves the last row behind. */
    method PassLast()
      requires Stored() && fetchStatus == Ok
      modifies this`cursor, this`absoluteRow, this`afterLast, this`positioned, this`currentRow, this`tupleLength
      ensures Valid() && Tuples() == old(Tuples()) && Position() == End
    {
      afterLast, absoluteRow, cursor, currentRow, positioned, tupleLength := true, 0, -1, -1, false, 0;
    }

    /** A copy of the current tuple. */
    method Current() returns (tuple: seq<byte>)
      requires Valid() && positioned && fetchStatus == Ok && !afterLast && !beforeFirst
      ensures tuple == CurrentTuple()
    {
      SubSlice(arena[..], 0, used, tupleAddress - base, tupleAddress - base + tupleLength);
      tuple := arena[tupleAddress - base..tupleAddress - base + tupleLength];
    }

    /** Gives no row: the connection was discarded, a fetch failed before, the result was closed or the server
        reported an error, in this order. */
    method Refuse(session: Session, ghost memory: bool) returns (status: Status)
      requires Valid() && (session.discarded || fetchStatus != Ok || ClosedBy(session) || sawError)
      modifies this`cursor, this`absoluteRow, this`beforeFirst, this`afterLast, this`positioned, this`currentRow,
               this`cachedRow, this`tupleLength, this`fetchStatus
      ensures Valid() && Tuples() == old(Tuples()) && status != Ok
      ensures Step(old(Position()), Tuples(), columns, old(Circumstances(session, memory)))
              == Outcome(Position(), NoRow(status))
    {
      if session.discarded {
        MarkClosed();
        return InvalidState;
      }
      if fetchStatus != Ok {
        MarkClosed();
        return fetchStatus;
      }
      if ClosedBy(session) {
        Fail(InvalidState);
        return fetchStatus;
      }
      Fail(ProtoError);
      return fetchStatus;
    }

    /** One fetch, which is one step of the cursor over the sequence of tuples. */
    method Fetch(session: Session, memory: bool) returns (status: Status)
      requires Valid()
      modifies this`cursor, this`absoluteRow, this`beforeFirst, this`afterLast, this`positioned, this`currentRow,
               this`cachedRow, this`tupleAddress, this`tupleLength, this`places, this`nulls, this`cacheReady,
               this`fetchStatus
      ensures Valid() && Tuples() == old(Tuples())
      ensures var o := Step(old(Position()), Tuples(), columns, old(Circumstances(session, memory)));
              && Position() == o.cursor
              && status == (if o.fetched.Row? then Ok else o.fetched.status)
              && (status == Ok ==> Delivers(o.fetched.tuple))
    {
      if session.discarded || fetchStatus != Ok || ClosedBy(session) || sawError {
        status := Refuse(session, memory);
        return;
      }
      var row := NextInternal(session, memory);
      if fetchStatus != Ok {
        MarkClosed();
        return fetchStatus;
      }
      return if row then Ok else Eof;
    }
  }

  /** Rows stored, and the number of them delivered so far, in normal circumstances. */
  ghost predicate Fetching(result: ResultSet, session: Session, rows: seq<seq<byte>>, k: nat)
    reads result, result.arena, session
  {
    && result.Valid() && result.Tuples() == rows && result.Position() == At(k)
    && result.Circumstances(session, true) == NORMAL
  }

  /** Fetching until there is no row left: the rows up to the first malformed one, byte for byte. */
  method FetchAll(result: ResultSet, session: Session) returns (delivered: seq<seq<byte>>, status: Status)
    requires result.Valid() && result.Position() == At(0) && result.Circumstances(session, true) == NORMAL
    requires session as object != result
    modifies result
    ensures result.Valid()
    ensures var rows := old(result.Tuples()); var w := WellFormedRows(rows, result.columns, 0);
            delivered == rows[..w] && status == FinalStatus(rows, result.columns)
  {
    delivered := [];
    ghost var rows := result.Tuples();
    ghost var w := WellFormedRows(rows, result.columns, 0);
    while true
      invariant |delivered| <= w && delivered == rows[..|delivered|] && Fetching(result, session, rows, |delivered|)
      decreases w - |delivered|
    {
      var tuple;
      status, tuple := FetchOne(result, session, rows, |delivered|);
      if status != Ok { return; }
      OneMore(rows, |delivered|);
      delivered := delivered + [tuple];
    }
  }

  lemma OneMore(rows: seq<seq<byte>>, k: nat)
    requires k < |rows|
    ensures rows[..k + 1] == rows[..k] + [rows[k]]
  {
  }

  method FetchOne(result: ResultSet, session: Session, ghost rows: seq<seq<byte>>, ghost k: nat)
    returns (status: Status, tuple: seq<byte>)
    requires Fetching(result, session, rows, k) && k <= WellFormedRows(rows, result.columns, 0)
    requires session as object != result
    modifies result
    ensures result.Valid()
    ensures var w := WellFormedRows(rows, result.columns, 0);
            if k < w then status == Ok && tuple == rows[k] && Fetching(result, session, rows, k + 1)
            else status == FinalStatus(rows, result.columns)
  {
    tuple := [];
    NextInOrder(rows, result.columns, k);
    status := result.Fetch(session, true);
    if status == Ok { tuple := result.Current(); }
  }
}
