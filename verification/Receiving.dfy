/** Receiving a group of tuple messages and fetching what it carries (src/sqli_dispatch.c:1171-1211 and 733-816,
    src/sqli_query.c:168-200): from the bytes the server sends to the rows the caller gets. */
module Receiving {
  import opened Status
  import opened Transport
  import opened Columns
  import opened Rows
  import opened ResultSets

  const SQ_EOT: nat := 12
  const SQ_TUPLE: nat := 14

  /** A tuple as the server sends it: warnings, payload, and a byte behind a payload of odd size. */
  datatype Message = Message(warnings: byte, flags: byte, tuple: seq<byte>, pad: byte) {
    predicate Valid() {
      |tuple| <= MAX_TUPLE
    }
  }

  function Be32Bytes(v: nat): (b: seq<byte>)
    requires v < 0x1_0000_0000
    ensures |b| == 4
  {
    [v / 256 / 256 / 256, v / 256 / 256 % 256, v / 256 % 256, v % 256]
  }

  lemma Be32OfBytes(v: nat)
    requires v < 0x1_0000_0000
    ensures Be32(Be32Bytes(v)) == v
  {
  }

  function Padding(m: Message): seq<byte> {
    if |m.tuple| % 2 == 1 then [m.pad] else []
  }

  /** What follows the opcode. */
  function Body(m: Message): seq<byte>
    requires m.Valid()
  {
    [m.warnings, m.flags] + Be32Bytes(|m.tuple|) + m.tuple + Padding(m)
  }

  ghost predicate AllValid(ms: seq<Message>) {
    forall i :: 0 <= i < |ms| ==> ms[i].Valid()
  }

  /** The messages of a group one behind the other, from the k-th on, and the end of the group. */
  function Group(ms: seq<Message>, k: nat): seq<byte>
    requires k <= |ms| && AllValid(ms)
    decreases |ms| - k
  {
    if k == |ms| then [0, SQ_EOT] else [0, SQ_TUPLE] + Body(ms[k]) + Group(ms, k + 1)
  }

  function TuplesOf(ms: seq<Message>): (t: seq<seq<byte>>)
    ensures |t| == |ms|
  {
    seq(|ms|, i requires 0 <= i < |ms| => ms[i].tuple)
  }

  /** The body of a message at the head of a stream is read as its tuple, and the stream goes on behind it. */
  lemma BodyRead(m: Message, s: seq<byte>, rest: seq<byte>)
    requires m.Valid() && s == Body(m) + rest
    ensures |s| >= 6 && TupleSize(s) == |m.tuple| && TupleStatus(s) == Ok
    ensures s[6..6 + |m.tuple|] == m.tuple && s[6 + |m.tuple| + |m.tuple| % 2..] == rest
  {
    Be32OfBytes(|m.tuple|);
    Parts([m.warnings, m.flags], Be32Bytes(|m.tuple|), m.tuple, Padding(m), rest);
  }

  lemma Parts(h: seq<byte>, size: seq<byte>, t: seq<byte>, p: seq<byte>, rest: seq<byte>)
    requires |h| == 2 && |size| == 4
    ensures var s := h + size + t + p + rest;
            && |s| == 6 + |t| + |p| + |rest| && s[2..6] == size && s[6..6 + |t|] == t
            && s[6 + |t| + |p|..] == rest
  {
  }

  lemma Regroup(a: seq<byte>, b: seq<byte>, c: seq<byte>, d: seq<byte>)
    ensures var s := a + b + c + d; s[..|a|] == a && s[|a|..] == b + (c + d)
  {
  }

  /** A stream begins with a tuple message and goes on with the rest. */
  ghost predicate Heads(s: seq<byte>, row: seq<byte>, rest: seq<byte>) {
    && |s| >= 2 && Pair(s[0], s[1]) == SQ_TUPLE
    && TupleStatus(s[2..]) == Ok && TupleSize(s[2..]) == |row|
    && s[2..][6..6 + |row|] == row && s[2..][6 + |row| + |row| % 2..] == rest
  }

  ghost predicate Ends(s: seq<byte>, later: seq<byte>) {
    |s| >= 2 && Pair(s[0], s[1]) == SQ_EOT && s[2..] == later
  }

  /** The streams from each row on: every row is at the head of its stream, and after the last the group ends. */
  ghost predicate Sent(rows: seq<seq<byte>>, streams: seq<seq<byte>>, later: seq<byte>) {
    && |streams| == |rows| + 1 && Ends(streams[|rows|], later)
    && forall k :: 0 <= k < |rows| ==> Heads(streams[k], rows[k], streams[k + 1])
  }

  /** The streams from each message of a group on. */
  function StreamsOf(ms: seq<Message>, later: seq<byte>): seq<seq<byte>>
    requires AllValid(ms)
  {
    seq(|ms| + 1, k requires 0 <= k <= |ms| => Group(ms, k) + later)
  }

  lemma GroupSent(ms: seq<Message>, later: seq<byte>)
    requires AllValid(ms)
    ensures Sent(TuplesOf(ms), StreamsOf(ms, later), later)
  {
    forall k | 0 <= k < |ms| ensures Heads(Group(ms, k) + later, ms[k].tuple, Group(ms, k + 1) + later) {
      NextMessage(ms, k, later);
    }
  }

  lemma NextMessage(ms: seq<Message>, k: nat, later: seq<byte>)
    requires k < |ms| && AllValid(ms)
    ensures Heads(Group(ms, k) + later, ms[k].tuple, Group(ms, k + 1) + later)
  {
    var opcode, body, rest := [0, SQ_TUPLE], Body(ms[k]), Group(ms, k + 1);
    assert Group(ms, k) == opcode + body + rest;
    Regroup(opcode, body, rest, later);
    BodyRead(ms[k], body + (rest + later), rest + later);
  }

  // ---- The receiving loop -------------------------------------------------------------------

  /** The first k rows are stored, and the stream from the k-th on is still to be read. */
  ghost predicate Midway(result: ResultSet, reader: Reader, before: seq<seq<byte>>, rows: seq<seq<byte>>,
                         streams: seq<seq<byte>>, k: nat)
    reads result, result.arena, reader, reader.buffer
  {
    && result.Valid() && reader.Valid() && !result.positioned && reader.buffer != result.arena
    && k <= |rows| < |streams| && result.Tuples() == before + rows[..k] && reader.Pending() == streams[k]
  }

  lemma OneMore(before: seq<seq<byte>>, rows: seq<seq<byte>>, k: nat)
    requires k < |rows|
    ensures before + rows[..k] + [rows[k]] == before + rows[..k + 1]
  {
  }

  /** Reads one opcode and, if it announces a tuple, receives that. */
  method ReceiveMessage(result: ResultSet, reader: Reader, newBase: int, memory: Memory,
                        ghost before: seq<seq<byte>>, ghost rows: seq<seq<byte>>, ghost streams: seq<seq<byte>>,
                        ghost k: nat, ghost later: seq<byte>)
    returns (defined: bool, status: Status, ended: bool)
    requires Sent(rows, streams, later) && Midway(result, reader, before, rows, streams, k)
    modifies result, result.arena, reader, reader.buffer
    ensures result.Valid() && reader.Valid() && reader.buffer == old(reader.buffer)
    ensures result.Position() == old(result.Position()) && result.sawError == old(result.sawError)
    ensures (result.arena == old(result.arena) || fresh(result.arena)) && result.used <= old(result.used) + MAX_TUPLE
    ensures |result.rows| == old(|result.rows|) + (if defined && status == Ok && !ended then 1 else 0) <= MAX_ROWS
    ensures if defined && status == Ok && !ended then
              k < |rows| && Midway(result, reader, before, rows, streams, k + 1)
            else result.Tuples() == old(result.Tuples())
    ensures defined && status == Ok && ended ==> k == |rows| && reader.Pending() == later
    ensures reader.reliable && memory == ENOUGH && (k == |rows| || old(result.used) + MAX_TUPLE <= SIZE_MAX / 2) ==>
              && (ended <==> k == |rows|) && (defined <==> ended || old(|result.rows|) < MAX_ROWS)
              && (defined ==> status == Ok)
  {
    defined, ended := true, false;
    DoublingOverflowsExactly(result.rowCapacity);
    assert k < |rows| ==> Heads(streams[k], rows[k], streams[k + 1]);
    var opcode;
    status, opcode := reader.ReadBe16();
    if status != Ok { return; }
    if opcode == SQ_EOT { return true, Ok, true; }
    assert opcode == SQ_TUPLE;
    defined, status := result.ReceiveTuple(reader, newBase, memory);
    OneMore(before, rows, k);
  }

  /** Most bytes so many tuples take in the arena. */
  function Room(n: nat): nat {
    if n == 0 then 0 else Room(n - 1) + MAX_TUPLE
  }

  lemma {:induction false} RoomGrows(k: nat, n: nat)
    requires k <= n
    ensures Room(k) <= Room(n)
  {
    if k < n { RoomGrows(k, n - 1); }
  }

  lemma {:induction false} RoomIsLinear(n: nat)
    ensures Room(n) == 0x400_0000 * n
  {
    if n > 0 { RoomIsLinear(n - 1); }
  }

  /** Receives the messages of a group up to its end. The arena may move with every message. */
  method ReceiveGroup(result: ResultSet, reader: Reader, bases: seq<int>, memory: Memory,
                      ghost rows: seq<seq<byte>>, ghost streams: seq<seq<byte>>, ghost later: seq<byte>)
    returns (defined: bool, status: Status, received: nat)
    requires result.Valid() && Sent(rows, streams, later) && |bases| == |rows|
    requires Midway(result, reader, result.Tuples(), rows, streams, 0)
    modifies result, result.arena, reader, reader.buffer
    ensures result.Valid() && reader.Valid()
    ensures result.Position() == old(result.Position()) && result.sawError == old(result.sawError)
    ensures received <= |rows| && result.Tuples() == old(result.Tuples()) + rows[..received]
    ensures defined && status == Ok ==> received == |rows| && reader.Pending() == later
    ensures reader.reliable && memory == ENOUGH && old(result.used) + Room(|rows|) <= SIZE_MAX / 2 ==>
              && (defined <==> old(|result.rows|) + |rows| <= MAX_ROWS) && (defined ==> status == Ok)
  {
    ghost var before := result.Tuples();
    DoublingOverflowsExactly(result.rowCapacity);
    defined, status, received := true, Ok, 0;
    var ended := false;
    while !ended
      invariant (result.arena == old(result.arena) || fresh(result.arena)) && reader.buffer == old(reader.buffer)
      invariant defined && status == Ok && |result.rows| == old(|result.rows|) + received <= MAX_ROWS
      invariant result.Valid() && reader.Valid() && received <= |rows|
      invariant result.Position() == old(result.Position()) && result.sawError == old(result.sawError)
      invariant result.Tuples() == before + rows[..received]
      invariant if ended then received == |rows| && reader.Pending() == later
                else Midway(result, reader, before, rows, streams, received)
      invariant ended || result.used <= old(result.used) + Room(received)
      decreases |rows| - received, !ended
    {
      if received < |rows| { RoomGrows(received + 1, |rows|); }
      var base := if received < |bases| then bases[received] else 0;
      defined, status, ended :=
        ReceiveMessage(result, reader, base, memory, before, rows, streams, received, later);
      if !defined || status != Ok { return; }
      if !ended { received := received + 1; }
    }
  }

  /** A new result with all that a group carries. */
  method ReceiveAll(columns: seq<Column>, ms: seq<Message>, bases: seq<int>, capacity: nat)
    returns (result: ResultSet, session: Session)
    requires AllValid(ms) && |ms| <= MAX_ROWS && |bases| == |ms| && capacity > 0
    ensures fresh(result) && fresh(session) && result.Valid() && result.columns == columns
    ensures result.Tuples() == TuplesOf(ms) && result.Position() == At(0)
    ensures result.Circumstances(session, true) == NORMAL
  {
    session := new Session();
    var reader := new Reader(Group(ms, 0), capacity, true);
    result := new ResultSet(columns, false, session);
    assert reader.Pending() == Group(ms, 0) + [] == StreamsOf(ms, [])[0];
    RoomIsLinear(|ms|);
    GroupSent(ms, []);
    var defined, status, received :=
      ReceiveGroup(result, reader, bases, ENOUGH, TuplesOf(ms), StreamsOf(ms, []), []);
    assert [] + TuplesOf(ms)[..|ms|] == TuplesOf(ms);
  }

  /** From the server's bytes to the caller's rows: every row up to the first malformed one, byte for byte,
      however the transport cuts the stream and wherever the arena moves. */
  method ReceiveAndFetch(columns: seq<Column>, ms: seq<Message>, bases: seq<int>, capacity: nat)
    returns (delivered: seq<seq<byte>>, status: Status)
    requires AllValid(ms) && |ms| <= MAX_ROWS && |bases| == |ms| && capacity > 0
    ensures var rows := TuplesOf(ms); var w := WellFormedRows(rows, columns, 0);
            delivered == rows[..w] && status == FinalStatus(rows, columns)
  {
    var result, session := ReceiveAll(columns, ms, bases, capacity);
    delivered, status := FetchAll(result, session);
  }
}
