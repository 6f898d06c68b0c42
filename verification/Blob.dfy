/** BLOB data on the wire: the frames the bind path writes (src/sqli_prepare.c:1287-1316) and the loop
    that reads frames back (src/sqli_dispatch.c:322-382 and 445-530). */
module Blob {
  import opened Status
  import opened Arrays
  import opened Transport

  const CHUNK: nat := 1024
  const SQ_EOT: nat := 12
  const SQ_ERR: nat := 13
  const SQ_DONE: nat := 15
  const SQ_BLOB: nat := 39
  const SQ_COST: nat := 55
  const SQ_INFO: nat := 81
  const SQ_LODATA: nat := 97
  const SIZE_MAX: nat := 0xFFFF_FFFF_FFFF_FFFF

  // ---- Frames -------------------------------------------------------------------------------

  /** Opcode, length, bytes, and a padding byte after an odd number of them. */
  function Frame(chunk: seq<byte>): (f: seq<byte>)
    requires |chunk| < 0x1_0000
    ensures |f| == 4 + |chunk| + |chunk| % 2
  {
    [0, SQ_BLOB, |chunk| / 256, |chunk| % 256] + chunk + (if |chunk| % 2 == 1 then [0] else [])
  }

  /** Full frames, the rest in a last one, and an empty frame to end with. */
  function Frames(data: seq<byte>): seq<byte>
    decreases |data|
  {
    if data == [] then Frame([])
    else Frame(data[..Min(CHUNK, |data|)]) + Frames(data[Min(CHUNK, |data|)..])
  }

  lemma FramesStep(data: seq<byte>, at: nat, k: nat)
    requires at < |data| && k == Min(CHUNK, |data| - at)
    ensures Frames(data[at..]) == Frame(data[at..at + k]) + Frames(data[at + k..])
  {
    var tail := data[at..];
    assert tail[..k] == data[at..at + k] && tail[k..] == data[at + k..];
  }

  lemma Regroup(a: seq<byte>, b: seq<byte>, c: seq<byte>)
    ensures a + (b + c) == (a + b) + c
  {
  }

  /** The bytes the transport takes of those in front of it, if it takes so many in all. */
  function Taken(bytes: seq<byte>, budget: nat): seq<byte> {
    bytes[..Min(budget, |bytes|)]
  }

  /** One send: all bytes go out, or the transport has failed behind those it still took. */
  method Send(before: seq<byte>, bytes: seq<byte>, budget: nat) returns (ok: bool, sent: seq<byte>)
    ensures sent == Taken(before + bytes, budget) && (ok <==> |before + bytes| <= budget)
    ensures ok ==> sent == before + bytes
  {
    sent := Taken(before + bytes, budget);
    ok := |before + bytes| <= budget;
  }

  /** Where the transport fails does not depend on what would have followed. */
  lemma CutAnywhere(a: seq<byte>, b: seq<byte>, c: seq<byte>, d: seq<byte>, e: seq<byte>, budget: nat)
    ensures var all := a + (b + c + d) + e;
            && (|a + b| > budget ==> Taken(a + b, budget) == Taken(all, budget))
            && (|a + b + c| > budget ==> Taken(a + b + c, budget) == Taken(all, budget))
            && (|a + b + c + d| > budget ==> Taken(a + b + c + d, budget) == Taken(all, budget))
    ensures a + b + c + d == a + (b + c + d)
  {
  }

  /** Writes the frames of some data, chunk by chunk, until the transport fails. */
  method SendBlob(data: seq<byte>, budget: nat) returns (status: Status, sent: seq<byte>)
    ensures sent == Taken(Frames(data), budget)
    ensures status == if |Frames(data)| <= budget then Ok else IoError
  {
    sent := [];
    var rest: nat, at: nat := |data|, 0;
    assert data[0..] == data && [] + Frames(data) == Frames(data);
    while rest > 0
      invariant at + rest == |data| && sent + Frames(data[at..]) == Frames(data) && |sent| <= budget
    {
      var length := if rest > CHUNK then CHUNK else rest;
      ghost var chunk, others := data[at..at + length], Frames(data[at + length..]);
      FramesStep(data, at, length);
      Regroup(sent, Frame(chunk), others);
      status, sent := SendChunk(sent, data[at..at + length], others, budget);
      if status != Ok { return; }
      at := at + length;
      rest := rest - length;
    }
    assert data[at..] == [];
    assert Frame([]) + [] == Frame([]) && Frames([]) == Frame([]);
    assert sent + Frame([]) + [] == sent + Frame([]);
    status, sent := SendChunk(sent, [], [], budget);
  }

  /** Header, data and padding of a chunk, each a send of its own. */
  method SendChunk(before: seq<byte>, chunk: seq<byte>, ghost others: seq<byte>, budget: nat)
    returns (status: Status, sent: seq<byte>)
    requires |chunk| <= CHUNK && |before| <= budget
    ensures status == if |before + Frame(chunk)| <= budget then Ok else IoError
    ensures sent == if status == Ok then before + Frame(chunk) else Taken(before + Frame(chunk) + others, budget)
  {
    var header := [0, SQ_BLOB, |chunk| / 256, |chunk| % 256];
    var pad := if |chunk| % 2 == 1 then [0] else [];
    CutAnywhere(before, header, chunk, pad, others, budget);
    assert header + chunk + pad == Frame(chunk);
    assert before + header + chunk + pad == before + Frame(chunk);
    var ok;
    ok, sent := Send(before, header, budget);
    if !ok { return IoError, sent; }
    ok, sent := Send(sent, chunk, budget);
    if !ok { return IoError, sent; }
    ok, sent := Send(sent, pad, budget);
    if !ok { return IoError, sent; }
    return Ok, sent;
  }

  // ---- Reading frames -----------------------------------------------------------------------

  datatype Outcome = Failed(status: Status) | Read(data: seq<byte>, end: nat)

  /** Outcome of reading from a position of the stream: the data and where reading stops. Frames may be
      mixed with large object data and with cost, done and info messages, whose payload is skipped. */
  function ReadFrom(s: seq<byte>, at: nat): (r: Outcome)
    requires at <= |s|
    ensures r.Read? ==> r.end <= |s|
    decreases |s| - at, 0
  {
    if at + 2 > |s| then Failed(IoError)
    else
      var opcode := Pair(s[at], s[at + 1]);
      if opcode == SQ_EOT then Read([], at + 2)
      else if opcode == SQ_COST then Skip(s, at + 2, 8)
      else if opcode == SQ_DONE then Skip(s, at + 2, 22)
      else if opcode == SQ_INFO then SkipInfo(s, at + 2)
      else if opcode == SQ_LODATA then LoData(s, at + 2)
      else if opcode == SQ_ERR then Failed(if at + 6 > |s| then IoError else ProtoError)
      else if opcode != SQ_BLOB then Failed(ProtoError)
      else if at + 4 > |s| then Failed(IoError)
      else
        var n := Pair(s[at + 2], s[at + 3]);
        var end := at + 4 + n + n % 2;
        if end > |s| then Failed(IoError) else Prepended(s[at + 4..at + 4 + n], ReadFrom(s, end))
  }

  function Skip(s: seq<byte>, at: nat, count: nat): (r: Outcome)
    requires at <= |s| && count > 0
    ensures r.Read? ==> r.end <= |s|
    decreases |s| - at, 1
  {
    if at + count > |s| then Failed(IoError) else ReadFrom(s, at + count)
  }

  /** Items of a type, a length and padded data, up to one of type zero. */
  function SkipInfo(s: seq<byte>, at: nat): (r: Outcome)
    requires at <= |s|
    ensures r.Read? ==> r.end <= |s|
    decreases |s| - at, 1
  {
    if at + 2 > |s| then Failed(IoError)
    else if Pair(s[at], s[at + 1]) == 0 then ReadFrom(s, at + 2)
    else if at + 4 > |s| then Failed(IoError)
    else
      var n := Pair(s[at + 2], s[at + 3]);
      if at + 4 + n + n % 2 > |s| then Failed(IoError) else SkipInfo(s, at + 4 + n + n % 2)
  }

  /** An operation, a signed size that must not be negative, and chunks up to that size. */
  function LoData(s: seq<byte>, at: nat): (r: Outcome)
    requires at <= |s|
    ensures r.Read? ==> r.end <= |s|
    decreases |s| - at, 2
  {
    if at + 6 > |s| then Failed(IoError)
    else if Be32(s[at + 2..at + 6]) > INT32_MAX then Failed(ProtoError)
    else Chunks(s, at + 6, Be32(s[at + 2..at + 6]))
  }

  function Chunks(s: seq<byte>, at: nat, remaining: nat): (r: Outcome)
    requires at <= |s|
    ensures r.Read? ==> r.end <= |s|
    decreases |s| - at, 1
  {
    if remaining == 0 then ReadFrom(s, at)
    else if at + 2 > |s| then Failed(IoError)
    else
      var n := Pair(s[at], s[at + 1]);
      if n > remaining then Failed(ProtoError)
      else if at + 2 + n + n % 2 > |s| then Failed(IoError)
      else Prepended(s[at + 2..at + 2 + n], Chunks(s, at + 2 + n + n % 2, remaining - n))
  }

  function Prepended(data: seq<byte>, r: Outcome): Outcome {
    match r
    case Failed(e) => Failed(e)
    case Read(rest, end) => Read(data + rest, end)
  }

  /** The stream holds m at a position. */
  ghost predicate Holds(s: seq<byte>, at: nat, m: seq<byte>) {
    at + |m| <= |s| && s[at..at + |m|] == m
  }

  lemma HoldsParts(s: seq<byte>, at: nat, a: seq<byte>, b: seq<byte>)
    requires Holds(s, at, a + b)
    ensures Holds(s, at, a) && Holds(s, at + |a|, b)
  {
    var m := s[at..at + |a| + |b|];
    assert a == m[..|a|] && b == m[|a|..];
  }

  /** A frame in the stream is read as its bytes, followed by whatever comes after it. */
  lemma FrameRead(s: seq<byte>, at: nat, chunk: seq<byte>)
    requires |chunk| < 0x1_0000 && Holds(s, at, Frame(chunk))
    ensures ReadFrom(s, at) == Prepended(chunk, ReadFrom(s, at + |Frame(chunk)|))
  {
    FrameParts(chunk);
    var f, m := Frame(chunk), s[at..at + |Frame(chunk)|];
    assert m[0] == s[at] && m[1] == s[at + 1] && m[2] == s[at + 2] && m[3] == s[at + 3];
    SubSlice(s, at, at + |f|, 4, 4 + |chunk|);
  }

  lemma FrameParts(chunk: seq<byte>)
    requires |chunk| < 0x1_0000
    ensures var f := Frame(chunk);
            && f[0] == 0 && f[1] == SQ_BLOB && Pair(f[2], f[3]) == |chunk| && f[4..4 + |chunk|] == chunk
  {
  }

  const END: seq<byte> := [0, SQ_EOT]

  lemma EndRead(s: seq<byte>, at: nat)
    requires Holds(s, at, END)
    ensures ReadFrom(s, at) == Read([], at + 2)
  {
    assert s[at] == s[at..at + 2][0] && s[at + 1] == s[at..at + 2][1];
  }

  /** Reading the frames of some data followed by the end of the message gives the data back. */
  lemma {:induction false} FramesRead(s: seq<byte>, at: nat, data: seq<byte>)
    requires Holds(s, at, Frames(data) + END)
    ensures ReadFrom(s, at) == Read(data, at + |Frames(data)| + 2)
    decreases |data|
  {
    HoldsParts(s, at, Frames(data), END);
    if data == [] {
      LastFrameRead(s, at);
    } else {
      var k := Min(CHUNK, |data|);
      var middle := at + |Frame(data[..k])|;
      FirstFrameRead(s, at, data, k);
      FramesRead(s, middle, data[k..]);
      FirstAndRest(s, at, data, k, middle, middle + |Frames(data[k..])| + 2);
    }
  }

  lemma FirstFrameRead(s: seq<byte>, at: nat, data: seq<byte>, k: nat)
    requires data != [] && k == Min(CHUNK, |data|)
    requires Holds(s, at, Frames(data)) && Holds(s, at + |Frames(data)|, END)
    ensures var middle := at + |Frame(data[..k])|;
            && at <= middle <= |s| && Holds(s, middle, Frames(data[k..]) + END)
            && middle + |Frames(data[k..])| == at + |Frames(data)|
            && ReadFrom(s, at) == Prepended(data[..k], ReadFrom(s, middle))
  {
    FramesHeld(s, at, data, k);
    FramesSize(data, k);
    FrameRead(s, at, data[..k]);
  }

  lemma LastFrameRead(s: seq<byte>, at: nat)
    requires Holds(s, at, Frames([])) && Holds(s, at + |Frames([])|, END)
    ensures ReadFrom(s, at) == Read([], at + |Frames([])| + 2)
  {
    assert Frames([]) == Frame([]) && |Frame([])| == 4;
    FrameRead(s, at, []);
    EndRead(s, at + 4);
    var none: seq<byte> := [];
    assert none + none == none;
  }

  /** The first frame read, and by induction the rest. */
  lemma FirstAndRest(s: seq<byte>, at: nat, data: seq<byte>, k: nat, middle: nat, end: nat)
    requires k <= |data| && at <= |s| && middle <= |s|
    requires ReadFrom(s, at) == Prepended(data[..k], ReadFrom(s, middle))
    requires ReadFrom(s, middle) == Read(data[k..], end)
    ensures ReadFrom(s, at) == Read(data, end)
  {
    assert data[..k] + data[k..] == data;
  }

  /** A stream cut anywhere before its end is refused: no part of it is taken for the whole. */
  lemma {:induction false} CutIsRefused(s: seq<byte>, at: nat, k: nat)
    requires at <= k <= |s| && ReadFrom(s, at).Read? && k < ReadFrom(s, at).end
    ensures ReadFrom(s[..k], at) == Failed(IoError)
    decreases |s| - at, 0
  {
    if at + 2 <= k {
      var opcode := Pair(s[at], s[at + 1]);
      if opcode == SQ_COST || opcode == SQ_DONE {
        var end := at + 2 + if opcode == SQ_COST then 8 else 22;
        if end <= k { CutIsRefused(s, end, k); }
      } else if opcode == SQ_INFO {
        CutInfo(s, at + 2, k);
      } else if opcode == SQ_LODATA {
        if at + 8 <= k {
          assert s[..k][at + 4..at + 8] == s[at + 4..at + 8];
          CutChunks(s, at + 8, Be32(s[at + 4..at + 8]), k);
        }
      } else if opcode == SQ_BLOB && at + 4 <= k {
        var n := Pair(s[at + 2], s[at + 3]);
        if at + 4 + n + n % 2 <= k { CutIsRefused(s, at + 4 + n + n % 2, k); }
      }
    }
  }

  lemma {:induction false} CutInfo(s: seq<byte>, at: nat, k: nat)
    requires at <= k <= |s| && SkipInfo(s, at).Read? && k < SkipInfo(s, at).end
    ensures SkipInfo(s[..k], at) == Failed(IoError)
    decreases |s| - at, 1
  {
    if at + 2 <= k {
      if Pair(s[at], s[at + 1]) == 0 {
        CutIsRefused(s, at + 2, k);
      } else if at + 4 <= k {
        var n := Pair(s[at + 2], s[at + 3]);
        if at + 4 + n + n % 2 <= k { CutInfo(s, at + 4 + n + n % 2, k); }
      }
    }
  }

  lemma {:induction false} CutChunks(s: seq<byte>, at: nat, remaining: nat, k: nat)
    requires at <= k <= |s| && Chunks(s, at, remaining).Read? && k < Chunks(s, at, remaining).end
    ensures Chunks(s[..k], at, remaining) == Failed(IoError)
    decreases |s| - at, 1
  {
    if remaining == 0 {
      CutIsRefused(s, at, k);
    } else if at + 2 <= k {
      var n := Pair(s[at], s[at + 1]);
      if at + 2 + n + n % 2 <= k { CutChunks(s, at + 2 + n + n % 2, remaining - n, k); }
    }
  }

  lemma FramesSize(data: seq<byte>, k: nat)
    requires data != [] && k == Min(CHUNK, |data|)
    ensures |Frames(data)| == |Frame(data[..k])| + |Frames(data[k..])|
  {
  }

  lemma FramesHeld(s: seq<byte>, at: nat, data: seq<byte>, k: nat)
    requires data != [] && k == Min(CHUNK, |data|) && Holds(s, at, Frames(data) + END)
    ensures Holds(s, at, Frame(data[..k])) && Holds(s, at + |Frame(data[..k])|, Frames(data[k..]) + END)
  {
    var f, rest := Frame(data[..k]), Frames(data[k..]);
    Regroup(f, rest, END);
    HoldsParts(s, at, f, rest + END);
  }

  // ---- A growing buffer ---------------------------------------------------------------------

  class ByteBuffer {
    var data: array<byte>
    var length: nat

    ghost predicate Valid()
      reads this
    {
      length <= data.Length
    }

    ghost function Contents(): seq<byte>
      reads this, data
      requires Valid()
    {
      data[..length]
    }

    constructor ()
      ensures Valid() && fresh(data) && Contents() == []
    {
      data := new byte[0];
      length := 0;
    }

    /** Doubles the capacity until it reaches what is needed. */
    method Grow(need: nat, memory: bool) returns (status: Status)
      requires Valid() && need > data.Length
      modifies this`data
      ensures Valid() && status in {Ok, AllocFail} && Contents() == old(Contents())
      ensures if status == Ok then fresh(data) && data.Length >= need else data == old(data)
      ensures memory && need <= SIZE_MAX / 2 ==> status == Ok
    {
      ghost var before := Contents();
      var capacity := if data.Length == 0 then 256 else data.Length;
      while capacity < need
        invariant capacity > 0
        decreases need - capacity
      {
        if capacity > SIZE_MAX / 2 { return AllocFail; }
        capacity := capacity * 2;
      }
      if !memory { return AllocFail; }
      var grown := new byte[capacity];
      CopyInto(grown, 0, data, length);
      data := grown;
      assert data[..length] == data[0..length] == before;
      return Ok;
    }

    /** Appends bytes, doubling the capacity until they fit. */
    method Append(source: array<byte>, count: nat, memory: bool) returns (status: Status)
      requires Valid() && count <= source.Length && source != data
      modifies this, data
      ensures Valid() && (data == old(data) || fresh(data)) && status in {Ok, AllocFail}
      ensures Contents() == if status == Ok then old(Contents()) + source[..count] else old(Contents())
      ensures memory && old(length) + count <= SIZE_MAX / 2 ==> status == Ok
    {
      ghost var before, piece := Contents(), source[..count];
      if count == 0 {
        assert before + piece == before;
        return Ok;
      }
      if length > SIZE_MAX - count { return AllocFail; }
      var need := length + count;
      if need > data.Length {
        status := Grow(need, memory);
        if status != Ok { return; }
      }
      assert data[..length] == before;
      CopyInto(data, length, source, count);
      assert data[..length] == before && data[length..length + count] == piece;
      assert data[..length + count] == data[..length] + data[length..length + count];
      length := length + count;
      return Ok;
    }
  }

  // ---- The reading loop ---------------------------------------------------------------------

  lemma Rest(s: seq<byte>, a: nat, b: nat)
    requires a + b <= |s|
    ensures s[a..][b..] == s[a + b..] && s[a..][..b] == s[a..a + b]
  {
  }

  /** Reads one chunk and its padding, and appends the chunk. */
  method ReadPaddedChunk(reader: Reader, n: nat, accumulated: ByteBuffer, memory: bool, ghost s: seq<byte>,
                         ghost at: nat)
    returns (status: Status)
    requires reader.Valid() && accumulated.Valid() && accumulated.data != reader.buffer
    requires at <= |s| && reader.Pending() == s[at..]
    modifies reader`unread, reader`position, reader`limit, reader.buffer, accumulated, accumulated.data
    ensures reader.Valid() && accumulated.Valid() &&
            (accumulated.data == old(accumulated.data) || fresh(accumulated.data))
    ensures status in {Ok, IoError, AllocFail}
    ensures status == Ok ==>
              && at + n + n % 2 <= |s| && reader.Pending() == s[at + n + n % 2..]
              && accumulated.Contents() == old(accumulated.Contents()) + s[at..at + n]
    ensures status == IoError && reader.reliable ==> at + n + n % 2 > |s|
    ensures status == AllocFail && memory ==> at + n + n % 2 <= |s| && old(accumulated.length) + n > SIZE_MAX / 2
  {
    if n > 4096 && !memory { return AllocFail; }
    var chunk;
    status, chunk := ReadPadded(reader, n, s, at);
    if status != Ok { return; }
    status := accumulated.Append(chunk, n, memory);
  }

  method ReadPadded(reader: Reader, n: nat, ghost s: seq<byte>, ghost at: nat)
    returns (status: Status, chunk: array<byte>)
    requires reader.Valid() && at <= |s| && reader.Pending() == s[at..]
    modifies reader`unread, reader`position, reader`limit, reader.buffer
    ensures reader.Valid() && status in {Ok, IoError} && fresh(chunk) && chunk.Length == n
    ensures status == Ok ==>
              at + n + n % 2 <= |s| && reader.Pending() == s[at + n + n % 2..] && chunk[..n] == s[at..at + n]
    ensures status == IoError && reader.reliable ==> at + n + n % 2 > |s|
  {
    chunk := new byte[n];
    status := reader.ReadExact(chunk, 0, n);
    if status != Ok { return; }
    Rest(s, at, n);
    assert chunk[..n] == chunk[0..n];
    if n % 2 == 1 {
      status := reader.ReadPad();
      if status == Ok { Rest(s, at + n, 1); }
    }
  }

  /** What reading so far has found: a part of the data, with the rest still to come. */
  ghost predicate SoFar(s: seq<byte>, at: nat, found: seq<byte>) {
    at <= |s| && ReadFrom(s, 0) == Prepended(found, ReadFrom(s, at))
  }

  lemma ChunkFound(s: seq<byte>, at: nat, found: seq<byte>, n: nat)
    requires SoFar(s, at, found) && at + 4 + n + n % 2 <= |s|
    requires Pair(s[at], s[at + 1]) == SQ_BLOB && n == Pair(s[at + 2], s[at + 3])
    ensures SoFar(s, at + 4 + n + n % 2, found + s[at + 4..at + 4 + n])
  {
    var chunk, rest := s[at + 4..at + 4 + n], ReadFrom(s, at + 4 + n + n % 2);
    assert ReadFrom(s, at) == Prepended(chunk, rest);
    PrependTwice(found, chunk, rest);
  }

  lemma PrependTwice(a: seq<byte>, b: seq<byte>, r: Outcome)
    ensures Prepended(a, Prepended(b, r)) == Prepended(a + b, r)
  {
    if r.Read? { Regroup(a, b, r.data); }
  }

  method DrainBytes(reader: Reader, count: nat) returns (status: Status)
    requires reader.Valid()
    modifies reader`unread, reader`position, reader`limit, reader.buffer
    ensures reader.Valid() && status in {Ok, IoError}
    ensures status == Ok ==>
              count <= |old(reader.Pending())| && reader.Pending() == old(reader.Pending())[count..]
    ensures reader.reliable && count <= |old(reader.Pending())| ==> status == Ok
  {
    ghost var all := reader.Pending();
    var left: nat := count;
    var scratch := new byte[256];
    while left > 0
      invariant reader.Valid() && left <= count && count - left <= |all|
      invariant reader.Pending() == all[count - left..]
    {
      var chunk := if left > 256 then 256 else left;
      status := reader.ReadExact(scratch, 0, chunk);
      if status != Ok { return; }
      assert all[count - left..][chunk..] == all[count - left + chunk..];
      left := left - chunk;
    }
    return Ok;
  }

  lemma NothingFound(s: seq<byte>)
    ensures SoFar(s, 0, [])
  {
    var r := ReadFrom(s, 0);
    if r.Read? { assert [] + r.data == r.data; }
  }

  lemma AllFound(s: seq<byte>, at: nat, found: seq<byte>)
    requires SoFar(s, at, found) && at + 2 <= |s| && Pair(s[at], s[at + 1]) == SQ_EOT
    ensures ReadFrom(s, 0) == Read(found, at + 2)
  {
    assert found + [] == found;
  }

  lemma Skipped(s: seq<byte>, at: nat, found: seq<byte>, opcode: nat, count: nat)
    requires SoFar(s, at, found) && at + 2 <= |s| && opcode == Pair(s[at], s[at + 1])
    requires (opcode == SQ_COST && count == 8) || (opcode == SQ_DONE && count == 22)
    ensures at + 2 + count <= |s| ==> SoFar(s, at + 2 + count, found)
    ensures at + 2 + count > |s| ==> ReadFrom(s, 0) == Failed(IoError)
  {
    assert ReadFrom(s, at) == Skip(s, at + 2, count);
    if at + 2 + count <= |s| { assert Skip(s, at + 2, count) == ReadFrom(s, at + 2 + count); }
  }

  lemma FrameCut(s: seq<byte>, at: nat, found: seq<byte>)
    requires SoFar(s, at, found) && at + 2 <= |s| && Pair(s[at], s[at + 1]) == SQ_BLOB
    requires at + 4 <= |s| ==> var n := Pair(s[at + 2], s[at + 3]); at + 4 + n + n % 2 > |s|
    ensures ReadFrom(s, 0) == Failed(IoError)
  {
  }

  /** Reading has come to a position of the stream and collected what SoFar says. */
  ghost predicate InProgress(reader: Reader, accumulated: ByteBuffer, s: seq<byte>, at: nat)
    reads reader, reader.buffer, accumulated, accumulated.data
  {
    && reader.Valid() && accumulated.Valid() && accumulated.data != reader.buffer
    && SoFar(s, at, accumulated.Contents()) && reader.Pending() == s[at..] && accumulated.length <= at
  }

  /** Reads one message; finished at the end of the group. next is the position reached in the stream. */
  method ReadMessage(reader: Reader, accumulated: ByteBuffer, memory: bool, ghost s: seq<byte>, ghost at: nat)
    returns (status: Status, finished: bool, ghost next: nat)
    requires InProgress(reader, accumulated, s, at)
    modifies reader`unread, reader`position, reader`limit, reader.buffer, accumulated, accumulated.data
    ensures reader.Valid() && accumulated.Valid() &&
            (accumulated.data == old(accumulated.data) || fresh(accumulated.data))
    ensures status == Ok ==> at < next <= |s|
    ensures status == Ok && !finished ==> InProgress(reader, accumulated, s, next)
    ensures status == Ok && finished ==>
              reader.Pending() == s[next..] && ReadFrom(s, 0) == Read(accumulated.Contents(), next)
    ensures status != Ok && reader.reliable && memory && |s| <= SIZE_MAX / 2 ==> ReadFrom(s, 0) == Failed(status)
  {
    var opcode;
    finished, next := false, at;
    status, opcode := reader.ReadBe16();
    if status != Ok { return; }
    Rest(s, at, 2);
    if opcode == SQ_EOT {
      AllFound(s, at, accumulated.Contents());
      finished, next := true, at + 2;
    } else if opcode == SQ_COST || opcode == SQ_DONE {
      var count := if opcode == SQ_COST then 8 else 22;
      Skipped(s, at, accumulated.Contents(), opcode, count);
      status := DrainBytes(reader, count);
      next := at + 2 + count;
      if status == Ok { Rest(s, at + 2, count); }
    } else if opcode == SQ_INFO {
      status, next := ReadInfo(reader, s, at + 2);
    } else if opcode == SQ_LODATA {
      status, next := ReadLargeObject(reader, accumulated, memory, s, at);
    } else if opcode == SQ_BLOB {
      status, next := ReadFrame(reader, accumulated, memory, s, at);
    } else if opcode == SQ_ERR {
      status := ReadError(reader);
    } else {
      status := ProtoError;
    }
  }

  /** Reads the two codes of an error message. Whatever follows them, and whether it arrives, the group is given
      up with PROTO_ERROR; only without the codes it is IO_ERROR. */
  method ReadError(reader: Reader) returns (status: Status)
    requires reader.Valid()
    modifies reader`unread, reader`position, reader`limit, reader.buffer
    ensures reader.Valid() && status in {IoError, ProtoError}
    ensures status == ProtoError ==> |old(reader.Pending())| >= 4
    ensures reader.reliable && |old(reader.Pending())| >= 4 ==> status == ProtoError
  {
    var code;
    status, code := reader.ReadBe16();
    if status != Ok { return; }
    status, code := reader.ReadBe16();
    if status != Ok { return; }
    return ProtoError;
  }

  /** What the next item of an info message means for what follows. */
  lemma NextItem(s: seq<byte>, at: nat)
    requires at <= |s|
    ensures at + 2 > |s| ==> SkipInfo(s, at) == Failed(IoError)
    ensures at + 2 <= |s| && Pair(s[at], s[at + 1]) == 0 ==> SkipInfo(s, at) == ReadFrom(s, at + 2)
    ensures at + 2 <= |s| && Pair(s[at], s[at + 1]) != 0 ==>
              if at + 4 > |s| then SkipInfo(s, at) == Failed(IoError)
              else
                var n := Pair(s[at + 2], s[at + 3]);
                SkipInfo(s, at)
                == if at + 4 + n + n % 2 > |s| then Failed(IoError) else SkipInfo(s, at + 4 + n + n % 2)
  {
  }

  /** Skips the items of an info message. */
  method ReadInfo(reader: Reader, ghost s: seq<byte>, ghost at: nat) returns (status: Status, ghost next: nat)
    requires reader.Valid() && at <= |s| && reader.Pending() == s[at..]
    modifies reader`unread, reader`position, reader`limit, reader.buffer
    ensures reader.Valid() && status in {Ok, IoError}
    ensures status == Ok ==> at <= next <= |s| && reader.Pending() == s[next..] && SkipInfo(s, at) == ReadFrom(s, next)
    ensures status != Ok && reader.reliable ==> SkipInfo(s, at) == Failed(status)
  {
    next := at;
    var last := false;
    while !last
      invariant reader.Valid() && at <= next <= |s| && reader.Pending() == s[next..]
      invariant SkipInfo(s, at) == if last then ReadFrom(s, next) else SkipInfo(s, next)
      decreases !last, |s| - next
    {
      status, last, next := ReadItem(reader, s, next);
      if status != Ok { return; }
    }
    status := Ok;
  }

  /** Reads the type of an item and skips the item, unless it is the last one. */
  method ReadItem(reader: Reader, ghost s: seq<byte>, ghost at: nat)
    returns (status: Status, last: bool, ghost next: nat)
    requires reader.Valid() && at <= |s| && reader.Pending() == s[at..]
    modifies reader`unread, reader`position, reader`limit, reader.buffer
    ensures reader.Valid() && status in {Ok, IoError}
    ensures status == Ok ==>
              && at < next <= |s| && reader.Pending() == s[next..]
              && SkipInfo(s, at) == if last then ReadFrom(s, next) else SkipInfo(s, next)
    ensures status != Ok && reader.reliable ==> SkipInfo(s, at) == Failed(status)
  {
    var item;
    last, next := false, at;
    NextItem(s, at);
    status, item := reader.ReadBe16();
    if status != Ok { return; }
    Rest(s, at, 2);
    if item == 0 { return Ok, true, at + 2; }
    status, next := SkipItem(reader, s, at);
  }

  /** Skips the data of one item. */
  method SkipItem(reader: Reader, ghost s: seq<byte>, ghost at: nat) returns (status: Status, ghost next: nat)
    requires reader.Valid() && at + 2 <= |s| && reader.Pending() == s[at + 2..]
    modifies reader`unread, reader`position, reader`limit, reader.buffer
    ensures reader.Valid() && status in {Ok, IoError}
    ensures status == Ok ==>
              && at + 4 <= |s| && next == at + 4 + Pair(s[at + 2], s[at + 3]) + Pair(s[at + 2], s[at + 3]) % 2 <= |s|
              && reader.Pending() == s[next..]
    ensures status != Ok && reader.reliable && at + 4 <= |s| ==>
              at + 4 + Pair(s[at + 2], s[at + 3]) + Pair(s[at + 2], s[at + 3]) % 2 > |s|
  {
    var n;
    next := at;
    status, n := reader.ReadBe16();
    if status != Ok { return; }
    Rest(s, at + 2, 2);
    next := at + 4 + n + n % 2;
    status := DrainBytes(reader, n + n % 2);
    if status == Ok { Rest(s, at + 4, n + n % 2); }
  }

  lemma ObjectHeader(s: seq<byte>, at: nat, found: seq<byte>)
    requires SoFar(s, at, found) && at + 2 <= |s| && Pair(s[at], s[at + 1]) == SQ_LODATA
    ensures at + 8 > |s| ==> ReadFrom(s, 0) == Failed(IoError)
    ensures at + 8 <= |s| ==>
              var size := Be32(s[at + 4..at + 8]);
              if size > INT32_MAX then ReadFrom(s, 0) == Failed(ProtoError) else ChunksSoFar(s, at + 8, size, found)
  {
    assert ReadFrom(s, at) == LoData(s, at + 2);
  }

  method ReadLargeObject(reader: Reader, accumulated: ByteBuffer, memory: bool, ghost s: seq<byte>, ghost at: nat)
    returns (status: Status, ghost next: nat)
    requires reader.Valid() && accumulated.Valid() && accumulated.data != reader.buffer
    requires SoFar(s, at, accumulated.Contents()) && at + 2 <= |s| && reader.Pending() == s[at + 2..]
    requires Pair(s[at], s[at + 1]) == SQ_LODATA && accumulated.length <= at
    modifies reader`unread, reader`position, reader`limit, reader.buffer, accumulated, accumulated.data
    ensures reader.Valid() && accumulated.Valid() &&
            (accumulated.data == old(accumulated.data) || fresh(accumulated.data))
    ensures status == Ok ==> at < next <= |s| && InProgress(reader, accumulated, s, next)
    ensures status != Ok && reader.reliable && memory && |s| <= SIZE_MAX / 2 ==> ReadFrom(s, 0) == Failed(status)
  {
    ghost var found := accumulated.Contents();
    next := at;
    ObjectHeader(s, at, found);
    var operation, size;
    status, operation := reader.ReadBe16();
    if status != Ok { return; }
    Rest(s, at + 2, 2);
    status, size := reader.ReadBe32();
    if status != Ok { return; }
    Rest(s, at + 4, 4);
    Be32Prefix(s, at + 4);
    if size > INT32_MAX { return ProtoError, at; }
    status, next := ReadChunks(reader, size, accumulated, memory, s, at + 8);
  }

  /** Chunks found so far, with the rest of a large object still to come. */
  ghost predicate ChunksSoFar(s: seq<byte>, at: nat, remaining: nat, found: seq<byte>) {
    at <= |s| && ReadFrom(s, 0) == Prepended(found, Chunks(s, at, remaining))
  }

  /** How taking the next chunk of an object ends: with its length, or as the stream demands. */
  ghost predicate ChunkTaken(s: seq<byte>, at: nat, remaining: nat, status: Status, n: nat) {
    match status
    case Ok => at + 2 <= |s| && n == Pair(s[at], s[at + 1]) <= remaining && at + 2 + n + n % 2 <= |s|
    case ProtoError => at + 2 <= |s| && Pair(s[at], s[at + 1]) > remaining
    case IoError =>
      at + 2 <= |s| ==> var m := Pair(s[at], s[at + 1]); m <= remaining && at + 2 + m + m % 2 > |s|
    case _ => false
  }

  lemma NextChunk(s: seq<byte>, at: nat, remaining: nat, found: seq<byte>, status: Status, n: nat)
    requires ChunksSoFar(s, at, remaining, found) && remaining > 0 && ChunkTaken(s, at, remaining, status, n)
    ensures if status == Ok then ChunksSoFar(s, at + 2 + n + n % 2, remaining - n, found + s[at + 2..at + 2 + n])
            else ReadFrom(s, 0) == Failed(status)
  {
    if status == Ok {
      PrependTwice(found, s[at + 2..at + 2 + n], Chunks(s, at + 2 + n + n % 2, remaining - n));
    }
  }

  /** Reading has come to a chunk of a large object. */
  ghost predicate InObject(reader: Reader, accumulated: ByteBuffer, s: seq<byte>, at: nat, remaining: nat)
    reads reader, reader.buffer, accumulated, accumulated.data
  {
    && reader.Valid() && accumulated.Valid() && accumulated.data != reader.buffer
    && ChunksSoFar(s, at, remaining, accumulated.Contents()) && reader.Pending() == s[at..] && accumulated.length <= at
  }

  method ReadChunks(reader: Reader, size: nat, accumulated: ByteBuffer, memory: bool, ghost s: seq<byte>, ghost at: nat)
    returns (status: Status, ghost next: nat)
    requires InObject(reader, accumulated, s, at, size)
    modifies reader`unread, reader`position, reader`limit, reader.buffer, accumulated, accumulated.data
    ensures reader.Valid() && accumulated.Valid() &&
            (accumulated.data == old(accumulated.data) || fresh(accumulated.data))
    ensures status == Ok ==> at <= next <= |s| && InProgress(reader, accumulated, s, next)
    ensures status != Ok && reader.reliable && memory && |s| <= SIZE_MAX / 2 ==> ReadFrom(s, 0) == Failed(status)
  {
    status, next := Ok, at;
    var remaining := size;
    while remaining > 0
      invariant accumulated.data == old(accumulated.data) || fresh(accumulated.data)
      invariant at <= next <= |s| && status == Ok && InObject(reader, accumulated, s, next, remaining)
      decreases |s| - next
    {
      var n;
      status, n, next := ReadOneChunk(reader, remaining, accumulated, memory, s, next);
      if status != Ok { return; }
      remaining := remaining - n;
    }
  }

  /** A big-endian length at a position of the stream. */
  method ReadLength(reader: Reader, ghost s: seq<byte>, ghost at: nat) returns (status: Status, n: nat)
    requires reader.Valid() && at <= |s| && reader.Pending() == s[at..]
    modifies reader`unread, reader`position, reader`limit, reader.buffer
    ensures reader.Valid() && status in {Ok, IoError}
    ensures status == Ok ==> at + 2 <= |s| && n == Pair(s[at], s[at + 1]) && reader.Pending() == s[at + 2..]
    ensures status != Ok && reader.reliable ==> at + 2 > |s|
  {
    status, n := reader.ReadBe16();
    if status == Ok { Rest(s, at, 2); }
  }

  method ReadOneChunk(reader: Reader, remaining: nat, accumulated: ByteBuffer, memory: bool,
                      ghost s: seq<byte>, ghost at: nat)
    returns (status: Status, n: nat, ghost next: nat)
    requires remaining > 0 && InObject(reader, accumulated, s, at, remaining)
    modifies reader`unread, reader`position, reader`limit, reader.buffer, accumulated, accumulated.data
    ensures reader.Valid() && accumulated.Valid() &&
            (accumulated.data == old(accumulated.data) || fresh(accumulated.data))
    ensures status == Ok ==>
              n <= remaining && at < next <= |s| && InObject(reader, accumulated, s, next, remaining - n)
    ensures status != Ok && reader.reliable && memory && |s| <= SIZE_MAX / 2 ==> ReadFrom(s, 0) == Failed(status)
  {
    ghost var found := accumulated.Contents();
    status, n := TakeChunk(reader, remaining, accumulated, memory, s, at);
    next := at + 2 + n + n % 2;
    if ChunkTaken(s, at, remaining, status, n) { NextChunk(s, at, remaining, found, status, n); }
    assert status == Ok ==> |accumulated.Contents()| == |found| + n;
  }

  /** Reads the length of a chunk, its data and its padding. */
  method TakeChunk(reader: Reader, remaining: nat, accumulated: ByteBuffer, memory: bool,
                   ghost s: seq<byte>, ghost at: nat)
    returns (status: Status, n: nat)
    requires reader.Valid() && accumulated.Valid() && accumulated.data != reader.buffer
    requires accumulated.length <= at <= |s| && reader.Pending() == s[at..]
    modifies reader`unread, reader`position, reader`limit, reader.buffer, accumulated, accumulated.data
    ensures reader.Valid() && accumulated.Valid() &&
            (accumulated.data == old(accumulated.data) || fresh(accumulated.data))
    ensures status == Ok ==>
              && ChunkTaken(s, at, remaining, Ok, n) && reader.Pending() == s[at + 2 + n + n % 2..]
              && accumulated.Contents() == old(accumulated.Contents()) + s[at + 2..at + 2 + n]
    ensures status != Ok && reader.reliable && memory && |s| <= SIZE_MAX / 2 ==> ChunkTaken(s, at, remaining, status, n)
  {
    status, n := ReadLength(reader, s, at);
    if status != Ok { return; }
    if n > remaining { return ProtoError, n; }
    status := ReadPaddedChunk(reader, n, accumulated, memory, s, at + 2);
  }

  method ReadFrame(reader: Reader, accumulated: ByteBuffer, memory: bool, ghost s: seq<byte>, ghost at: nat)
    returns (status: Status, ghost next: nat)
    requires reader.Valid() && accumulated.Valid() && accumulated.data != reader.buffer
    requires SoFar(s, at, accumulated.Contents()) && at + 2 <= |s| && reader.Pending() == s[at + 2..]
    requires Pair(s[at], s[at + 1]) == SQ_BLOB && accumulated.length <= at
    modifies reader`unread, reader`position, reader`limit, reader.buffer, accumulated, accumulated.data
    ensures reader.Valid() && accumulated.Valid() &&
            (accumulated.data == old(accumulated.data) || fresh(accumulated.data))
    ensures status == Ok ==> at < next <= |s| && InProgress(reader, accumulated, s, next)
    ensures status != Ok && reader.reliable && memory && |s| <= SIZE_MAX / 2 ==> ReadFrom(s, 0) == Failed(status)
  {
    var n;
    ghost var found := accumulated.Contents();
    next := at;
    if at + 4 > |s| { FrameCut(s, at, found); }
    status, n := reader.ReadBe16();
    if status != Ok { return; }
    Rest(s, at + 2, 2);
    next := at + 4 + n + n % 2;
    if next > |s| { FrameCut(s, at, found); } else { ChunkFound(s, at, found, n); }
    status := ReadChunk(reader, n, accumulated, memory, s, at, next, found);
  }

  method ReadChunk(reader: Reader, n: nat, accumulated: ByteBuffer, memory: bool, ghost s: seq<byte>, ghost at: nat,
                   ghost next: nat, ghost found: seq<byte>)
    returns (status: Status)
    requires reader.Valid() && accumulated.Valid() && accumulated.data != reader.buffer
    requires found == accumulated.Contents() && at + 4 <= |s| && next == at + 4 + n + n % 2
    requires reader.Pending() == s[at + 4..]
    requires next <= |s| ==> SoFar(s, next, found + s[at + 4..at + 4 + n])
    modifies reader`unread, reader`position, reader`limit, reader.buffer, accumulated, accumulated.data
    ensures reader.Valid() && accumulated.Valid() &&
            (accumulated.data == old(accumulated.data) || fresh(accumulated.data))
    ensures status == Ok ==>
              && next <= |s| && reader.Pending() == s[next..] && SoFar(s, next, accumulated.Contents())
              && accumulated.length == old(accumulated.length) + n
    ensures status in {Ok, IoError, AllocFail}
    ensures status == IoError && reader.reliable ==> next > |s|
    ensures status == AllocFail && memory ==> old(accumulated.length) + n > SIZE_MAX / 2 && next <= |s|
  {
    status := ReadPaddedChunk(reader, n, accumulated, memory, s, at + 4);
    if status == Ok { assert |accumulated.Contents()| == |found| + n; }
  }

  /** Reads messages until the end of the group, collecting the data of all BLOB frames. */
  method FetchBlob(reader: Reader, memory: bool) returns (status: Status, accumulated: ByteBuffer)
    requires reader.Valid()
    modifies reader`unread, reader`position, reader`limit, reader.buffer
    ensures reader.Valid() && fresh(accumulated) && accumulated.Valid()
    ensures status == Ok ==>
              var r := ReadFrom(old(reader.Pending()), 0);
              r.Read? && accumulated.Contents() == r.data && reader.Pending() == old(reader.Pending())[r.end..]
    ensures reader.reliable && memory && |old(reader.Pending())| <= SIZE_MAX / 2 ==>
              var r := ReadFrom(old(reader.Pending()), 0); status == if r.Read? then Ok else r.status
  {
    ghost var s := reader.Pending();
    ghost var at := 0;
    accumulated := new ByteBuffer();
    NothingFound(s);
    assert s[0..] == s;
    while true
      invariant fresh(accumulated) && fresh(accumulated.data) && InProgress(reader, accumulated, s, at)
      decreases |s| - at
    {
      var finished;
      ghost var next;
      status, finished, next := ReadMessage(reader, accumulated, memory, s, at);
      if status != Ok || finished { return; }
      at := next;
    }
  }

  /** However the transport cuts the stream, what was sent as frames is received, and nothing beyond the
      end of the message is consumed. */
  method SendAndFetch(data: seq<byte>, later: seq<byte>, capacity: nat) returns (received: ByteBuffer, reader: Reader)
    requires capacity > 0 && |Frames(data)| + |later| + 2 <= SIZE_MAX / 2
    ensures received.Valid() && received.Contents() == data
    ensures reader.Valid() && reader.Pending() == later
  {
    var status, sent := SendBlob(data, |Frames(data)|);
    assert sent == Frames(data);
    var stream := sent + END + later;
    reader := new Reader(stream, capacity, true);
    assert stream[0..0 + |sent + END|] == sent + END && stream[|sent| + 2..] == later;
    FramesRead(stream, 0, data);
    status, received := FetchBlob(reader, true);
  }
}
