/** Buffered reading from a connection whose transport delivers the peer's bytes in pieces of any size
    (src/sqli_dispatch.c:145-184 and 225-255). */
module Transport {
  import opened Status

  function Min(a: nat, b: nat): nat {
    if a < b then a else b
  }

  /** Big-endian value of two or four bytes. */
  function Be16(b: seq<byte>): nat
    requires |b| >= 2
  {
    Pair(b[0], b[1])
  }

  function Pair(high: nat, low: nat): nat {
    high * 256 + low
  }

  function Be32(b: seq<byte>): nat
    requires |b| >= 4
  {
    Pair(b[0], b[1]) * 0x1_0000 + Pair(b[2], b[3])
  }

  lemma PieceTaken(all: seq<byte>, rest: seq<byte>, copied: nat, take: nat)
    requires copied <= |all| && rest == all[copied..] && take <= |rest|
    ensures all[..copied] + rest[..take] == all[..copied + take] && rest[take..] == all[copied + take..]
  {
  }

  lemma Joined(t: seq<byte>, at: nat, copied: nat, take: nat, done: seq<byte>, piece: seq<byte>)
    requires at + copied + take <= |t| && t[at..at + copied] == done && t[at + copied..at + copied + take] == piece
    ensures t[at..at + copied + take] == done + piece
  {
  }

  lemma SubSlice(s: seq<byte>, a: nat, b: nat, c: nat, d: nat)
    requires a <= b <= |s| && c <= d <= b - a
    ensures s[a..b][c..d] == s[a + c..a + d]
  {
    forall i | 0 <= i < d - c ensures s[a..b][c..d][i] == s[a + c..a + d][i] {
      assert s[a..b][c..d][i] == s[a..b][c + i];
    }
  }

  lemma Be32Prefix(s: seq<byte>, at: nat)
    requires at + 4 <= |s|
    ensures Be32(s[at..]) == Be32(s[at..at + 4])
  {
  }

  class Reader {
    /** What the peer has sent and the transport not yet delivered. */
    var unread: seq<byte>
    var buffer: array<byte>
    var position: nat
    var limit: nat
    /** Whether the transport fails only at the end of the stream. */
    const reliable: bool

    ghost predicate Valid()
      reads this
    {
      position <= limit <= buffer.Length && buffer.Length > 0
    }

    /** The bytes still to be read, wherever they are. */
    ghost function Pending(): seq<byte>
      reads this, buffer
      requires Valid()
    {
      buffer[position..limit] + unread
    }

    constructor (stream: seq<byte>, capacity: nat, reliable: bool)
      requires capacity > 0
      ensures Valid() && fresh(buffer) && Pending() == stream && this.reliable == reliable
    {
      unread := stream;
      buffer := new byte[capacity];
      position, limit := 0, 0;
      this.reliable := reliable;
    }

    /** One read from the transport: any number of bytes that is available and fits, or none on failure. */
    method ReadSome() returns (n: nat)
      requires Valid() && position == limit
      modifies this`unread, buffer
      ensures n <= old(|unread|) && n <= buffer.Length
      ensures buffer[..n] + unread == old(unread)
      ensures reliable && old(unread) != [] ==> n > 0
    {
      if unread == [] { return 0; }
      n :| 0 <= n <= |unread| && n <= buffer.Length && (reliable ==> n > 0);
      ghost var was := unread;
      for i := 0 to n
        invariant buffer[..i] == was[..i] && unread == was
      {
        buffer[i] := unread[i];
        assert buffer[..i + 1] == buffer[..i] + [buffer[i]];
        assert was[..i + 1] == was[..i] + [was[i]];
      }
      unread := unread[n..];
    }

    /** Reads exactly so many bytes, however the transport cuts them. */
    method ReadExact(target: array<byte>, at: nat, count: nat) returns (status: Status)
      requires Valid() && at + count <= target.Length && target != buffer
      modifies this`unread, this`position, this`limit, buffer, target
      ensures Valid() && status in {Ok, IoError}
      ensures forall i :: 0 <= i < target.Length && !(at <= i < at + count) ==> target[i] == old(target[i])
      ensures status == Ok ==>
                && count <= |old(Pending())|
                && target[at..at + count] == old(Pending())[..count] && Pending() == old(Pending())[count..]
      ensures reliable && count <= |old(Pending())| ==> status == Ok
    {
      var copied: nat := 0;
      ghost var all, rest := Pending(), Pending();
      while copied < count
        invariant Valid() && copied <= count && copied <= |all|
        invariant forall i :: 0 <= i < target.Length && !(at <= i < at + count) ==> target[i] == old(target[i])
        invariant target[at..at + copied] == all[..copied] && Pending() == rest == all[copied..]
      {
        var take;
        status, take := ReadPiece(target, at + copied, count - copied);
        if status != Ok { return; }
        assert target[at..at + copied] == all[..copied];
        PieceTaken(all, rest, copied, take);
        Joined(target[..], at, copied, take, all[..copied], rest[..take]);
        rest := rest[take..];
        copied := copied + take;
      }
      return Ok;
    }

    /** Reads some of the bytes wanted: those in the buffer, or those of one read from the transport. */
    method ReadPiece(target: array<byte>, at: nat, count: nat) returns (status: Status, take: nat)
      requires Valid() && count > 0 && at + count <= target.Length && target != buffer
      modifies this`unread, this`position, this`limit, buffer, target
      ensures Valid() && status in {Ok, IoError}
      ensures forall i :: 0 <= i < target.Length && !(at <= i < at + count) ==> target[i] == old(target[i])
      ensures status == Ok ==>
                && 0 < take <= count && take <= |old(Pending())|
                && target[at..at + take] == old(Pending())[..take] && Pending() == old(Pending())[take..]
      ensures reliable && old(Pending()) != [] ==> status == Ok
    {
      take := 0;
      status := Ok;
      if position == limit {
        status := Refill();
        if status != Ok { return; }
      }
      take := Min(limit - position, count);
      Take(target, at, take);
    }

    /** Fills the empty buffer from the transport; the bytes still to be read stay the same. */
    method Refill() returns (status: Status)
      requires Valid() && position == limit
      modifies this`unread, this`position, this`limit, buffer
      ensures Valid() && status in {Ok, IoError} && Pending() == old(Pending())
      ensures status == Ok ==> position < limit
      ensures reliable && old(Pending()) != [] ==> status == Ok
    {
      assert Pending() == unread;
      var n := ReadSome();
      if n == 0 {
        assert buffer[..0] + unread == unread;
        return IoError;
      }
      position, limit := 0, n;
      return Ok;
    }

    /** Copies bytes that are in the buffer. */
    method Take(target: array<byte>, at: nat, count: nat)
      requires Valid() && target != buffer && at + count <= target.Length && position + count <= limit
      modifies this`position, target
      ensures Valid() && position == old(position) + count
      ensures forall i :: 0 <= i < target.Length && !(at <= i < at + count) ==> target[i] == old(target[i])
      ensures target[at..at + count] == old(Pending())[..count] && Pending() == old(Pending())[count..]
    {
      ghost var all := Pending();
      for i := 0 to count
        invariant forall j :: 0 <= j < target.Length && !(at <= j < at + count) ==> target[j] == old(target[j])
        invariant target[at..at + i] == all[..i]
        modifies target
      {
        target[at + i] := buffer[position + i];
        assert target[at..at + i + 1] == target[at..at + i] + [target[at + i]];
        assert all[..i + 1] == all[..i] + [all[i]];
      }
      position := position + count;
      assert Pending() == all[count..];
    }

    method ReadBe16() returns (status: Status, value: nat)
      requires Valid()
      modifies this`unread, this`position, this`limit, buffer
      ensures Valid() && status in {Ok, IoError}
      ensures status == Ok ==>
                2 <= |old(Pending())| && value == Be16(old(Pending())) < 0x1_0000 && Pending() == old(Pending())[2..]
      ensures reliable && 2 <= |old(Pending())| ==> status == Ok
    {
      var b := new byte[2];
      ghost var all := Pending();
      status := ReadExact(b, 0, 2);
      value := Pair(b[0], b[1]);
      if status == Ok { assert b[0..2] == all[..2]; }
    }

    method ReadBe32() returns (status: Status, value: nat)
      requires Valid()
      modifies this`unread, this`position, this`limit, buffer
      ensures Valid() && status in {Ok, IoError}
      ensures status == Ok ==>
                4 <= |old(Pending())| && value == Be32(old(Pending())) && Pending() == old(Pending())[4..]
      ensures reliable && 4 <= |old(Pending())| ==> status == Ok
    {
      var b := new byte[4];
      ghost var all := Pending();
      status := ReadExact(b, 0, 4);
      value := Pair(b[0], b[1]) * 0x1_0000 + Pair(b[2], b[3]);
      if status == Ok { assert b[0..4] == all[..4]; }
    }

    /** Reads and drops one byte. */
    method ReadPad() returns (status: Status)
      requires Valid()
      modifies this`unread, this`position, this`limit, buffer
      ensures Valid() && status in {Ok, IoError}
      ensures status == Ok ==> old(Pending()) != [] && Pending() == old(Pending())[1..]
      ensures reliable && old(Pending()) != [] ==> status == Ok
    {
      var pad := new byte[1];
      status := ReadExact(pad, 0, 1);
    }
  }
}
