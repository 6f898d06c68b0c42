/** Where a column lies in a tuple and whether it is SQL NULL, by type code and encoded length
    (src/sqli_result.c:50-283 and 317-535). */
module Columns {
  import opened Status
  import opened Transport
  import Numbers
  import Temporals
  import DecimalWire
  import TemporalWire
  import DateWire

  // Type codes.
  const CHAR: byte := 0
  const SMALLINT: byte := 1
  const INT: byte := 2
  const FLOAT: byte := 3
  const SMFLOAT: byte := 4
  const DECIMAL: byte := 5
  const SERIAL: byte := 6
  const DATE: byte := 7
  const MONEY: byte := 8
  const DATETIME: byte := 10
  const BYTE: byte := 11
  const TEXT: byte := 12
  const VARCHAR: byte := 13
  const INTERVAL: byte := 14
  const NCHAR: byte := 15
  const NVCHAR: byte := 16
  const INT8: byte := 17
  const SERIAL8: byte := 18
  const LVARCHAR: byte := 40
  const BOOL: byte := 41
  const DBOOLEAN: byte := 45
  const BIGINT: byte := 52
  const BIGSERIAL: byte := 53
  const CLOB: byte := 101
  const BLOB: byte := 102

  /** A column as the server describes it: type code, and a length or descriptor. */
  datatype Column = Column(code: byte, length: nat)

  /** Data of a column, and the bytes it takes in all. */
  datatype Place = Place(start: nat, length: nat, span: nat)

  // ---- Kinds of layout ----------------------------------------------------------------------

  /** How a column's data is laid out. */
  datatype Kind =
    | Char(width: nat)
    | Fixed(width: nat)
    | Marked
    | Prefixed
    | LongPrefixed

  predicate IsChar(code: byte) {
    code == CHAR || code == NCHAR
  }

  predicate IsVarchar(code: byte) {
    code == VARCHAR || code == NVCHAR
  }

  predicate IsDecimal(code: byte) {
    code == DECIMAL || code == MONEY
  }

  predicate IsTemporal(code: byte) {
    code == DATETIME || code == INTERVAL
  }

  predicate IsLegacyBlob(code: byte) {
    code == BYTE || code == TEXT
  }

  /** Types whose payload has a null marker and a length, as far as both locators agree on it. */
  predicate IsMarked(code: byte) {
    code == BOOL || code == LVARCHAR || code == BLOB || code == CLOB
  }

  predicate IsStringy(code: byte) {
    IsChar(code) || IsVarchar(code) || code == LVARCHAR
  }

  predicate IsLongPrefixed(code: byte) {
    code == TEXT || code == LVARCHAR || code == BLOB || code == CLOB || IsDecimal(code)
  }

  predicate IsNullIfZero(code: byte) {
    IsDecimal(code) || IsTemporal(code)
  }

  function FixedWidth(code: byte): nat {
    if code == BOOL || code == DBOOLEAN then 1
    else if code == SMALLINT then 2
    else if code == INT || code == DATE || code == SERIAL || code == SMFLOAT then 4
    else if code == FLOAT || code == BIGINT || code == BIGSERIAL then 8
    else if code == INT8 || code == SERIAL8 then 10
    else 0
  }

  /** Payload width of a decimal descriptor, zero if there is none. */
  function DecimalWidth(length: nat): nat {
    if length > 0xFFFF then 0
    else match DecimalWire.DecodeType(length)
      case Bad(_) => 0
      case Good(t) => t.Width()
  }

  function TemporalWidth(length: nat, interval: bool): nat {
    if length > 0xFFFF then 0
    else match TemporalWire.DecodeQualifier(length, interval)
      case Bad(_) => 0
      case Good(r) => r.Width()
  }

  function KindOf(c: Column): Kind {
    if IsChar(c.code) then Char(c.length)
    else if IsLegacyBlob(c.code) then Fixed(if c.length > 0 then c.length else 56)
    else if IsMarked(c.code) then Marked
    else if FixedWidth(c.code) > 0 then Fixed(FixedWidth(c.code))
    else if IsDecimal(c.code) then Fixed(DecimalWidth(c.length))
    else if IsTemporal(c.code) then Fixed(TemporalWidth(c.length, c.code == INTERVAL))
    else if IsVarchar(c.code) || !IsLongPrefixed(c.code) then Prefixed
    else LongPrefixed
  }

  /** No type comes to the branch for two-byte lengths; they are read only where a marker does not fit. */
  lemma NeverLongPrefixed(c: Column)
    ensures KindOf(c) != LongPrefixed
  {
  }

  // ---- Locating -----------------------------------------------------------------------------

  /** Bytes behind a one-byte length. */
  function ShortString(tuple: seq<byte>, offset: nat): Result<Place>
    requires offset < |tuple|
  {
    if tuple[offset] <= |tuple| - (offset + 1)
    then Good(Place(offset + 1, tuple[offset], Add(1, tuple[offset]))) else Bad(ProtoError)
  }

  function Add(a: nat, b: nat): nat {
    a + b
  }

  function LongString(tuple: seq<byte>, offset: nat): Result<Place>
    requires offset < |tuple|
  {
    if |tuple| - offset < 2 then Bad(ProtoError)
    else
      var n := Pair(tuple[offset], tuple[offset + 1]);
      if n <= |tuple| - (offset + 2) then Good(Place(offset + 2, n, 2 + n)) else Bad(ProtoError)
  }

  /** A null marker and a four-byte length, or else a two-byte length. */
  function MarkedString(tuple: seq<byte>, offset: nat): Result<Place>
    requires offset < |tuple|
  {
    if |tuple| - offset >= 5 && tuple[offset] != 0 && Be32(tuple[offset + 1..offset + 5]) == 0
    then Good(Place(offset + 5, 0, 5))
    else if |tuple| - offset >= 5 && tuple[offset] == 0 && Be32(tuple[offset + 1..offset + 5]) <= |tuple| - (offset + 5)
    then Good(Place(offset + 5, Be32(tuple[offset + 1..offset + 5]), 5 + Be32(tuple[offset + 1..offset + 5])))
    else LongString(tuple, offset)
  }

  function FixedPlace(width: nat, tuple: seq<byte>, offset: nat): Result<Place>
    requires offset < |tuple|
  {
    if 0 < width <= |tuple| - offset then Good(Place(offset, width, width)) else Bad(ProtoError)
  }

  /** The place of a column at an offset. */
  function Locate(column: Column, tuple: seq<byte>, offset: nat): (r: Result<Place>)
    requires offset < |tuple|
    ensures r.Good? ==> Inside(r.value, tuple, offset)
    ensures r.Bad? ==> r == Bad(ProtoError)
  {
    match KindOf(column)
    case Char(width) =>
      if 0 < width <= |tuple| - offset then FixedPlace(width, tuple, offset)
      else if offset + 1 < |tuple| then ShortString(tuple, offset) else Bad(ProtoError)
    case Fixed(width) => FixedPlace(width, tuple, offset)
    case Marked => MarkedString(tuple, offset)
    case Prefixed => ShortString(tuple, offset)
    case LongPrefixed => LongString(tuple, offset)
  }

  /** The place begins at or after the offset, ends inside the tuple, and takes up something. */
  predicate Inside(p: Place, tuple: seq<byte>, offset: nat) {
    offset <= p.start && p.start + p.length == offset + p.span <= |tuple| && p.span > 0
  }

  // ---- The other locator --------------------------------------------------------------------

  /** A one-byte length in front of CHAR data is believed if it makes the declared width. */
  predicate LooksPrefixed(width: nat, tuple: seq<byte>, offset: nat)
    requires offset < |tuple|
  {
    width > 0 && 0 < tuple[offset] < 32 && 1 + tuple[offset] == width && tuple[offset] <= |tuple| - (offset + 1)
  }

  /** The place of a single column, as streaming and BLOB fetching look for it. */
  function LocateAlone(column: Column, tuple: seq<byte>, offset: nat): (r: Result<Place>)
    requires offset < |tuple|
    ensures r.Good? ==> Inside(r.value, tuple, offset)
  {
    var code, width := column.code, if IsChar(column.code) then column.length else FixedWidth(column.code);
    if IsChar(code) && LooksPrefixed(width, tuple, offset) then Good(Place(offset + 1, tuple[offset], width))
    else if IsDecimal(code) then FixedPlace(DecimalWidth(column.length), tuple, offset)
    else if IsTemporal(code) then FixedPlace(TemporalWidth(column.length, code == INTERVAL), tuple, offset)
    else if IsLegacyBlob(code) then FixedPlace(if column.length > 0 then column.length else 56, tuple, offset)
    else if IsMarked(code) || code == DBOOLEAN then MarkedString(tuple, offset)
    else if width > 0 then FixedPlace(width, tuple, offset)
    else if IsChar(code) || IsVarchar(code) || !IsLongPrefixed(code) then ShortString(tuple, offset)
    else LongString(tuple, offset)
  }

  /** Where the two locators differ: on CHAR data whose first byte makes it look prefixed, on CHAR data wider
      than the rest of the tuple but readable with a prefix, on an empty CHAR of unknown width at the end of the
      tuple, and on DBOOLEAN columns, of which one expects a byte and the other a marker. */
  predicate Differs(column: Column, tuple: seq<byte>, offset: nat)
    requires offset < |tuple|
  {
    if IsChar(column.code) then
      if column.length == 0 then offset + 1 == |tuple| && tuple[offset] == 0
      else if column.length <= |tuple| - offset then 0 < tuple[offset] < 32 && 1 + tuple[offset] == column.length
      else offset + 1 < |tuple| && tuple[offset] <= |tuple| - (offset + 1)
    else column.code == DBOOLEAN
  }

  lemma LocatorsDifferExactly(column: Column, tuple: seq<byte>, offset: nat)
    requires offset < |tuple|
    ensures LocateAlone(column, tuple, offset) == Locate(column, tuple, offset) <==> !Differs(column, tuple, offset)
  {
  }

  /** CHAR(10) data that begins with a tab: fetching gives all ten bytes, streaming drops the tab. */
  lemma TabIsDropped(tuple: seq<byte>)
    requires |tuple| == 10 && tuple[0] == 9
    ensures Locate(Column(CHAR, 10), tuple, 0) == Good(Place(0, 10, 10))
    ensures LocateAlone(Column(CHAR, 10), tuple, 0) == Good(Place(1, 9, 10))
  {
  }

  // ---- SQL NULL -----------------------------------------------------------------------------

  predicate Spaces(data: seq<byte>) {
    forall i :: 0 <= i < |data| ==> data[i] == 0x20
  }

  /** Data that stands for SQL NULL. */
  predicate NullData(code: byte, data: seq<byte>)
    requires |data| > 0
  {
    if IsChar(code) then data[0] == 0 && Spaces(data[1..])
    else if code == DATE then |data| >= 4 && Be32(data) == 0x8000_0000
    else if code == SMALLINT then data == [0x80, 0]
    else if code == INT || code == SERIAL then data == [0x80, 0, 0, 0]
    else if code == BIGINT || code == BIGSERIAL then data == [0x80, 0, 0, 0, 0, 0, 0, 0]
    else if code == INT8 || code == SERIAL8 then |data| >= 2 && data[0] == 0 && data[1] == 0
    else if code == SMFLOAT then data == [0xFF, 0xFF, 0xFF, 0xFF]
    else if code == FLOAT then data == [0xFF, 0xFF, 0xFF, 0xFF, 0xFF, 0xFF, 0xFF, 0xFF]
    else if IsVarchar(code) then data == [0]
    else if IsLegacyBlob(code) then |data| >= 40 && data[39] % 2 == 1
    else IsNullIfZero(code) && DecimalWire.AllZero(data)
  }

  /** Whether a located column is SQL NULL: by its marker, by having no data, or by its data. */
  predicate IsNull(column: Column, tuple: seq<byte>, offset: nat, p: Place)
    requires Inside(p, tuple, offset)
  {
    var code := column.code;
    if p.length > 0 then NullData(code, tuple[p.start..p.start + p.length])
    else
      || ((code == LVARCHAR || code == BOOL || code == DBOOLEAN) && p.span >= 5 && tuple[offset] != 0)
      || code == BOOL || code == DBOOLEAN
      || (!IsStringy(code) && (IsLongPrefixed(code) || IsNullIfZero(code)))
  }

  /** The null mark of a column, its data read byte by byte. */
  method MarkNull(column: Column, tuple: seq<byte>, offset: nat, p: Place) returns (isNull: bool)
    requires Inside(p, tuple, offset)
    ensures isNull == IsNull(column, tuple, offset, p)
  {
    var code := column.code;
    isNull := false;
    if (code == LVARCHAR || code == BOOL || code == DBOOLEAN) && p.length == 0 && p.span >= 5 {
      if tuple[offset] != 0 { isNull := true; }
    }
    if p.length == 0 {
      if code == BOOL || code == DBOOLEAN {
        isNull := true;
      } else if !IsStringy(code) && (IsLongPrefixed(code) || IsNullIfZero(code)) {
        isNull := true;
      }
      return;
    }
    var data := tuple[p.start..p.start + p.length];
    if IsChar(code) && data[0] == 0 {
      isNull := AllBytes(data, 1, 0x20);
      assert Spaces(data[1..]) <==> forall i :: 1 <= i < |data| ==> data[i] == 0x20 by {
        if Spaces(data[1..]) {
          forall i | 1 <= i < |data| ensures data[i] == 0x20 { assert data[i] == data[1..][i - 1]; }
        }
      }
    } else if IsNullIfZero(code) {
      isNull := AllBytes(data, 0, 0);
    } else {
      isNull := NullData(code, data);
    }
  }

  /** Whether all bytes from a position on have one value. */
  method AllBytes(data: seq<byte>, from: nat, value: byte) returns (all: bool)
    requires from <= |data|
    ensures all <==> forall i :: from <= i < |data| ==> data[i] == value
  {
    for k := from to |data|
      invariant forall i :: from <= i < k ==> data[i] == value
    {
      if data[k] != value { return false; }
    }
    return true;
  }

  // ---- Columns and their decoders -----------------------------------------------------------

  /** A DECIMAL or MONEY column is located exactly if its descriptor is accepted and its payload is there; the
      data then has the width that decoding demands, and is marked NULL exactly if it decodes to SQL NULL. */
  lemma DecimalColumn(column: Column, tuple: seq<byte>, offset: nat)
    requires IsDecimal(column.code) && offset < |tuple| && column.length < 0x1_0000
    ensures var t, r := DecimalWire.DecodeType(column.length), Locate(column, tuple, offset);
            && (r.Good? <==> t.Good? && t.value.Width() <= |tuple| - offset)
            && (r.Good? ==>
                  var p := r.value;
                  var data := tuple[p.start..p.start + p.length];
                  && |data| == t.value.Width()
                  && (IsNull(column, tuple, offset, p) <==>
                        DecimalWire.DecodeWire(data, t.value) == Good(Numbers.Null)))
  {
  }

  /** A DATETIME or INTERVAL column is located exactly if its qualifier is accepted and its payload is there. */
  lemma {:induction false} TemporalLocated(column: Column, tuple: seq<byte>, offset: nat)
    requires IsTemporal(column.code) && offset < |tuple| && column.length < 0x1_0000
    ensures var q := TemporalWire.DecodeQualifier(column.length, column.code == INTERVAL);
            Locate(column, tuple, offset).Good? <==> q.Good? && q.value.Width() <= |tuple| - offset
  {
    TemporalPlace(column, tuple, offset);
  }

  /** Its data then has the width decoding demands, and is marked NULL exactly if it decodes to SQL NULL. */
  lemma {:induction false} TemporalMarked(column: Column, tuple: seq<byte>, offset: nat, p: Place, data: seq<byte>)
    requires IsTemporal(column.code) && column.length < 0x1_0000 && offset < |tuple|
    requires Locate(column, tuple, offset) == Good(p) && data == tuple[p.start..p.start + p.length]
    ensures |data| == TemporalWidth(column.length, column.code == INTERVAL)
    ensures MarkedAsDecoded(column, data, IsNull(column, tuple, offset, p))
  {
    TemporalPlace(column, tuple, offset);
    TemporalMark(column, data);
    assert IsNull(column, tuple, offset, p) == NullData(column.code, data);
  }

  /** The mark of the data is whether it decodes to SQL NULL. */
  predicate MarkedAsDecoded(column: Column, data: seq<byte>, isNull: bool)
    requires column.length < 0x1_0000
  {
    var decoded := TemporalWire.DecodeTemporal(data, column.length, column.code == INTERVAL);
    isNull <==> decoded.Good? && decoded.value.isNull
  }

  lemma {:induction false} TemporalPlace(column: Column, tuple: seq<byte>, offset: nat)
    requires IsTemporal(column.code) && offset < |tuple|
    ensures Locate(column, tuple, offset)
            == FixedPlace(TemporalWidth(column.length, column.code == INTERVAL), tuple, offset)
  {
  }

  lemma {:induction false} TemporalMark(column: Column, data: seq<byte>)
    requires IsTemporal(column.code) && column.length < 0x1_0000 && |data| > 0
    requires |data| == TemporalWidth(column.length, column.code == INTERVAL)
    ensures MarkedAsDecoded(column, data, NullData(column.code, data))
  {
    TemporalWire.NullIsAllZero(data, column.length, column.code == INTERVAL);
  }

  /** A DATE column has the four bytes of a word, and is marked NULL exactly if that is the NULL word. */
  lemma DateColumn(column: Column, tuple: seq<byte>, offset: nat)
    requires column.code == DATE && offset < |tuple|
    ensures var r := Locate(column, tuple, offset);
            && (r.Good? <==> DateWire.WIRE_SIZE <= |tuple| - offset)
            && (r.Good? ==>
                  var p := r.value;
                  var data := tuple[p.start..p.start + p.length];
                  && |data| == DateWire.WIRE_SIZE
                  && (IsNull(column, tuple, offset, p) <==> DateWire.Word(data, 4) == DateWire.NULL_WORD))
  {
    var r := Locate(column, tuple, offset);
    if r.Good? { WordIsBe32(tuple[r.value.start..r.value.start + r.value.length]); }
  }

  lemma WordIsBe32(data: seq<byte>)
    requires |data| >= 4
    ensures DateWire.Word(data, 4) == Be32(data)
  {
    assert DateWire.Word(data, 1) == data[0];
    assert DateWire.Word(data, 2) == Pair(data[0], data[1]);
  }
}
