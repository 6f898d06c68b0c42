/** Ownership of limb buffers across any number of decimals and any sequence of operations
    (src/sqli_decimal.c:44-80, 153-221): no buffer is shared, inline cells never leave their owner,
    an operation changes its target only, and a failing one changes nothing. */
module DecimalHeap {
  import opened Status
  import opened Numbers
  import opened Decimals
  import DecimalText
  import DecimalCodec

  ghost predicate Separate(ds: seq<Decimal>)
    reads set d | d in ds, set d | d in ds :: d.limbs
  {
    && (forall d :: d in ds ==> d.Valid())
    && (forall i, j :: 0 <= i < |ds| && 0 <= j < |ds| && i != j ==>
          && ds[i] != ds[j] && ds[i].inline != ds[j].inline
          && ds[i].limbs != ds[j].limbs && ds[i].limbs != ds[j].inline)
  }

  /** One call on the decimal at an index; the source of a copy is another index, or the same. */
  datatype Operation =
    | Clear
    | FromI64(coefficient: int, scale: int)
    | FromParts(cells: array<nat>, count: nat, scale: int, negative: bool)
    | Copy(from: nat)
    | Rescale(scale: int)
    | FromText(text: string, isNull: bool)
    | FromWire(bytes: array<byte>, length: nat, descriptor: nat)
  {
    function Index(): nat {
      if Copy? then from else 0
    }

    /** The ranges of the C argument types, and buffers as long as they are said to be. */
    predicate Fits(decimals: nat) {
      match this
      case Clear => true
      case FromI64(c, s) => INT64_MIN <= c <= INT64_MAX && IsInt32(s)
      case FromParts(cells, count, s, _) => count <= cells.Length && IsInt32(s)
      case Copy(from) => from < decimals
      case Rescale(s) => IsInt32(s)
      case FromText(_, _) => true
      case FromWire(bytes, length, descriptor) => length <= bytes.Length && descriptor < 0x1_0000
    }
  }

  /** Copies a value by importing its parts, which are borrowed from the source. */
  method CopyValue(target: Decimal, source: Decimal, memory: bool) returns (status: Status)
    requires target.Valid() && source.Valid()
    requires target != source ==> target.inline != source.limbs
    modifies target, target.inline
    ensures target.Valid()
    ensures target.limbs == old(target.limbs) || target.limbs == target.inline || fresh(target.limbs)
    ensures target.Model() == if status == Ok then old(source.Model()) else old(target.Model())
    ensures status != Ok ==> status == AllocFail && !memory
  {
    if target == source { return Ok; }
    source.LeadingLimb();
    if source.isNull {
      target.SetNull();
      return Ok;
    }
    SourceImports(source);
    status := target.SetParts(source.limbs, source.used, source.scale, source.negative, memory);
  }

  lemma SourceImports(source: Decimal)
    requires source.Valid() && !source.isNull
    ensures Import(source.limbs[..source.used], source.scale, source.negative) == Good(source.Model())
  {
    LimbBase();
    source.LeadingLimb();
    if source.used > 0 { ManyLimbs(source.used, Radix.Digits(source.Coefficient())); }
  }

  /** The call itself; the source of a copy is given as an object. */
  method Call(d: Decimal, source: Decimal, op: Operation, memory: bool) returns (status: Status)
    requires d.Valid() && source.Valid() && (d != source ==> d.inline != source.limbs) && op.Fits(op.Index() + 1)
    modifies d, d.inline
    ensures d.Valid() && (d.limbs == old(d.limbs) || d.limbs == d.inline || fresh(d.limbs))
    ensures status != Ok ==> d.Model() == old(d.Model())
  {
    match op {
      case Clear => d.SetNull(); status := Ok;
      case FromI64(c, s) => status := d.SetI64(c, s, memory);
      case FromParts(cells, count, s, negative) => status := d.SetParts(cells, count, s, negative, memory);
      case Copy(_) => status := CopyValue(d, source, memory);
      case Rescale(s) => status := d.RescaleExact(s, memory);
      case FromText(text, isNull) => status := DecimalText.Parse(d, text, isNull, memory);
      case FromWire(bytes, length, descriptor) => status := DecimalCodec.Decode(bytes, length, descriptor, d);
    }
  }

  method Apply(ds: seq<Decimal>, k: nat, op: Operation, memory: bool) returns (status: Status)
    requires Separate(ds) && k < |ds| && op.Fits(|ds|)
    modifies ds[k], ds[k].inline
    ensures Separate(ds)
    ensures forall i :: 0 <= i < |ds| && i != k ==>
              ds[i].limbs == old(ds[i].limbs) && ds[i].Model() == old(ds[i].Model())
    ensures status != Ok ==> ds[k].Model() == old(ds[k].Model())
  {
    status := Call(ds[k], if op.Copy? then ds[op.from] else ds[k], op, memory);
  }

  method Create(ds: seq<Decimal>) returns (grown: seq<Decimal>)
    requires Separate(ds)
    ensures |grown| == |ds| + 1 && grown[..|ds|] == ds && Separate(grown)
    ensures grown[|ds|].Model() == Null && fresh(grown[|ds|])
  {
    var d := new Decimal();
    grown := ds + [d];
  }
}
