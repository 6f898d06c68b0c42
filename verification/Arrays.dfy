/** Copying between arrays, as memcpy does it. */
module Arrays {

  method CopyInto<T>(target: array<T>, at: nat, source: array<T>, count: nat)
    requires at + count <= target.Length && count <= source.Length && target != source
    modifies target
    ensures target[at..at + count] == source[..count] && target[..at] == old(target[..at])
    ensures forall j :: 0 <= j < target.Length && !(at <= j < at + count) ==> target[j] == old(target[j])
  {
    for i := 0 to count
      invariant forall j :: 0 <= j < i ==> target[at + j] == source[j]
      invariant forall j :: 0 <= j < target.Length && !(at <= j < at + i) ==> target[j] == old(target[j])
    {
      target[at + i] := source[i];
    }
  }

  /** Copies the first elements; the rest of the target stays. */
  method CopyFirst<T>(target: array<T>, source: array<T>, count: nat)
    requires count <= target.Length && count <= source.Length && target != source
    modifies target
    ensures target[..count] == source[..count] && target[count..] == old(target[count..])
  {
    CopyInto(target, 0, source, count);
    assert target[0..count] == target[..count];
  }
}
