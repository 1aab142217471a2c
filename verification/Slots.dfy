/** Index arithmetic of the packet ring: a fixed array read from a moving head. */
module Slots {
  import opened Modular

  /** io_next */
  function Next(n: nat, slots: nat): (m: nat)
    requires n < slots
    ensures m < slots
  {
    if n + 1 == slots then 0 else n + 1
  }

  /** The array index of the k-th slot from head. */
  function Slot(head: nat, k: nat, slots: nat): (i: nat)
    requires head < slots && k <= slots
    ensures i < slots
  {
    if head + k < slots then head + k else head + k - slots
  }

  /** The read side computes the same index with a remainder. */
  lemma SlotIsModulo(head: nat, k: nat, slots: nat)
    requires head < slots && k <= slots
    ensures (head + k) % slots == Slot(head, k, slots)
  {
    ModUnique(head + k, slots, if head + k < slots then 0 else 1, Slot(head, k, slots));
  }

  lemma SlotNext(head: nat, k: nat, slots: nat)
    requires head < slots && k < slots
    ensures Slot(head, k + 1, slots) == Next(Slot(head, k, slots), slots)
    ensures Slot(Next(head, slots), k, slots) == Slot(head, k + 1, slots)
  {
  }

  /** The array seen from head: entry k is the k-th slot of the ring. */
  function Rotated<T>(a: seq<T>, head: nat): (r: seq<T>)
    requires head <= |a|
    ensures |r| == |a|
  {
    a[head..] + a[..head]
  }

  lemma RotatedAt<T>(a: seq<T>, head: nat, k: nat)
    requires head < |a| && k < |a|
    ensures Rotated(a, head)[k] == a[Slot(head, k, |a|)]
  {
  }

  lemma RotatedUpdate<T>(a: seq<T>, head: nat, k: nat, x: T)
    requires head < |a| && k < |a|
    ensures Rotated(a[Slot(head, k, |a|) := x], head) == Rotated(a, head)[k := x]
  {
    var i := Slot(head, k, |a|);
    var b := a[i := x];
    assert forall j :: 0 <= j < |a| ==> Rotated(b, head)[j] == b[Slot(head, j, |a|)];
    assert forall j :: 0 <= j < |a| ==> Rotated(a, head)[j] == a[Slot(head, j, |a|)];
  }

  lemma RotatedNext<T>(a: seq<T>, head: nat)
    requires head < |a|
    ensures Rotated(a, Next(head, |a|)) == Rotated(a, head)[1..] + [Rotated(a, head)[0]]
  {
    if head + 1 == |a| {
      assert a[..0] == [] && a[0..] == a && a == a[..head] + [a[head]];
    }
  }
}
