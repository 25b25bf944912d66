/**
 * The atomic partition of an argument at '=': the first '=' that does not
 * sit inside a construct nested in the argument. Such an '=' is the
 * keyword separator; an '=' inside a link or a nested template is part of
 * that construct and never separates anything.
 */
module Atomic {
  import opened Bytes
  import opened Buffer

  /** Offset `i` of `t` holds an '=' outside every nested construct. */
  predicate IsSep(t: Text, i: int)
    requires t.Wf()
  {
    0 <= i < |t.bytes| && t.bytes[i] == EQ && !t.nested[i]
  }

  /** The first separator at or after `from`, or -1. */
  function FirstSepFrom(t: Text, from: nat): (r: int)
    requires t.Wf() && from <= |t.bytes|
    ensures r == -1 || from <= r < |t.bytes|
    ensures r == -1 ==> forall j :: from <= j ==> !IsSep(t, j)
    ensures r != -1 ==> IsSep(t, r) && forall j :: from <= j < r ==> !IsSep(t, j)
    decreases |t.bytes| - from
  {
    if from == |t.bytes| then -1
    else if IsSep(t, from) then from
    else FirstSepFrom(t, from + 1)
  }

  /** `_atomic_partition(b'=')`: (pipename, equal, value) with `equal` as a flag. */
  datatype Partition = Partition(head: seq<byte>, found: bool, tail: seq<byte>)

  /**
   * Splits `t` at its first separator. Without one, the head is the whole
   * text and the tail is empty.
   */
  function AtomicPartition(t: Text): (p: Partition)
    requires t.Wf()
    ensures p.found <==> exists i :: IsSep(t, i)
    ensures p.found ==> t.bytes == p.head + [EQ] + p.tail && IsSep(t, |p.head|)
    ensures p.found ==> forall j :: 0 <= j < |p.head| ==> !IsSep(t, j)
    ensures !p.found ==> p.head == t.bytes && p.tail == []
  {
    var i := FirstSepFrom(t, 0);
    if i == -1 then Partition(t.bytes, false, [])
    else Partition(t.bytes[..i], true, t.bytes[i + 1..])
  }

  /** The separator is the unique first unshielded '=': any such offset is where the partition splits. */
  lemma PartitionAt(t: Text, i: int)
    requires t.Wf() && IsSep(t, i)
    requires forall j :: 0 <= j < i ==> !IsSep(t, j)
    ensures AtomicPartition(t).found && |AtomicPartition(t).head| == i
  {
  }
}
