/**
 * The shared document buffer as the argument code sees it: the bytes of
 * the document's `bytearray`, and for every offset whether it lies inside
 * a construct (link, template, table, ...) nested in the argument that
 * holds it. The second component is what the span index answers for
 * `_in_atomic_subspans_factory(ss, se)`; how it is computed is not part of
 * this model.
 */
module Buffer {
  import opened Bytes

  datatype Text = Text(bytes: seq<byte>, nested: seq<bool>) {
    predicate Wf() {
      |bytes| == |nested|
    }
  }

  const Empty: Text := Text([], [])

  /** The bytes and shielding of offsets [lo, hi). */
  function Slice(t: Text, lo: int, hi: int): (r: Text)
    requires t.Wf() && 0 <= lo <= hi <= |t.bytes|
    ensures r.Wf() && |r.bytes| == hi - lo
  {
    Text(t.bytes[lo..hi], t.nested[lo..hi])
  }

  /**
   * `buffer[lo:hi] = ins`: offsets [lo, hi) are replaced by `ins`; what
   * precedes `lo` stays where it was and what follows `hi` moves by the
   * change in length.
   */
  function Splice(t: Text, lo: int, hi: int, ins: Text): (r: Text)
    requires t.Wf() && ins.Wf() && 0 <= lo <= hi <= |t.bytes|
    ensures r.Wf() && |r.bytes| == |t.bytes| - (hi - lo) + |ins.bytes|
  {
    Text(t.bytes[..lo] + ins.bytes + t.bytes[hi..], t.nested[..lo] + ins.nested + t.nested[hi..])
  }
}
