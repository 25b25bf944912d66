/**
 * What an argument's name, value and positional flag are, as functions of
 * its text and of the spans of the template's arguments that precede it.
 */
module Resolver {
  import opened Bytes
  import opened Buffer
  import opened Atomic

  /** The text of one argument: its marker byte '|' and what follows it. */
  predicate IsArgument(t: Text) {
    t.Wf() && |t.bytes| >= 1 && t.bytes[0] == PIPE
  }

  /** `positional`: no '=' outside nested constructs. */
  function IsPositional(t: Text): (r: bool)
    requires t.Wf()
    ensures r <==> forall j :: !IsSep(t, j)
  {
    !AtomicPartition(t).found
  }

  /**
   * `name` when a position is already known for the positional case: the
   * decimal position, or the bytes strictly between the marker and the
   * first separator.
   */
  function Name(t: Text, position: nat): (r: seq<byte>)
    requires IsArgument(t)
    ensures IsPositional(t) ==> r == Decimal(position)
    ensures !IsPositional(t) ==>
      1 + |r| < |t.bytes| && r == t.bytes[1..1 + |r|] && IsSep(t, 1 + |r|)
      && forall j :: 0 <= j <= |r| ==> !IsSep(t, j)
  {
    var p := AtomicPartition(t);
    if p.found then p.head[1..] else Decimal(position)
  }

  /**
   * `value`: a proper suffix of the argument. For a positional argument it
   * is everything after the marker; for a keyword one, everything after the
   * first separator.
   */
  function Value(t: Text): (r: seq<byte>)
    requires IsArgument(t)
    ensures |r| < |t.bytes| && r == t.bytes[|t.bytes| - |r|..]
    ensures IsPositional(t) ==> r == t.bytes[1..]
    ensures !IsPositional(t) ==>
      IsSep(t, |t.bytes| - |r| - 1) && forall j :: 0 <= j < |t.bytes| - |r| - 1 ==> !IsSep(t, j)
  {
    var p := AtomicPartition(t);
    if p.found then p.tail else p.head[1..]
  }

  /**
   * A keyword argument is its marker, its name, the separator and its
   * value, and its name holds no separator of its own; a positional
   * argument is its marker followed by its value.
   */
  lemma Reassembly(t: Text, position: nat)
    requires IsArgument(t)
    ensures !IsPositional(t) ==>
      t.bytes == [PIPE] + Name(t, position) + [EQ] + Value(t)
      && forall j :: 1 <= j <= |Name(t, position)| ==> !IsSep(t, j)
    ensures IsPositional(t) ==> t.bytes == [PIPE] + Value(t)
  {
  }

  /**
   * The name of a keyword argument is the bytes strictly between the marker
   * and the first '=' outside nested constructs, and its value is all that
   * follows that '=', whatever '=' the value itself holds.
   */
  lemma KeywordSplit(t: Text, name: seq<byte>, value: seq<byte>, position: nat)
    requires IsArgument(t)
    requires t.bytes == [PIPE] + name + [EQ] + value
    requires !t.nested[|name| + 1]
    requires forall j :: 0 <= j < |name| ==> name[j] == EQ ==> t.nested[j + 1]
    ensures !IsPositional(t)
    ensures Name(t, position) == name && Value(t) == value
  {
    forall j | 0 <= j < |name| + 1 ensures !IsSep(t, j) {
      if j > 0 {
        assert t.bytes[j] == name[j - 1];
      }
    }
    PartitionAt(t, |name| + 1);
    var p := AtomicPartition(t);
    assert p.head == t.bytes[..|name| + 1];
    assert p.tail == t.bytes[|name| + 2..];
  }

  /**
   * `|link=[[page|x=y]]` inside a template: the '=' after `link` is the
   * separator; the one inside the link is shielded.
   */
  lemma NestedSeparatorExample()
    ensures var t := Text([PIPE, 0x6C, 0x69, 0x6E, 0x6B, EQ, 0x5B, 0x5B, 0x70, 0x61, 0x67, 0x65, PIPE, 0x78, EQ, 0x79, 0x5D, 0x5D],
                          [false, false, false, false, false, false, true, true, true, true, true, true, true, true, true, true, true, true]);
            IsArgument(t) && !IsPositional(t)
            && Name(t, 1) == [0x6C, 0x69, 0x6E, 0x6B]
            && Value(t) == [0x5B, 0x5B, 0x70, 0x61, 0x67, 0x65, PIPE, 0x78, EQ, 0x79, 0x5D, 0x5D]
  {
    var t := Text([PIPE, 0x6C, 0x69, 0x6E, 0x6B, EQ, 0x5B, 0x5B, 0x70, 0x61, 0x67, 0x65, PIPE, 0x78, EQ, 0x79, 0x5D, 0x5D],
                  [false, false, false, false, false, false, true, true, true, true, true, true, true, true, true, true, true, true]);
    KeywordSplit(t, [0x6C, 0x69, 0x6E, 0x6B], [0x5B, 0x5B, 0x70, 0x61, 0x67, 0x65, PIPE, 0x78, EQ, 0x79, 0x5D, 0x5D], 1);
  }

  /** A sibling argument span `[ss, se]`; `ss >= se` marks a closed span. */
  datatype Span = Span(start: int, end: int) {
    predicate Open() {
      start < end
    }
  }

  /** Every open span lies within the first `bound` offsets of the document. */
  predicate SpansBefore(spans: seq<Span>, bound: int) {
    forall sp :: sp in spans && sp.Open() ==> 0 <= sp.start && sp.end <= bound
  }

  /** A sibling occupies a positional slot: it is open and holds no separator. */
  predicate TakesSlot(doc: Text, sp: Span)
    requires doc.Wf()
    requires sp.Open() ==> 0 <= sp.start && sp.end <= |doc.bytes|
  {
    sp.Open() && IsPositional(Slice(doc, sp.start, sp.end))
  }

  /**
   * A sibling takes a slot exactly when it is open and every '=' in its
   * span lies in a nested construct (or it has no '=' at all).
   */
  lemma TakesSlotIff(doc: Text, sp: Span)
    requires doc.Wf() && sp.Open() && 0 <= sp.start && sp.end <= |doc.bytes|
    ensures TakesSlot(doc, sp) <==> forall j :: sp.start <= j < sp.end ==> !IsSep(doc, j)
  {
    var s := Slice(doc, sp.start, sp.end);
    forall j ensures IsSep(s, j) <==> (0 <= j < sp.end - sp.start && IsSep(doc, sp.start + j)) {
    }
    if !TakesSlot(doc, sp) {
      var j :| IsSep(s, j);
      assert IsSep(doc, sp.start + j);
    } else {
      forall j | sp.start <= j < sp.end ensures !IsSep(doc, j) {
        assert !IsSep(s, j - sp.start);
      }
    }
  }

  /** How many of `spans` take a positional slot. */
  function CountPositional(doc: Text, spans: seq<Span>): (r: nat)
    requires doc.Wf() && SpansBefore(spans, |doc.bytes|)
    ensures r <= |spans|
  {
    if spans == [] then 0
    else
      var last := spans[|spans| - 1];
      CountPositional(doc, spans[..|spans| - 1]) + (if TakesSlot(doc, last) then 1 else 0)
  }

  /** The position of a positional argument preceded by `spans`. */
  function Position(doc: Text, spans: seq<Span>): (r: nat)
    requires doc.Wf() && SpansBefore(spans, |doc.bytes|)
    ensures 1 <= r <= |spans| + 1
  {
    1 + CountPositional(doc, spans)
  }

  /** Counting over two runs of siblings adds up. */
  lemma {:induction false} CountAppend(doc: Text, a: seq<Span>, b: seq<Span>)
    requires doc.Wf() && SpansBefore(a, |doc.bytes|) && SpansBefore(b, |doc.bytes|)
    ensures SpansBefore(a + b, |doc.bytes|)
    ensures CountPositional(doc, a + b) == CountPositional(doc, a) + CountPositional(doc, b)
    decreases |b|
  {
    if b == [] {
      assert a + b == a;
    } else {
      var b' := b[..|b| - 1];
      assert (a + b)[..|a + b| - 1] == a + b';
      CountAppend(doc, a, b');
    }
  }

  /** A closed sibling span counts for nothing wherever it sits. */
  lemma ClosedSpanIgnored(doc: Text, a: seq<Span>, sp: Span, b: seq<Span>)
    requires doc.Wf() && SpansBefore(a, |doc.bytes|) && SpansBefore(b, |doc.bytes|)
    requires !sp.Open()
    ensures SpansBefore(a + [sp] + b, |doc.bytes|)
    ensures CountPositional(doc, a + [sp] + b) == CountPositional(doc, a + b)
  {
    CountAppend(doc, a, [sp]);
    CountAppend(doc, a + [sp], b);
    CountAppend(doc, a, b);
    assert CountPositional(doc, [sp]) == 0 by {
      assert [sp][..0] == [];
    }
  }

  /** In a run of positional siblings, the k-th (from 1) is named k. */
  lemma {:induction false} RunOfPositionals(doc: Text, spans: seq<Span>, k: nat)
    requires doc.Wf() && SpansBefore(spans, |doc.bytes|)
    requires forall sp :: sp in spans ==> TakesSlot(doc, sp)
    requires k < |spans|
    ensures SpansBefore(spans[..k], |doc.bytes|)
    ensures Position(doc, spans[..k]) == k + 1
    decreases k
  {
    if k > 0 {
      assert spans[..k][..k - 1] == spans[..k - 1];
      assert spans[..k][k - 1] == spans[k - 1];
      RunOfPositionals(doc, spans, k - 1);
    } else {
      assert spans[..k] == [];
    }
  }

  /**
   * Siblings [positional, keyword] before a positional argument name it
   * "2": the keyword sibling takes no slot.
   */
  lemma PositionalThenKeyword(doc: Text, p: Span, q: Span)
    requires doc.Wf() && SpansBefore([p, q], |doc.bytes|)
    requires TakesSlot(doc, p)
    requires q.Open() && !IsPositional(Slice(doc, q.start, q.end))
    ensures Decimal(Position(doc, [p, q])) == [0x32]
  {
    assert [p, q][..1] == [p];
    assert [p][..0] == [];
    assert CountPositional(doc, [p]) == 1;
    assert !TakesSlot(doc, q);
    assert Position(doc, [p, q]) == 2;
    assert Decimal(2) == [Digit(2)];
  }

  /**
   * The position depends on the document only before `bound`: an edit at
   * or after the argument leaves the numbering of its predecessors alone.
   */
  lemma {:induction false} PositionIgnoresLaterBytes(doc: Text, doc': Text, spans: seq<Span>, bound: int)
    requires doc.Wf() && doc'.Wf() && 0 <= bound <= |doc.bytes| && bound <= |doc'.bytes|
    requires doc.bytes[..bound] == doc'.bytes[..bound] && doc.nested[..bound] == doc'.nested[..bound]
    requires SpansBefore(spans, bound)
    ensures Position(doc, spans) == Position(doc', spans)
    decreases |spans|
  {
    if spans != [] {
      var last := spans[|spans| - 1];
      PositionIgnoresLaterBytes(doc, doc', spans[..|spans| - 1], bound);
      if last.Open() {
        assert Slice(doc, last.start, last.end) == Slice(doc', last.start, last.end) by {
          assert doc.bytes[last.start..last.end] == doc.bytes[..bound][last.start..last.end];
          assert doc'.bytes[last.start..last.end] == doc'.bytes[..bound][last.start..last.end];
          assert doc.nested[last.start..last.end] == doc.nested[..bound][last.start..last.end];
          assert doc'.nested[last.start..last.end] == doc'.nested[..bound][last.start..last.end];
        }
      }
    }
  }
}
