/**
 * `Argument`: one template argument (`|name=value` or `|value` in
 * `{{t|...}}`) as a view on the document's shared buffer. Every read
 * recomputes from the current bytes; every write is a splice of the
 * shared buffer inside the argument's own span.
 */
module Arguments {
  import opened Bytes
  import opened Buffer
  import opened Atomic
  import opened Resolver
  import opened Mutator

  class Argument {
    /** `_bytearray[:start]`: the document before the argument, where its preceding siblings lie. */
    var before: Text
    /** `_bytearray[start:end]`: the argument's own span. */
    var content: Text
    /** `_bytearray[end:]`: the rest of the document. */
    var after: Text
    /** `_type_to_spans[_type][:_index]`: the template's arguments before this one. */
    var preceding: seq<Span>

    ghost predicate Valid()
      reads this
    {
      before.Wf() && IsArgument(content) && after.Wf() && SpansBefore(preceding, |before.bytes|)
    }

    /** The whole shared buffer. */
    function Document(): (d: Text)
      reads this
      requires Valid()
      ensures d.Wf()
    {
      Text(before.bytes + content.bytes + after.bytes, before.nested + content.nested + after.nested)
    }

    constructor (doc: Text, start: int, end: int, preceding: seq<Span>)
      requires doc.Wf() && 0 <= start < end <= |doc.bytes| && doc.bytes[start] == PIPE
      requires SpansBefore(preceding, start)
      ensures Valid() && Document() == doc && this.preceding == preceding
      ensures content == Slice(doc, start, end) && |before.bytes| == start
    {
      before := Slice(doc, 0, start);
      content := Slice(doc, start, end);
      after := Slice(doc, end, |doc.bytes|);
      this.preceding := preceding;
      new;
      assert doc.bytes == doc.bytes[0..start] + doc.bytes[start..end] + doc.bytes[end..|doc.bytes|];
      assert doc.nested == doc.nested[0..start] + doc.nested[start..end] + doc.nested[end..|doc.nested|];
    }

    /** `positional`: every '=' of the argument lies inside a nested construct. */
    function Positional(): (r: bool)
      reads this
      requires Valid()
      ensures r <==> forall j :: 0 <= j < |content.bytes| && content.bytes[j] == EQ ==> content.nested[j]
    {
      assert forall j :: 0 <= j < |content.bytes| ==> (IsSep(content, j) <==> content.bytes[j] == EQ && !content.nested[j]);
      IsPositional(content)
    }

    /** `value`: a proper suffix of the argument, never its marker. */
    function Value(): (r: seq<byte>)
      reads this
      requires Valid()
      ensures |r| < |content.bytes| && r == content.bytes[|content.bytes| - |r|..]
      ensures Positional() ==> r == content.bytes[1..]
    {
      Reassembly(content, 1);
      Resolver.Value(content)
    }

    /**
     * `name`: for a keyword argument the bytes between the marker and the
     * separator; for a positional one the decimal position, one more than
     * the number of preceding open siblings that hold no separator.
     */
    method Name() returns (name: seq<byte>)
      requires Valid()
      ensures SpansBefore(preceding, |Document().bytes|)
      ensures name == Resolver.Name(content, Position(before, preceding))
      ensures name == Resolver.Name(content, Position(Document(), preceding))
    {
      ghost var doc := Document();
      assert doc.bytes[..|before.bytes|] == before.bytes[..|before.bytes|];
      assert doc.nested[..|before.bytes|] == before.nested[..|before.bytes|];
      PositionIgnoresLaterBytes(before, doc, preceding, |before.bytes|);
      var p := AtomicPartition(content);
      if p.found {
        return p.head[1..];
      }
      // positional argument
      var position := 1;
      for k := 0 to |preceding|
        invariant position == 1 + CountPositional(before, preceding[..k])
      {
        assert preceding[..k + 1][..k] == preceding[..k];
        var ss, se := preceding[k].start, preceding[k].end;
        // Make sure the span is not closed.
        if ss < se {
          assert preceding[k] in preceding;
          var slot := SiblingTakesSlot(before, ss, se);
          if slot {
            position := position + 1;
          }
        }
      }
      assert preceding[..|preceding|] == preceding;
      name := Decimal(position);
    }

    /**
     * `self[lo:hi] = ins`, relative to the argument's start: only the
     * argument's own bytes change; the buffer moves what follows.
     */
    method Replace(lo: int, hi: int, ins: Text)
      requires Valid() && ins.Wf() && 0 <= lo <= hi <= |content.bytes|
      requires lo >= 1 || (|ins.bytes| >= 1 && ins.bytes[0] == PIPE)
      modifies this
      ensures Valid() && content == Splice(old(content), lo, hi, ins)
      ensures before == old(before) && after == old(after) && preceding == old(preceding)
    {
      content := Splice(content, lo, hi, ins);
    }

    /**
     * `name = newName`. A positional argument becomes a keyword argument
     * whose value is its old content; a keyword argument keeps its
     * separator and value. A name without a separator of its own reads
     * back as given.
     */
    method SetName(newName: Text)
      requires Valid() && newName.Wf()
      modifies this
      ensures Valid() && content == SetNameText(old(content), newName)
      ensures before == old(before) && after == old(after) && preceding == old(preceding)
      ensures IsPositional(newName) ==> !Positional() && Resolver.Name(content, 1) == newName.bytes
      ensures IsPositional(newName) ==> Value() == old(Value())
    {
      var oldName := Name();
      ghost var t := content;
      if Positional() {
        Replace(0, 1, Text([PIPE] + newName.bytes + [EQ], [false] + newName.nested + [false]));
        if IsPositional(newName) {
          SetNameOnPositional(t, newName, 1);
        }
      } else {
        Replace(1, 1 + |oldName|, newName);
        if IsPositional(newName) {
          SetNameOnKeyword(t, newName, 1);
        }
      }
    }

    /**
     * `value = newValue`. A keyword argument keeps its marker, name and
     * separator; a positional one keeps its marker and stays positional
     * exactly when the new value holds no separator. The value reads back
     * as given whenever the argument keeps its kind.
     */
    method SetValue(newValue: Text)
      requires Valid() && newValue.Wf()
      modifies this
      ensures Valid() && content == SetValueText(old(content), newValue)
      ensures before == old(before) && after == old(after) && preceding == old(preceding)
      ensures !old(Positional()) ==>
        !Positional() && Value() == newValue.bytes
        && Resolver.Name(content, 1) == Resolver.Name(old(content), 1)
      ensures old(Positional()) ==> (Positional() <==> IsPositional(newValue))
      ensures old(Positional()) && IsPositional(newValue) ==> Value() == newValue.bytes
    {
      ghost var t := content;
      var p := AtomicPartition(content);
      if p.found {
        var pnel := |p.head| + 1;
        Replace(pnel, pnel + |p.tail|, newValue);
        assert content == SetValueText(t, newValue);
        SetValueOnKeyword(t, newValue, 1);
      } else {
        Replace(1, |p.head|, newValue);
        assert content == SetValueText(t, newValue);
        SetValueOnPositional(t, newValue);
      }
    }

    /**
     * `positional = toPositional`. Keyword to positional deletes the name
     * and the separator; the state the argument is already in is kept;
     * positional to keyword is a `ValueError` and changes nothing.
     */
    method SetPositional(toPositional: bool) returns (r: Result<()>)
      requires Valid()
      modifies this
      ensures Valid() && before == old(before) && after == old(after) && preceding == old(preceding)
      ensures r.Err? <==> old(Positional()) && !toPositional
      ensures r.Err? ==> content == old(content)
      ensures r.Ok? ==> content == SetPositionalText(old(content), toPositional).value
      ensures old(Positional()) == toPositional ==> content == old(content)
      ensures !old(Positional()) && toPositional ==> content.bytes == [PIPE] + old(Value())
    {
      ghost var t := content;
      var p := AtomicPartition(content);
      if p.found {
        if toPositional {
          Replace(1, |p.head| + 1, Empty);
          KeywordToPositional(t);
        }
        return Ok(());
      } else if toPositional {
        return Ok(());
      } else {
        return Err(ValueError);
      }
    }
  }

  /**
   * The loop body of the name getter (wikitextparser/argument.py:34-50): the sibling span [ss, se) takes a
   * positional slot when it holds no '=' at all, or when every '=' in it
   * lies in a nested construct (the `while ... else` branch).
   */
  method SiblingTakesSlot(doc: Text, ss: int, se: int) returns (slot: bool)
    requires doc.Wf() && 0 <= ss < se <= |doc.bytes|
    ensures slot == TakesSlot(doc, Span(ss, se))
  {
    TakesSlotIff(doc, Span(ss, se));
    var equalIndex := Find(doc.bytes, EQ, ss, se);
    if equalIndex == -1 {
      // A preceding positional argument.
      assert forall j :: ss <= j < se ==> !IsSep(doc, j);
      return true;
    }
    while equalIndex != -1
      invariant equalIndex == -1 || (ss <= equalIndex < se && doc.bytes[equalIndex] == EQ)
      invariant forall j :: ss <= j < (if equalIndex == -1 then se else equalIndex) ==> !IsSep(doc, j)
      decreases if equalIndex == -1 then 0 else se - equalIndex
    {
      if !doc.nested[equalIndex] {
        // A keyword argument.
        break;
      }
      // An '=' inside a nested construct; look for the next one.
      equalIndex := Find(doc.bytes, EQ, equalIndex + 1, se);
    }
    // The `else` of the while: every '=' was inside a nested construct.
    slot := equalIndex == -1;
    if !slot {
      assert IsSep(doc, equalIndex);
    }
  }
}
