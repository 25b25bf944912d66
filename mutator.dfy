/**
 * The setters of an argument as functions from its old text to its new
 * text. Each one is a single splice `self[lo:hi] = ...` (or `del
 * self[lo:hi]`) at offsets computed from the atomic partition.
 *
 * The text inserted by a setter comes with its own shielding (`nested`):
 * which of its bytes the parser places inside nested constructs. For the
 * bytes the setters add themselves ('|' and '=') that flag is false.
 */
module Mutator {
  import opened Bytes
  import opened Buffer
  import opened Atomic
  import opened Resolver

  /** `ValueError`: a positional argument cannot become a keyword one without a name. */
  datatype ArgumentError = ValueError

  datatype Result<T> = Ok(value: T) | Err(error: ArgumentError)

  /**
   * `name = newname`. A positional argument has its marker replaced by
   * '|' + newname + '='; a keyword argument has the bytes of its old name
   * replaced. (The old name's length is taken in bytes; see
   * RenameAsWritten for the character count the code uses.)
   */
  function SetNameText(t: Text, newName: Text): (r: Text)
    requires IsArgument(t) && newName.Wf()
    ensures IsArgument(r)
    ensures IsPositional(t) ==> r.bytes == [PIPE] + newName.bytes + [EQ] + t.bytes[1..]
    ensures !IsPositional(t) ==> r.bytes == [PIPE] + newName.bytes + t.bytes[1 + |Name(t, 1)|..]
  {
    var p := AtomicPartition(t);
    if !p.found then
      Splice(t, 0, 1, Text([PIPE] + newName.bytes + [EQ], [false] + newName.nested + [false]))
    else
      Splice(t, 1, 1 + |p.head[1..]|, newName)
  }

  /** `value = newvalue`: the bytes after the separator, or after the marker, are replaced. */
  function SetValueText(t: Text, newValue: Text): (r: Text)
    requires IsArgument(t) && newValue.Wf()
    ensures IsArgument(r)
    ensures IsPositional(t) ==> r.bytes == [PIPE] + newValue.bytes
    ensures !IsPositional(t) ==> r.bytes == [PIPE] + Name(t, 1) + [EQ] + newValue.bytes
  {
    var p := AtomicPartition(t);
    if p.found then
      var pnel := |p.head| + 1;
      Splice(t, pnel, pnel + |p.tail|, newValue)
    else
      Splice(t, 1, |p.head|, newValue)
  }

  /**
   * `positional = toPositional`. Keyword to positional deletes the name and
   * the separator; asking for the state the argument is in changes
   * nothing; positional to keyword fails, before any change.
   */
  function SetPositionalText(t: Text, toPositional: bool): (r: Result<Text>)
    requires IsArgument(t)
    ensures r.Err? <==> IsPositional(t) && !toPositional
    ensures IsPositional(t) == toPositional ==> r == Ok(t)
  {
    var p := AtomicPartition(t);
    if p.found then
      if toPositional then Ok(Splice(t, 1, |p.head| + 1, Empty)) else Ok(t)
    else if toPositional then Ok(t)
    else Err(ValueError)
  }

  /**
   * Renaming a keyword argument replaces only its name: the marker, the
   * separator and the value stay, and the name reads back as given.
   */
  lemma SetNameOnKeyword(t: Text, newName: Text, position: nat)
    requires IsArgument(t) && !IsPositional(t)
    requires newName.Wf() && IsPositional(newName)
    ensures var r := SetNameText(t, newName);
      IsArgument(r) && !IsPositional(r)
      && r.bytes == [PIPE] + newName.bytes + t.bytes[1 + |Name(t, position)|..]
      && Name(r, position) == newName.bytes
      && Value(r) == Value(t)
  {
    var p := AtomicPartition(t);
    var i := |p.head|;
    var r := SetNameText(t, newName);
    assert !IsSep(t, 0);
    assert r.bytes == [PIPE] + newName.bytes + t.bytes[i..];
    assert t.bytes[i..] == [EQ] + p.tail;
    forall j | 0 <= j < |newName.bytes| && newName.bytes[j] == EQ
      ensures r.nested[j + 1]
    {
      assert !IsSep(newName, j);
    }
    KeywordSplit(r, newName.bytes, p.tail, position);
  }

  /**
   * Naming a positional argument turns it into a keyword argument with
   * that name whose value is its old content.
   */
  lemma SetNameOnPositional(t: Text, newName: Text, position: nat)
    requires IsArgument(t) && IsPositional(t)
    requires newName.Wf() && IsPositional(newName)
    ensures var r := SetNameText(t, newName);
      IsArgument(r) && !IsPositional(r)
      && r.bytes == [PIPE] + newName.bytes + [EQ] + t.bytes[1..]
      && Name(r, position) == newName.bytes
      && Value(r) == Value(t)
  {
    var r := SetNameText(t, newName);
    assert r.bytes == [PIPE] + newName.bytes + [EQ] + t.bytes[1..];
    forall j | 0 <= j < |newName.bytes| && newName.bytes[j] == EQ
      ensures r.nested[j + 1]
    {
      assert !IsSep(newName, j);
    }
    KeywordSplit(r, newName.bytes, t.bytes[1..], position);
  }

  /**
   * Setting the value of a keyword argument keeps its marker, name and
   * separator, and the value reads back as given, whatever '=' it holds.
   */
  lemma SetValueOnKeyword(t: Text, newValue: Text, position: nat)
    requires IsArgument(t) && !IsPositional(t) && newValue.Wf()
    ensures var r := SetValueText(t, newValue);
      IsArgument(r) && !IsPositional(r)
      && r.bytes == [PIPE] + Name(t, position) + [EQ] + newValue.bytes
      && Name(r, position) == Name(t, position)
      && Value(r) == newValue.bytes
  {
    var p := AtomicPartition(t);
    var i := |p.head|;
    var r := SetValueText(t, newValue);
    var name := p.head[1..];
    assert !IsSep(t, 0);
    assert r.bytes == [PIPE] + name + [EQ] + newValue.bytes;
    forall j | 0 <= j < |name| && name[j] == EQ
      ensures r.nested[j + 1]
    {
      assert !IsSep(t, j + 1);
    }
    KeywordSplit(r, name, newValue.bytes, position);
  }

  /**
   * Setting the value of a positional argument keeps its marker. It stays
   * positional exactly when the new value holds no '=' outside nested
   * constructs, and then the value reads back as given.
   */
  lemma SetValueOnPositional(t: Text, newValue: Text)
    requires IsArgument(t) && IsPositional(t) && newValue.Wf()
    ensures var r := SetValueText(t, newValue);
      IsArgument(r) && r.bytes == [PIPE] + newValue.bytes
      && (IsPositional(r) <==> IsPositional(newValue))
      && (IsPositional(newValue) ==> Value(r) == newValue.bytes)
  {
    var r := SetValueText(t, newValue);
    assert r.bytes == [PIPE] + newValue.bytes;
    assert r.nested == [t.nested[0]] + newValue.nested;
    MarkerThenText(r, newValue);
  }

  /**
   * Keyword to positional leaves the marker followed by the old value. The
   * argument is then positional exactly when that value holds no '='
   * outside nested constructs, and its value is unchanged.
   */
  lemma KeywordToPositional(t: Text)
    requires IsArgument(t) && !IsPositional(t)
    ensures SetPositionalText(t, true).Ok?
    ensures var r := SetPositionalText(t, true).value;
      var valueStart := |Name(t, 1)| + 2;
      IsArgument(r) && r.bytes == [PIPE] + Value(t)
      && (IsPositional(r) <==> IsPositional(Slice(t, valueStart, |t.bytes|)))
      && (IsPositional(r) ==> Value(r) == Value(t))
  {
    var p := AtomicPartition(t);
    var i := |p.head|;
    var r := SetPositionalText(t, true).value;
    var v := Slice(t, i + 1, |t.bytes|);
    assert !IsSep(t, 0);
    assert r.bytes == [PIPE] + p.tail;
    assert r.bytes == [PIPE] + v.bytes;
    assert r.nested == [t.nested[0]] + v.nested;
    MarkerThenText(r, v);
  }

  /**
   * An argument made of the marker and a text `v` is positional exactly
   * when `v` holds no separator, and its value is then `v`.
   */
  lemma MarkerThenText(r: Text, v: Text)
    requires IsArgument(r) && v.Wf()
    requires r.bytes == [PIPE] + v.bytes && r.nested == [r.nested[0]] + v.nested
    ensures IsPositional(r) <==> IsPositional(v)
    ensures IsPositional(v) ==> Value(r) == v.bytes
  {
    forall j | 0 <= j < |r.bytes| ensures IsSep(r, j) <==> (j > 0 && IsSep(v, j - 1)) {
    }
    if IsPositional(v) {
      forall j ensures !IsSep(r, j) {
        if 0 < j < |r.bytes| {
          assert !IsSep(v, j - 1);
        }
      }
      assert AtomicPartition(r).head == r.bytes;
    } else {
      var j :| 0 <= j < |v.bytes| && IsSep(v, j);
      assert IsSep(r, j + 1);
    }
  }

  /**
   * The name setter as written. A positional argument is handled as in
   * SetNameText; for a keyword argument the old name's length is the number
   * of characters the name decodes to, used as a byte count.
   */
  function RenameAsWritten(t: Text, newName: Text): (r: Text)
    requires IsArgument(t) && newName.Wf()
    ensures r.Wf()
    ensures !IsPositional(t) ==> r.bytes == [PIPE] + newName.bytes + t.bytes[1 + CharCount(Name(t, 1))..]
  {
    if IsPositional(t) then SetNameText(t, newName)
    else
      var oldName := AtomicPartition(t).head[1..];
      Splice(t, 1, 1 + CharCount(oldName), newName)
  }

  /** On an ASCII name, the code as written and the corrected setter agree. */
  lemma RenameAsWrittenOnAscii(t: Text, newName: Text)
    requires IsArgument(t) && newName.Wf()
    requires forall k :: 0 <= k < |Name(t, 1)| ==> Name(t, 1)[k] < 0x80
    ensures RenameAsWritten(t, newName) == SetNameText(t, newName)
  {
    AsciiCharCount(Name(t, 1));
  }

  /**
   * `{{t|é=v}}` renamed to `x`: the code as written replaces one byte of
   * the two-byte name and leaves 0xA9 behind, so the name's bytes become
   * "x\xA9": a continuation byte after an ASCII byte, which strict UTF-8
   * decoding rejects, so the `name` getter then raises UnicodeDecodeError.
   * The corrected setter gives "x".
   */
  lemma RenameAsWrittenLeavesBytes()
    ensures var t := Text([PIPE, 0xC3, 0xA9, EQ, 0x76], [false, false, false, false, false]);
      var x := Text([0x78], [false]);
      IsArgument(t) && !IsPositional(t)
      && Name(RenameAsWritten(t, x), 1) == [0x78, 0xA9]
      && Name(RenameAsWritten(t, x), 1)[0] < 0x80 && IsContinuation(Name(RenameAsWritten(t, x), 1)[1])
      && Name(SetNameText(t, x), 1) == [0x78]
  {
    var t := Text([PIPE, 0xC3, 0xA9, EQ, 0x76], [false, false, false, false, false]);
    var x := Text([0x78], [false]);
    KeywordSplit(t, [0xC3, 0xA9], [0x76], 1);
    assert CharCount([0xC3, 0xA9]) == 1 by {
      assert [0xC3, 0xA9][..1] == [0xC3];
      assert [0xC3][..0] == [];
    }
    var w := RenameAsWritten(t, x);
    assert w.bytes == [PIPE, 0x78, 0xA9, EQ, 0x76];
    KeywordSplit(w, [0x78, 0xA9], [0x76], 1);
    SetNameOnKeyword(t, x, 1);
  }
}
