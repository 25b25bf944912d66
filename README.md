# Template arguments of wikitextparser, in Dafny

This project models the `Argument` class of wikitextparser
(`wikitextparser/argument.py`). An `Argument` is one argument of a template
call such as `{{t|name=value}}` or `{{t|value}}`. It is a view on the shared
`bytearray` of the parsed document. The model covers its three jobs:

- **Reading the argument.** The argument's bytes are split at the first
  `=` that does not lie inside a construct nested in the argument (a link, a
  nested template, ...). This is the *atomic partition*. From it come
  `name`, `value` and `positional`.
- **Numbering positional arguments.** A positional argument's name is its
  position: 1 plus the number of preceding sibling arguments that are open
  and hold no atomic `=`.
- **Editing in place.** The `name`, `value` and `positional` setters splice
  the argument's own bytes.

Bytes are the integer newtype `Bytes.byte`. Which offsets lie inside nested
subspans is an abstract flag per byte, `Buffer.Text.nested`. In the library
it comes from the span index (`_in_atomic_subspans_factory`,
`_atomic_partition`), which is not part of this model.

Modules, leaves first:

- `Bytes` (`bytes.dfy`): the marker bytes and `bytearray.find`. Also
  `str(int)` for positions, and the character count that `len()` gives for a
  decoded UTF-8 string.
- `Buffer` (`buffer.dfy`): `Text` (bytes plus their shielding), slicing and
  the splice `buffer[lo:hi] = ins`.
- `Atomic` (`atomic.dfy`): the atomic partition at `=`.
- `Resolver` (`resolver.dfy`): `name`, `value` and `positional` as functions
  of the argument's text. Also the sibling count behind positional names,
  and the lemmas about them.
- `Mutator` (`mutator.dfy`): each setter as a function from the old text to
  the new one, with round-trip and "nothing else changes" lemmas. It also
  holds the code as written for the finding below.
- `Arguments` (`argument.dfy`): the class `Argument`. It holds the shared
  buffer as three fields: the part before the argument, the argument's own
  bytes and the part after it. It also holds the preceding sibling spans.
  The getters are functions; `name` is a method with the source's loops.
  The setters are methods whose postconditions tie the new bytes to the
  `Mutator` functions.

The setters take the new name or value as a `Text`. The `nested` part of
that `Text` stands for how the library's re-parse shields the inserted
bytes. The bytes the setters add themselves (`|` and `=`) are never
shielded.

Two behaviours of the setters are easy to miss:

- **`positional = True` on a keyword argument.** The setter's docstring
  (wikitextparser/argument.py:77) says it changes the argument to
  positional. The code deletes the name and the `=`, so the argument becomes
  positional only when the old value holds no unshielded `=`. For example,
  `|a=b=c` becomes `|b=c`, which is a keyword argument named `b`. The model
  follows the code (`Mutator.KeywordToPositional` states both directions).
- **Setting the value of a positional argument.** The argument stays
  positional only when the new value holds no unshielded `=`
  (`Mutator.SetValueOnPositional`).

## Model

| member | source | states |
|---|---|---|
| `Atomic.AtomicPartition` | wikitextparser/argument.py:24-26 | The argument splits at an `=` exactly when one lies outside every nested construct. Head, `=` and tail rebuild the argument. The split is at the first such `=`, so a shielded `=` is never chosen. Without one, the head is everything and the tail is empty. |
| `Bytes.Find` | wikitextparser/argument.py:34 | `bytearray.find(b'=', lo, hi)` returns the first offset in `[lo, hi)` holding the byte, or -1 when there is none. |
| `Bytes.Decimal` | wikitextparser/argument.py:51 | `str(position)` is non-empty ASCII digits with no leading zero, so it never contains `=`. |
| `Bytes.DecimalRoundTrip` | wikitextparser/argument.py:51 | Reading the decimal name back as a number gives the position. |
| `Bytes.DecimalInjective` | wikitextparser/argument.py:51 | Distinct positions get distinct names. |
| `Bytes.CharCount` | wikitextparser/argument.py:65 | The character count `len()` gives for a decoded name is at most its byte count. |
| `Bytes.AsciiCharCount` | wikitextparser/argument.py:64-65 | On ASCII bytes the character count equals the byte count. |
| `Resolver.IsPositional` | wikitextparser/argument.py:67-73 | An argument is positional exactly when no `=` lies outside a nested construct. |
| `Resolver.Name` | wikitextparser/argument.py:24-26 | For a keyword argument, the name is the bytes strictly between the marker and the first unshielded `=`; none of them is an unshielded `=`. For a positional argument it is the decimal of the given position. |
| `Resolver.Value` | wikitextparser/argument.py:100-107 | The value is a proper suffix of the argument. For a keyword argument it starts right after the first unshielded `=`; for a positional one it is everything after the marker. |
| `Resolver.Reassembly` | wikitextparser/argument.py:24-26 | A keyword argument equals marker, name, `=` and value, and its name holds no unshielded `=`. A positional argument equals marker then value (covers lines 103-107 too). |
| `Resolver.KeywordSplit` | wikitextparser/argument.py:24-26 | Take an argument made of the marker, n, `=` and v, where every `=` in n is shielded and the `=` after n is not. Its name is n and its value is v, whatever `=` v holds. |
| `Resolver.NestedSeparatorExample` | wikitextparser/argument.py:100-107 | The argument `link=` followed by a link to `page` whose text is `x=y`, with the link shielded, has name `link` and the whole link as its value: the `=` inside the link is not the separator. |
| `Resolver.TakesSlotIff` | wikitextparser/argument.py:32-50 | An open sibling takes a positional slot exactly when every `=` in its span is shielded. A span with no `=` at all counts too. |
| `Resolver.CountPositional` | wikitextparser/argument.py:28-50 | The count of positional siblings is at most the number of siblings. |
| `Resolver.Position` | wikitextparser/argument.py:28-51 | A positional argument's position is at least 1 and at most one more than the number of preceding siblings. |
| `Resolver.CountAppend` | wikitextparser/argument.py:30-50 | Counting over two runs of siblings adds up. |
| `Resolver.ClosedSpanIgnored` | wikitextparser/argument.py:31-32 | A closed span (`ss >= se`) adds nothing to the count, wherever it sits. |
| `Resolver.RunOfPositionals` | wikitextparser/argument.py:28-51 | In a run of positional siblings, the k-th argument (counting from 1) has position k. |
| `Resolver.PositionalThenKeyword` | wikitextparser/argument.py:41-51 | Siblings [positional, keyword] before a positional argument give it the name `"2"`. |
| `Resolver.PositionIgnoresLaterBytes` | wikitextparser/argument.py:29-34 | The position depends only on the bytes and shielding before a bound that all open preceding spans respect. |
| `Mutator.SetNameText` | wikitextparser/argument.py:53-65 | The corrected name setter. A positional argument becomes marker, new name, `=` and the old content after the marker. A keyword argument keeps everything from its `=` on and has all its old name's bytes replaced: the old name's length is taken in bytes, where line 65 takes it in characters. |
| `Mutator.SetValueText` | wikitextparser/argument.py:109-117 | A keyword argument becomes marker, old name, `=` and the new value. A positional argument becomes marker and the new value. |
| `Mutator.SetPositionalText` | wikitextparser/argument.py:82-98 | The setter fails (`ValueError`) exactly when it would turn a positional argument into a keyword one. Asking for the state the argument is already in returns it unchanged. |
| `Mutator.KeywordToPositional` | wikitextparser/argument.py:83-86 | Keyword to positional leaves marker + old value. The result is positional exactly when that value holds no unshielded `=`, and its value is then the old value. |
| `Mutator.SetNameOnKeyword` | wikitextparser/argument.py:63-65 | Renaming a keyword argument keeps marker, `=` and value. A new name without unshielded `=` reads back as given. |
| `Mutator.SetNameOnPositional` | wikitextparser/argument.py:60-62 | Naming a positional argument replaces the marker with the marker, the name and `=`. The result is a keyword argument with that name, and its value is the old content. |
| `Mutator.SetValueOnKeyword` | wikitextparser/argument.py:112-115 | Setting a keyword argument's value keeps marker, name and `=`, and the value reads back as given. |
| `Mutator.SetValueOnPositional` | wikitextparser/argument.py:116-117 | Setting a positional argument's value keeps the marker. It stays positional exactly when the new value has no unshielded `=`, and the value then reads back as given. |
| `Mutator.RenameAsWritten` | wikitextparser/argument.py:60-65 | The name setter as written. On a keyword argument it replaces only as many bytes as the old name has characters, and keeps the rest. |
| `Mutator.RenameAsWrittenOnAscii` | wikitextparser/argument.py:64-65 | On an ASCII name the code as written equals the corrected setter. |
| `Mutator.RenameAsWrittenLeavesBytes` | wikitextparser/argument.py:64-65 | Renaming `é` to `x` as written leaves byte 0xA9 behind. The name's bytes become `x\xA9`, a continuation byte after an ASCII byte, so the `name` getter's strict UTF-8 decode then raises `UnicodeDecodeError`. The corrected setter gives `x`. |
| `Arguments.Argument.Positional` | wikitextparser/argument.py:67-73 | The argument is positional exactly when every `=` in its bytes lies inside a nested construct. |
| `Arguments.Argument.Value` | wikitextparser/argument.py:100-107 | The value is a proper suffix of the argument's bytes. For a positional argument it is everything after the marker. |
| `Arguments.Argument.Name` | wikitextparser/argument.py:17-51 | The loop returns the keyword name, or the decimal of 1 + the number of preceding open siblings without a separator. It reads them in the whole shared buffer. |
| `Arguments.SiblingTakesSlot` | wikitextparser/argument.py:34-50 | The `find` / `while ... else` scan returns true exactly when the sibling span holds no unshielded `=`. |
| `Arguments.Argument.SetName` | wikitextparser/argument.py:53-65 | The bytes become the renamed text; the rest of the buffer and the siblings are unchanged. A name without unshielded `=` reads back, the argument is keyword, and the value is kept. |
| `Arguments.Argument.SetValue` | wikitextparser/argument.py:109-117 | The bytes become the text with the new value; nothing else changes. A keyword argument keeps its name and reads back the new value. A positional one stays positional exactly when the value has no unshielded `=`. |
| `Arguments.Argument.SetPositional` | wikitextparser/argument.py:75-98 | The setter fails exactly for positional to keyword, and then nothing changes. Keyword to positional leaves marker + old value. The current state is a no-op. |

## Findings

| source | as written | input that shows it | evidently intended | confidence | as-written member | corrected member |
|---|---|---|---|---|---|---|
| wikitextparser/argument.py:64-65 | `self[1:1 + len(oldname)] = ...` takes `len` of the decoded name (characters) as a byte count | keyword argument `é=v` (after the marker) renamed to `x`: the bytes after the marker become `x\xA9=v`, the name's bytes become `x\xA9`, and the `name` getter then raises `UnicodeDecodeError` | replace all the bytes of the old name (`1 + len(oldname.encode())`) | high, not executed | `Mutator.RenameAsWritten` | `Mutator.SetNameText` |

The corrected setter is used by `Arguments.Argument.SetName`. Its
round-trip is proved by `Mutator.SetNameOnKeyword`.
`Mutator.RenameAsWrittenLeavesBytes` exhibits the discrepancy, and
`Mutator.RenameAsWrittenOnAscii` shows that both agree on ASCII names.

## Left out

- UTF-8 `encode()` / `decode()`: names and values are byte sequences. A name
  or value that is not valid UTF-8 would raise `UnicodeDecodeError` in the
  library; that error is not modelled.
- The span index (`SubWikiText`): it decides which bytes lie inside nested
  subspans (the `nested` flags) and which spans are siblings (the
  `preceding` field). It also shifts the spans that follow an edited
  argument. These are inputs or are not held by the model.
- Re-parsing after an edit: the shielding of inserted bytes is a parameter
  of the setters. The shielding of the bytes already there is assumed
  unchanged by an edit.
- Reads on a closed argument span: the library leaves them undefined.
  `Valid()` requires the argument to hold at least its marker `|`.
- Parameters (`{{{name}}}`), the tokenizer, document loading and all I/O
  are not part of this model.
