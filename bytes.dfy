/**
 * Byte-level helpers that the argument code relies on: the marker bytes,
 * `bytearray.find`, `str(position)` for positional names, and the number
 * of characters that `len()` reports for a decoded UTF-8 string.
 */
module Bytes {

  /** One byte of the document's UTF-8 buffer. */
  newtype byte = x: int | 0 <= x < 0x100

  const PIPE: byte := 0x7C  // '|', the marker byte an argument starts with
  const EQ: byte := 0x3D    // '=', the keyword separator
  const ZERO: byte := 0x30  // '0'
  const NINE: byte := 0x39  // '9'

  /** `s.find(b, lo, hi)`: the first offset in [lo, hi) that holds `b`, or -1. */
  function Find(s: seq<byte>, b: byte, lo: int, hi: int): (r: int)
    requires 0 <= lo <= hi <= |s|
    ensures r == -1 || lo <= r < hi
    ensures r == -1 ==> forall j :: lo <= j < hi ==> s[j] != b
    ensures r != -1 ==> s[r] == b && forall j :: lo <= j < r ==> s[j] != b
    decreases hi - lo
  {
    if lo == hi then -1
    else if s[lo] == b then lo
    else Find(s, b, lo + 1, hi)
  }

  predicate IsDigit(b: byte) {
    ZERO <= b <= NINE
  }

  function Digit(d: nat): (b: byte)
    requires d < 10
  {
    ZERO + d as byte
  }

  /** `str(n).encode()`: base-10 ASCII digits, no sign, no leading zero. */
  function Decimal(n: nat): (r: seq<byte>)
    ensures |r| >= 1
    ensures forall k :: 0 <= k < |r| ==> IsDigit(r[k])
    ensures n > 0 ==> r[0] != ZERO
  {
    if n < 10 then [Digit(n)] else Decimal(n / 10) + [Digit(n % 10)]
  }

  /** `int(r)` for a string of ASCII digits. */
  function DecimalValue(r: seq<byte>): nat
    requires forall k :: 0 <= k < |r| ==> IsDigit(r[k])
  {
    if r == [] then 0
    else assert IsDigit(r[|r| - 1]); 10 * DecimalValue(r[..|r| - 1]) + (r[|r| - 1] as int - ZERO as int)
  }

  /** Reading a position back from its decimal name gives the position. */
  lemma {:induction false} DecimalRoundTrip(n: nat)
    ensures DecimalValue(Decimal(n)) == n
  {
    var r := Decimal(n);
    if n < 10 {
      assert r[..|r| - 1] == [];
    } else {
      var q, d := n / 10, n % 10;
      assert r[..|r| - 1] == Decimal(q);
      DecimalRoundTrip(q);
      assert n == 10 * q + d;
    }
  }

  /** Distinct positions get distinct names. */
  lemma DecimalInjective(m: nat, n: nat)
    requires Decimal(m) == Decimal(n)
    ensures m == n
  {
    DecimalRoundTrip(m);
    DecimalRoundTrip(n);
  }

  predicate IsContinuation(b: byte) {
    0x80 <= b < 0xC0
  }

  /**
   * `len(s.decode())` for valid UTF-8 `s`: every byte that is not a
   * continuation byte (0x80 to 0xBF) starts one character.
   */
  function CharCount(s: seq<byte>): (r: nat)
    ensures r <= |s|
  {
    if s == [] then 0
    else CharCount(s[..|s| - 1]) + (if IsContinuation(s[|s| - 1]) then 0 else 1)
  }

  /** On ASCII bytes the character count is the byte count. */
  lemma {:induction false} AsciiCharCount(s: seq<byte>)
    requires forall k :: 0 <= k < |s| ==> s[k] < 0x80
    ensures CharCount(s) == |s|
  {
    if s != [] {
      AsciiCharCount(s[..|s| - 1]);
    }
  }
}
