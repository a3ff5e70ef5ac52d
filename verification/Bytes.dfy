/** Bytes, byte strings, and the character classes that the line editor tests for. */
module Bytes {
  newtype byte = b: int | 0 <= b < 256

  /** A byte string: a C string without its terminator, or a pointer with a length. */
  type Text = seq<byte>

  const NEWLINE: byte := 10
  const SPACE: byte := 32
  const DELETE: byte := 127

  /** A byte that occupies one terminal cell; in particular it is neither NUL nor a control byte. */
  predicate IsPrintable(b: byte) {
    b >= SPACE && b != DELETE
  }

  predicate Printable(s: Text) {
    forall i | 0 <= i < |s| :: IsPrintable(s[i])
  }

  predicate NulFree(s: Text) {
    forall i | 0 <= i < |s| :: s[i] != 0
  }

  /** `isspace` of the C locale. */
  predicate IsSpace(b: byte) {
    b == SPACE || 9 <= b <= 13
  }

  /** The symbol alphabet of Janet: letters, digits, every byte with the top bit set,
      and `! $ % & * + - . / : < ? = > @ ^ _`. */
  predicate IsSymbolChar(b: byte) {
    || b >= 128
    || 97 <= b <= 122
    || 65 <= b <= 90
    || 48 <= b <= 57
    || b == 33 || 36 <= b <= 38 || b == 42 || b == 43 || 45 <= b <= 47 || b == 58
    || 60 <= b <= 64 || b == 94 || b == 95
  }

  predicate Symbolic(s: Text) {
    forall i | 0 <= i < |s| :: IsSymbolChar(s[i])
  }

  /** `n` blanks. */
  function Spaces(n: nat): (s: Text)
    ensures |s| == n && forall i | 0 <= i < n :: s[i] == SPACE
  {
    seq(n, i => SPACE)
  }

  /** `memmove`: the source range is read as it was before the call, even when the ranges overlap. */
  method Memmove(a: array<byte>, dst: nat, src: nat, n: nat)
    requires dst + n <= a.Length && src + n <= a.Length
    modifies a
    ensures forall i {:trigger a[i]} | 0 <= i < a.Length ::
              a[i] == if dst <= i < dst + n then old(a[i - dst + src]) else old(a[i])
  {
    forall i | 0 <= i < n {
      a[dst + i] := a[src + i];
    }
  }
}
