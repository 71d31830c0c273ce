/** Bytes, C strings and the character classes the server relies on. */
module Basics {

  datatype Option<+T> = None | Some(value: T)

  type Byte = b: int | 0 <= b < 256

  type Text = seq<Byte>

  /** A C string without its terminator: no byte of it is NUL. */
  type Key = k: Text | 0 !in k

  const NUL: Byte := 0
  const LF: Byte := 10
  const CR: Byte := 13
  const SPACE: Byte := 32
  const PERCENT: Byte := 37
  const PLUS: Byte := 43
  const COLON: Byte := 58

  const CRLF: Text := [CR, LF]
  const CRLFCRLF: Text := [CR, LF, CR, LF]

  /** The bytes of a text written out. */
  function Ascii(s: string): (t: Text)
    ensures |t| == |s|
  {
    seq(|s|, i requires 0 <= i < |s| => (s[i] as int) % 256)
  }

  /** The constants are the characters they are named for. */
  lemma NamedBytes()
    ensures Ascii("\0") == [NUL] && Ascii("\n") == [LF] && Ascii("\r") == [CR] && Ascii(" ") == [SPACE]
    ensures Ascii("%") == [PERCENT] && Ascii("+") == [PLUS] && Ascii(":") == [COLON]
    ensures Ascii("\r\n") == CRLF && Ascii("\r\n\r\n") == CRLFCRLF
  {
  }

  /** `isspace` in the C locale. */
  predicate IsSpace(b: Byte) {
    b == SPACE || 9 <= b <= 13
  }

  /** Tab, line feed, vertical tab, form feed, carriage return and space. */
  lemma IsSpaceIff(b: Byte)
    ensures IsSpace(b) <==> b in {9, 10, 11, 12, 13, 32}
  {
  }

  /** What a C reader sees of a buffer: everything before the first NUL. */
  function CString(t: Text): (k: Key)
    ensures k <= t
    ensures |k| < |t| ==> t[|k|] == NUL
  {
    if t == [] || t[0] == NUL then [] else [t[0]] + CString(t[1..])
  }

  lemma {:induction false} CStringOfKey(k: Key, rest: Text)
    ensures CString(k) == k
    ensures CString(k + [NUL] + rest) == k
  {
    if k == [] {
      assert (k + [NUL] + rest)[0] == NUL;
    } else {
      var tail: Key := k[1..];
      CStringOfKey(tail, rest);
      assert (k + [NUL] + rest)[1..] == tail + [NUL] + rest;
    }
  }

  /** A slice of a slice is a slice. */
  lemma SliceSlice(b: Text, s: nat, e: nat, i: nat, j: nat)
    requires s <= e <= |b| && i <= j <= e - s
    ensures b[s..e][i..j] == b[s + i..s + j]
  {
    var x, y := b[s..e][i..j], b[s + i..s + j];
    forall k | 0 <= k < |x| ensures x[k] == y[k] {
      assert x[k] == b[s..e][i + k] == b[s + i + k];
    }
  }

  /** The index `k` places behind `at` in an array of `cap` cells used as a ring. */
  function Wrapped(at: nat, k: nat, cap: nat): (i: nat)
    requires at < cap && k <= cap
    ensures i < cap
  {
    if at + k < cap then at + k else at + k - cap
  }

  lemma WrappedIsModulo(at: nat, k: nat, cap: nat)
    requires at < cap && k <= cap
    ensures Wrapped(at, k, cap) == (at + k) % cap
  {
    if at + k >= cap {
      ModuloOnce(at + k - cap, cap);
    }
  }

  lemma ModuloOnce(x: nat, cap: nat)
    requires 0 < cap && x < cap
    ensures (x + cap) % cap == x
  {
  }
}
