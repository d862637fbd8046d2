/** Bytes and C strings, as the text-handling modules see them. */
module Bytes {

  type byte = x: int | 0 <= x < 256

  /** The bytes of a C string without its terminator. */
  type str = seq<byte>

  const NUL: byte := 0
  const TAB: byte := 9
  const LF: byte := 10
  const CR: byte := 13
  const SPACE: byte := 32
  const QUOTE: byte := 34
  const COMMA: byte := 44
  const MINUS: byte := 45
  const DOT: byte := 46
  const SLASH: byte := 47
  const STAR: byte := 42
  const ZERO: byte := 48
  const NINE: byte := 57
  const COLON: byte := 58
  const LBRACKET: byte := 91
  const BACKSLASH: byte := 92
  const RBRACKET: byte := 93
  const LBRACE: byte := 123
  const RBRACE: byte := 125

  /** No byte of `s` is the terminator. */
  predicate NulFree(s: seq<byte>) {
    forall k :: 0 <= k < |s| ==> s[k] != NUL
  }

  /** Reading a C string: the byte at `i`, or the terminator at the end. */
  function At(s: seq<byte>, i: nat): byte {
    if i < |s| then s[i] else NUL
  }

  /** Does `s` start with `p`? This is `strncmp(s, p, strlen(p)) == 0`. */
  predicate StartsWith(s: seq<byte>, p: seq<byte>) {
    |p| <= |s| && s[..|p|] == p
  }

  predicate IsDigit(b: byte) {
    ZERO <= b <= NINE
  }

  /** Four bytes, the most significant one first. */
  function BigEndian(a: int, b: int, c: int, d: int): int {
    a * 0x100_0000 + b * 0x1_0000 + c * 0x100 + d
  }

  lemma AppendAssociates<T>(a: seq<T>, b: seq<T>, c: seq<T>)
    ensures a + b + c == a + (b + c)
  {
  }

  /** The chunks of a stream put together again. */
  function Flatten(fs: seq<seq<byte>>): seq<byte> {
    if fs == [] then [] else fs[0] + Flatten(fs[1..])
  }

  lemma {:induction false} FlattenAppend(fs: seq<seq<byte>>, f: seq<byte>)
    ensures Flatten(fs + [f]) == Flatten(fs) + f
  {
    if fs == [] {
      assert [] + [f] == [f];
    } else {
      FlattenAppend(fs[1..], f);
      assert (fs + [f])[1..] == fs[1..] + [f];
    }
  }

  lemma {:induction false} FlattenConcat(fs: seq<seq<byte>>, gs: seq<seq<byte>>)
    ensures Flatten(fs + gs) == Flatten(fs) + Flatten(gs)
  {
    if fs == [] {
      assert [] + gs == gs;
    } else {
      FlattenConcat(fs[1..], gs);
      assert (fs + gs)[1..] == fs[1..] + gs;
      AppendAssociates(fs[0], Flatten(fs[1..]), Flatten(gs));
    }
  }
}
