/**
 UTF-8 as section 3 of RFC 3629 defines it, independently of how the parser
 produces it: an encoder by code point range, and a decoder that accepts
 shortest forms of scalar values only. The two are inverse in both directions.
 */
module Utf8 {
  import opened Bytes

  /** Unicode scalar values: all code points but the surrogates. */
  predicate IsScalar(cp: int) {
    0 <= cp < 0xD800 || 0xE000 <= cp <= 0x10FFFF
  }

  /** The octet sequence of a code point. */
  function Encode(cp: nat): (bs: seq<byte>)
    requires cp <= 0x10FFFF
    ensures 1 <= |bs| <= 4
  {
    if cp < 0x80 then [cp]
    else if cp < 0x800 then [0xC0 + cp / 64, Tail(cp)]
    else if cp < 0x10000 then [0xE0 + cp / 64 / 64, Tail(cp / 64), Tail(cp)]
    else [0xF0 + cp / 64 / 64 / 64, Tail(cp / 64 / 64), Tail(cp / 64), Tail(cp)]
  }

  /** A continuation octet: the low six bits under the mark `10`. */
  function Tail(cp: nat): byte {
    0x80 + cp % 64
  }

  datatype Decoded = CodePoint(cp: nat) | Invalid

  /** Reads one whole octet sequence; overlong forms and surrogates are invalid. */
  function Decode(bs: seq<byte>): Decoded {
    if |bs| == 1 && bs[0] < 0x80 then
      CodePoint(bs[0])
    else if |bs| == 2 && 0xC0 <= bs[0] < 0xE0 && IsTail(bs[1]) then
      Checked(Join(Bits(bs[0], 0xC0), bs[1]), 0x80)
    else if |bs| == 3 && 0xE0 <= bs[0] < 0xF0 && IsTail(bs[1]) && IsTail(bs[2]) then
      Checked(Join(Join(Bits(bs[0], 0xE0), bs[1]), bs[2]), 0x800)
    else if |bs| == 4 && 0xF0 <= bs[0] < 0xF8 && IsTail(bs[1]) && IsTail(bs[2]) && IsTail(bs[3]) then
      Checked(Join(Join(Join(Bits(bs[0], 0xF0), bs[1]), bs[2]), bs[3]), 0x10000)
    else
      Invalid
  }

  predicate IsTail(b: byte) {
    0x80 <= b < 0xC0
  }

  function Bits(b: int, mark: nat): nat
    requires mark <= b
  {
    b - mark
  }

  function Join(high: nat, tail: byte): nat
    requires IsTail(tail)
  {
    high * 64 + Bits(tail, 0x80)
  }

  function Checked(cp: nat, least: nat): Decoded {
    if least <= cp && IsScalar(cp) then CodePoint(cp) else Invalid
  }

  /** Splitting off the low six bits and joining them again are inverse. */
  lemma JoinTail(high: nat, tail: byte, cp: nat)
    requires IsTail(tail)
    ensures Join(high, tail) == cp <==> high == cp / 64 && tail == Tail(cp)
  {
  }

  /** An octet sequence decodes to `cp` exactly when it is the encoding of the scalar value `cp`. */
  lemma DecodeEncode(bs: seq<byte>, cp: nat)
    ensures Decode(bs) == CodePoint(cp) <==> IsScalar(cp) && bs == Encode(cp)
  {
    if 2 <= |bs| <= 4 && bs[0] >= 0xC0 && forall k :: 1 <= k < |bs| ==> IsTail(bs[k]) {
      if |bs| == 2 {
        JoinTail(Bits(bs[0], 0xC0), bs[1], cp);
      } else if |bs| == 3 && bs[0] >= 0xE0 {
        JoinTail(Bits(bs[0], 0xE0), bs[1], cp / 64);
        JoinTail(Join(Bits(bs[0], 0xE0), bs[1]), bs[2], cp);
      } else if |bs| == 4 && bs[0] >= 0xF0 {
        JoinTail(Bits(bs[0], 0xF0), bs[1], cp / 64 / 64);
        JoinTail(Join(Bits(bs[0], 0xF0), bs[1]), bs[2], cp / 64);
        JoinTail(Join(Join(Bits(bs[0], 0xF0), bs[1]), bs[2]), bs[3], cp);
      }
    }
  }
}
