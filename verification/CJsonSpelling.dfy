/**
 How the strings of JSON are spelled, in bytes: section 7 of RFC 8259, and what net4g/src/cjson.c
 takes beside it. The functions of the parser and the printer are not used to say it; that the
 parser and the printer keep to it is proved.
 */
module CJsonSpelling {
  import opened Bytes
  import opened CJsonString
  import Utf8

  // ---- strings ----

  /** The value of a hexadecimal digit, in either case. */
  function HexOf(h: int): int {
    if 48 <= h <= 57 then h - 48 else if 97 <= h <= 102 then h - 87 else if 65 <= h <= 70 then h - 55 else -1
  }

  predicate FourHex(h: seq<byte>) {
    |h| == 4 && HexOf(h[0]) >= 0 && HexOf(h[1]) >= 0 && HexOf(h[2]) >= 0 && HexOf(h[3]) >= 0
  }

  function UnitOf(h: seq<byte>): (u: nat)
    requires FourHex(h)
    ensures u < 0x10000
  {
    HexOf(h[0]) * 0x1000 + HexOf(h[1]) * 0x100 + HexOf(h[2]) * 0x10 + HexOf(h[3])
  }

  /** The octets of a code point: the table in section 3 of RFC 3629. */
  function Octets(cp: nat): seq<byte>
    requires cp <= 0x10FFFF
  {
    if cp <= 0x7F then [cp]
    else if cp <= 0x7FF then [192 + cp / 64, 128 + cp % 64]
    else if cp <= 0xFFFF then [224 + cp / 4096, 128 + cp / 64 % 64, 128 + cp % 64]
    else [240 + cp / 262144, 128 + cp / 4096 % 64, 128 + cp / 64 % 64, 128 + cp % 64]
  }

  lemma OctetsAreUtf8(cp: nat)
    requires cp <= 0x10FFFF
    ensures Octets(cp) == Utf8.Encode(cp)
  {
    assert cp / 64 / 64 == cp / 4096 && cp / 64 / 64 / 64 == cp / 262144;
  }

  /** A piece of a literal: a byte that stands for itself, a backslash and a letter, a backslash with `u`
      and four digits, or two of these. */
  datatype Piece = Plain(c: byte) | Quick(letter: byte) | Unit(digits: seq<byte>) | Pair(high: seq<byte>, low: seq<byte>)

  /** The two-byte escapes: b, f, n, r, t. Any other letter but u stands for itself; RFC 8259 has the
      quote, the backslash and the slash. */
  function Quickly(letter: byte): byte {
    if letter == 98 then 8 else if letter == 102 then 12 else if letter == 110 then 10
    else if letter == 114 then 13 else if letter == 116 then 9 else letter
  }

  predicate PieceOk(p: Piece) {
    match p
    case Plain(c) => c != 34 && c != 92
    case Quick(letter) => letter != 117
    case Unit(h) => FourHex(h)
    case Pair(h, l) => FourHex(h) && FourHex(l) && 0xD800 <= UnitOf(h) <= 0xDBFF
  }

  function PieceText(p: Piece): seq<byte> {
    match p
    case Plain(c) => [c]
    case Quick(letter) => [92, letter]
    case Unit(h) => [92, 117] + h
    case Pair(h, l) => [92, 117] + h + [92, 117] + l
  }

  /** What a piece stands for. A surrogate without its partner and the code point 0 stand for nothing. */
  function PieceValue(p: Piece): seq<byte>
    requires PieceOk(p)
  {
    match p
    case Plain(c) => [c]
    case Quick(letter) => [Quickly(letter)]
    case Unit(h) => if UnitOf(h) == 0 || 0xD800 <= UnitOf(h) <= 0xDFFF then [] else Octets(UnitOf(h))
    case Pair(h, l) =>
      if 0xDC00 <= UnitOf(l) <= 0xDFFF then Octets(0x10000 + (UnitOf(h) - 0xD800) * 0x400 + (UnitOf(l) - 0xDC00)) else []
  }

  /** A first surrogate is a piece of its own only if no other escape with `u` follows. */
  predicate Follows(p: Piece, after: seq<byte>)
    requires PieceOk(p)
  {
    p.Unit? && 0xD800 <= UnitOf(p.digits) <= 0xDBFF ==> !(At(after, 0) == 92 && At(after, 1) == 117)
  }

  function Spelled(ps: seq<Piece>): seq<byte> {
    if ps == [] then [] else PieceText(ps[0]) + Spelled(ps[1..])
  }

  predicate PiecesOk(ps: seq<Piece>) {
    ps != [] ==> PieceOk(ps[0]) && Follows(ps[0], Spelled(ps[1..]) + [34]) && PiecesOk(ps[1..])
  }

  function Meant(ps: seq<Piece>): seq<byte>
    requires PiecesOk(ps)
  {
    if ps == [] then [] else PieceValue(ps[0]) + Meant(ps[1..])
  }

  lemma HexDigits(h: byte)
    ensures IsHex(h) <==> HexOf(h) >= 0
    ensures IsHex(h) ==> HexValue(h) == HexOf(h)
  {
  }

  lemma FourDigits(s: seq<byte>)
    requires |s| >= 4
    ensures HasHex4(s) <==> FourHex(s[..4])
    ensures HasHex4(s) ==> Hex4(s) == UnitOf(s[..4])
  {
    HexDigits(s[0]);
    HexDigits(s[1]);
    HexDigits(s[2]);
    HexDigits(s[3]);
  }

  /** The escape at the start of a text, if it is a piece: what it contributes, and its length. */
  lemma QuickReads(letter: byte, s: seq<byte>)
    requires |s| >= 2 && s[0] == 92 && s[1] == letter && letter != 117
    ensures Escape(s) == Escaped([Quickly(letter)], 2)
  {
  }

  lemma UnitReads(h: seq<byte>, s: seq<byte>)
    requires FourHex(h) && |s| >= 6 && s[0] == 92 && s[1] == 117 && s[2..6] == h && Follows(Unit(h), s[6..])
    ensures Escape(s) == Escaped(PieceValue(Unit(h)), 6)
  {
    assert s[2..][..4] == h;
    FourDigits(s[2..]);
    OctetsAreUtf8(UnitOf(h));
    assert At(s, 6) == At(s[6..], 0) && At(s, 7) == At(s[6..], 1);
  }

  lemma PairReads(h: seq<byte>, l: seq<byte>, s: seq<byte>)
    requires PieceOk(Pair(h, l)) && |s| >= 12 && s[0] == 92 && s[1] == 117 && s[2..6] == h
    requires s[6] == 92 && s[7] == 117 && s[8..12] == l
    ensures Escape(s) == Escaped(PieceValue(Pair(h, l)), 12)
  {
    assert s[2..][..4] == h && s[8..][..4] == l;
    FourDigits(s[2..]);
    FourDigits(s[8..]);
    if 0xDC00 <= UnitOf(l) <= 0xDFFF {
      CombinedPair(UnitOf(h), UnitOf(l));
      OctetsAreUtf8(Combine(UnitOf(h), UnitOf(l)));
    }
  }

  /** Every piece of a literal is read for what it stands for, whatever follows. */
  lemma PieceReads(p: Piece, rest: seq<byte>)
    requires PieceOk(p) && Follows(p, rest)
    ensures StringBody(PieceText(p) + rest) == Prepend(PieceValue(p), StringBody(rest))
  {
    var s := PieceText(p) + rest;
    assert s[|PieceText(p)|..] == rest;
    match p {
      case Plain(c) =>
      case Quick(letter) => QuickReads(letter, s);
      case Unit(h) =>
        assert s[2..6] == h;
        UnitReads(h, s);
      case Pair(h, l) =>
        assert s[2..6] == h && s[8..12] == l;
        PairReads(h, l, s);
    }
  }

  /** The table of section 7 of RFC 8259: every letter behind a backslash has its value. */
  lemma ShortEscapes(letter: byte, value: byte, rest: seq<byte>)
    requires (letter, value) in {(34, 34), (92, 92), (47, 47), (98, 8), (102, 12), (110, 10), (114, 13), (116, 9)}
    ensures StringBody([92, letter] + rest) == Prepend([value], StringBody(rest))
  {
    PieceReads(Quick(letter), rest);
  }

  /** Only the first two bytes behind a piece matter, and a literal ends with a quote. */
  lemma FollowsOn(p: Piece, more: seq<byte>, rest: seq<byte>)
    requires PieceOk(p) && (more != [] && more[0] == 92 ==> |more| >= 2)
    ensures Follows(p, more + ([34] + rest)) <==> Follows(p, more + [34])
  {
    var s, t := more + ([34] + rest), more + [34];
    assert At(s, 0) == At(t, 0) && (At(s, 0) == 92 ==> At(s, 1) == At(t, 1));
  }

  lemma SpelledStarts(ps: seq<Piece>)
    ensures var s := Spelled(ps); PiecesOk(ps) && s != [] && s[0] == 92 ==> |s| >= 2
  {
  }

  /** A literal is read up to its quote, piece by piece. */
  lemma {:induction false} LiteralReads(ps: seq<Piece>, rest: seq<byte>)
    requires PiecesOk(ps)
    ensures ParseStringSpec([34] + Spelled(ps) + [34] + rest) == Ok(Meant(ps), rest)
  {
    PiecesRead(ps, rest);
    BehindQuote(Spelled(ps), [34] + rest);
    assert [34] + Spelled(ps) + [34] + rest == [34] + (Spelled(ps) + ([34] + rest));
  }

  lemma {:induction false} PiecesRead(ps: seq<Piece>, rest: seq<byte>)
    requires PiecesOk(ps)
    ensures StringBody(Spelled(ps) + ([34] + rest)) == Ok(Meant(ps), rest)
  {
    var close := [34] + rest;
    if ps == [] {
      assert Spelled(ps) + close == close;
    } else {
      PiecesRead(ps[1..], rest);
      SpelledStarts(ps[1..]);
      FollowsOn(ps[0], Spelled(ps[1..]), rest);
      PieceReads(ps[0], Spelled(ps[1..]) + close);
      AppendAssociates(PieceText(ps[0]), Spelled(ps[1..]), close);
    }
  }

  lemma BehindQuote(a: seq<byte>, b: seq<byte>)
    ensures ParseStringSpec([34] + (a + b)) == StringBody(a + b)
  {
    assert ([34] + (a + b))[1..] == a + b;
  }

  // ---- and nothing else is ----

  /** The first piece of a text that starts neither with a quote nor with a broken escape. */
  function FirstPiece(s: seq<byte>): Piece
    requires s != [] && s[0] != 34 && (s[0] == 92 ==> |s| >= 2 && Escape(s).Escaped?)
  {
    if s[0] != 92 then Plain(s[0])
    else if s[1] != 117 then Quick(s[1])
    else if Escape(s).used == 12 then Pair(s[2..6], s[8..12])
    else Unit(s[2..6])
  }

  lemma FirstPieceIs(s: seq<byte>)
    requires s != [] && s[0] != 34 && (s[0] == 92 ==> |s| >= 2 && Escape(s).Escaped?)
    ensures var p := FirstPiece(s);
      var n := |PieceText(p)|;
      PieceOk(p) && n <= |s| && s[..n] == PieceText(p) && Follows(p, s[n..])
  {
    if s[0] == 92 && s[1] == 117 {
      FourDigits(s[2..]);
      assert s[2..][..4] == s[2..6];
      assert At(s, 6) == At(s[6..], 0) && At(s, 7) == At(s[6..], 1);
      if Escape(s).used == 12 {
        FourDigits(s[8..]);
        assert s[8..][..4] == s[8..12];
      }
    }
  }

  /** What is read up to a quote is spelled by pieces. */
  lemma {:induction false} LiteralIsSpelled(s: seq<byte>) returns (ps: seq<Piece>)
    requires StringBody(s).Ok? && StringBody(s).rest != []
    ensures PiecesOk(ps) && s == Spelled(ps) + ([34] + StringBody(s).rest) && StringBody(s).value == Meant(ps)
    decreases |s|
  {
    var rest := StringBody(s).rest;
    if s[0] == 34 {
      ps := [];
      assert s == [] + ([34] + rest);
    } else {
      FirstPieceIs(s);
      var p := FirstPiece(s);
      var t := s[|PieceText(p)|..];
      assert s == PieceText(p) + t;
      PieceReads(p, t);
      var more := LiteralIsSpelled(t);
      ps := [p] + more;
      OneMorePiece(p, more, rest);
    }
  }

  lemma OneMorePiece(p: Piece, more: seq<Piece>, rest: seq<byte>)
    requires PieceOk(p) && PiecesOk(more) && Follows(p, Spelled(more) + ([34] + rest))
    ensures PiecesOk([p] + more) && Meant([p] + more) == PieceValue(p) + Meant(more)
    ensures PieceText(p) + (Spelled(more) + ([34] + rest)) == Spelled([p] + more) + ([34] + rest)
  {
    assert ([p] + more)[1..] == more;
    SpelledStarts(more);
    FollowsOn(p, Spelled(more), rest);
    AppendAssociates(PieceText(p), Spelled(more), [34] + rest);
  }

  // ---- how the printer spells a string ----

  /** The quote, the backslash and five control characters have an escape of two bytes; the other
      control characters are escaped by their code, in lower case; any other byte stands for itself. */
  function Written(c: byte): Piece {
    if c == 34 || c == 92 then Quick(c)
    else if c == 8 then Quick(98)
    else if c == 9 then Quick(116)
    else if c == 10 then Quick(110)
    else if c == 12 then Quick(102)
    else if c == 13 then Quick(114)
    else if c < 32 then Unit([48, 48, 48 + c / 16, if c % 16 < 10 then 48 + c % 16 else 87 + c % 16])
    else Plain(c)
  }

  function WrittenText(x: seq<byte>): seq<Piece> {
    seq(|x|, k requires 0 <= k < |x| => Written(x[k]))
  }

  lemma ByteIsWritten(c: byte)
    ensures EscapedByte(c) == PieceText(Written(c))
  {
  }

  lemma {:induction false} QuotedIsSpelled(x: seq<byte>)
    ensures Quoted(x) == [34] + Spelled(WrittenText(x)) + [34]
  {
    TextIsSpelled(x);
  }

  lemma {:induction false} TextIsSpelled(x: seq<byte>)
    ensures EscapedText(x) == Spelled(WrittenText(x))
  {
    if x != [] {
      ByteIsWritten(x[0]);
      TextIsSpelled(x[1..]);
      assert WrittenText(x)[1..] == WrittenText(x[1..]);
    }
  }
}
