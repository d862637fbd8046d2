/**
 `cJSON_Minify` of net4g/src/cjson.c. It rewrites a text in place; on every text the
 parser accepts, the tree does not change, and a second pass changes nothing.
 */
module CJsonMinify {
  import opened Bytes
  import opened CJsonNumber
  import opened CJsonParse
  import opened CJsonString

  /** The minified text, or a read past the terminator (an unclosed literal or block comment). */
  datatype Minified = Minified(out: seq<byte>) | Overrun

  // ---- specification ----

  predicate IsSpace(b: byte) {
    b == SPACE || b == TAB || b == CR || b == LF
  }

  /** To the end of the line, as for `//`. */
  function SkipLine(s: seq<byte>): (t: seq<byte>)
    ensures |t| <= |s| && (s != [] && s[0] != LF ==> |t| < |s|)
  {
    if s == [] || s[0] == LF then s else SkipLine(s[1..])
  }

  /** Up to the first star that a slash follows, as for a block comment. */
  function SkipBlock(s: seq<byte>): (t: seq<byte>)
    ensures |t| <= |s| && (t != [] ==> |t| >= 2)
  {
    if s == [] || (s[0] == STAR && At(s, 1) == SLASH) then s else SkipBlock(s[1..])
  }

  /** Copying a string literal behind its opening quote, including the closing one. */
  function CopyString(s: seq<byte>): (p: Parsed<seq<byte>>)
    ensures p.Ok? ==> |p.rest| < |s|
  {
    if s == [] then Undefined
    else if s[0] == QUOTE then Ok([QUOTE], s[1..])
    else if s[0] != BACKSLASH then Prepend([s[0]], CopyString(s[1..]))
    else if |s| == 1 then Undefined
    else Prepend(s[..2], CopyString(s[2..]))
  }

  function Keep(out: seq<byte>, m: Minified): Minified {
    if m.Minified? then Minified(out + m.out) else m
  }

  function Minify(s: seq<byte>): Minified
    decreases |s|
  {
    if s == [] then Minified([])
    else if IsSpace(s[0]) then Minify(s[1..])
    else if s[0] == SLASH && At(s, 1) == SLASH then Minify(SkipLine(s))
    else if s[0] == SLASH && At(s, 1) == STAR then
      var t := SkipBlock(s);
      if t == [] then Overrun else Minify(t[2..])
    else if s[0] == QUOTE then
      var p := CopyString(s[1..]);
      if p.Ok? then Keep([QUOTE] + p.value, Minify(p.rest)) else Overrun
    else Keep([s[0]], Minify(s[1..]))
  }

  /** Minifying works, and doing it again changes nothing. */
  predicate Stable(s: seq<byte>) {
    Minify(s).Minified? && Minify(Minify(s).out) == Minify(s)
  }

  function Out(s: seq<byte>): seq<byte>
    requires Minify(s).Minified?
  {
    Minify(s).out
  }

  // ---- bytes that are kept, and white space ----

  /** Bytes outside literals that Minify copies whatever follows. */
  predicate IsPlain(b: byte) {
    !IsSpace(b) && b != SLASH && b != QUOTE
  }

  predicate AllPlain(p: seq<byte>) {
    forall k :: 0 <= k < |p| ==> IsPlain(p[k])
  }

  lemma {:induction false} PlainKept(p: seq<byte>, r: seq<byte>)
    requires AllPlain(p)
    ensures Minify(p + r) == Keep(p, Minify(r))
  {
    if p == [] {
      assert p + r == r;
      assert Minify(r).Minified? ==> [] + Minify(r).out == Minify(r).out;
    } else {
      PlainKept(p[1..], r);
      assert (p + r)[1..] == p[1..] + r;
      assert p == [p[0]] + p[1..];
      if Minify(r).Minified? {
        assert [p[0]] + (p[1..] + Minify(r).out) == p + Minify(r).out;
      }
    }
  }

  lemma PlainStable(p: seq<byte>, r: seq<byte>)
    requires AllPlain(p) && Stable(r)
    ensures Stable(p + r) && Out(p + r) == p + Out(r)
  {
    PlainKept(p, r);
    PlainKept(p, Out(r));
  }

  /** White space in front of a nonblank byte may be thinned out, but stays white space. */
  lemma {:induction false} SpaceStable(x: seq<byte>)
    requires Stable(Skip(x))
    requires Skip(x) != [] ==> Out(Skip(x)) != [] && Out(Skip(x))[0] > SPACE
    ensures Stable(x) && Skip(Out(x)) == Out(Skip(x))
    ensures At(Out(x), 0) <= SPACE || Out(x) == Out(Skip(x))
  {
    if x != [] && x[0] <= SPACE {
      SpaceStable(x[1..]);
      if !IsSpace(x[0]) {
        assert [x[0]] + x[1..] == x;
        PlainStable([x[0]], x[1..]);
        assert ([x[0]] + Out(x[1..]))[1..] == Out(x[1..]);
      }
    }
  }

  // ---- numbers ----

  /** What follows a number in an accepted text: white space, a comma, a bracket, or the end. */
  predicate Ends(b: byte) {
    b <= SPACE || b == COMMA || b == RBRACKET || b == RBRACE
  }

  lemma RunIsPlain(s: seq<byte>, i: nat, e: nat)
    requires i <= e <= |s| && AllDigits(s[i..e])
    ensures forall k :: i <= k < e ==> IsPlain(s[k])
  {
  }

  lemma MantissaIsPlain(s: seq<byte>)
    ensures forall k :: 0 <= k < Exponent(s) ==> IsPlain(s[k])
  {
    RunIsPlain(s, Whole(s), Point(s));
    RunIsPlain(s, Fraction(s), Exponent(s));
    assert forall k :: 0 <= k < Whole(s) ==> s[k] == MINUS || s[k] == ZERO;
  }

  lemma NumberIsPlain(s: seq<byte>)
    ensures AllPlain(s[..NumberEnd(s)])
  {
    MantissaIsPlain(s);
    RunIsPlain(s, Power(s), NumberEnd(s));
    assert forall k :: Exponent(s) <= k < Power(s) ==> s[k] == 101 || s[k] == 69 || s[k] == 43 || s[k] == MINUS;
  }

  /** `t` starts with the first `e` bytes of `s`, and both end a number there. */
  predicate SameToken(s: seq<byte>, t: seq<byte>, e: nat) {
    && e <= |s| && e <= |t| && Ends(At(s, e)) && Ends(At(t, e))
    && forall k :: 0 <= k < e ==> s[k] == t[k]
  }

  lemma {:induction false} RunTransplant(s: seq<byte>, t: seq<byte>, i: nat, e: nat)
    requires SameToken(s, t, e) && i <= e
    ensures RunEnd(s, i) == RunEnd(t, i) <= e
    decreases e - i
  {
    if i < e {
      RunTransplant(s, t, i + 1, e);
    }
  }

  lemma WholeTransplant(s: seq<byte>, t: seq<byte>, e: nat)
    requires SameToken(s, t, e)
    ensures Whole(t) == Whole(s) <= e && Point(t) == Point(s) <= e
  {
    assert Whole(t) == Whole(s) <= e;
    RunTransplant(s, t, Whole(s), e);
  }

  lemma MantissaTransplant(s: seq<byte>, t: seq<byte>, e: nat)
    requires SameToken(s, t, e)
    ensures Fraction(t) == Fraction(s) && Exponent(t) == Exponent(s) <= e
  {
    WholeTransplant(s, t, e);
    assert Fraction(t) == Fraction(s) <= e;
    RunTransplant(s, t, Fraction(s), e);
  }

  lemma EndTransplant(s: seq<byte>, t: seq<byte>, e: nat)
    requires SameToken(s, t, e)
    ensures HasMinus(t) == HasMinus(s) && Power(t) == Power(s) <= e && NumberEnd(t) == NumberEnd(s) <= e
  {
    MantissaTransplant(s, t, e);
    assert HasExponent(t) == HasExponent(s) && HasMinus(t) == HasMinus(s);
    assert Power(t) == Power(s) <= e;
    RunTransplant(s, t, Power(s), e);
  }

  lemma SliceTransplant(s: seq<byte>, t: seq<byte>, e: nat, i: nat, j: nat)
    requires SameToken(s, t, e) && i <= j <= e
    ensures s[i..j] == t[i..j]
  {
  }

  /** A number token keeps its extent and its value in front of any other ending. */
  lemma NumberTransplant(s: seq<byte>, t: seq<byte>, e: nat)
    requires SameToken(s, t, e)
    ensures NumberEnd(t) == NumberEnd(s) && NumberValue(t) == NumberValue(s)
  {
    WholeTransplant(s, t, e);
    MantissaTransplant(s, t, e);
    EndTransplant(s, t, e);
    SliceTransplant(s, t, e, Whole(s), Point(s));
    SliceTransplant(s, t, e, Fraction(s), Exponent(s));
    SliceTransplant(s, t, e, Power(s), NumberEnd(s));
    assert e > 0 ==> At(s, 0) == At(t, 0);
  }

  lemma NumberStable(s: seq<byte>, r: seq<byte>)
    requires r == s[NumberEnd(s)..] && Ends(At(r, 0)) && Stable(r) && Ends(At(Out(r), 0))
    ensures Stable(s) && Out(s) == s[..NumberEnd(s)] + Out(r)
    ensures NumberValue(Out(s)) == NumberValue(s) && NumberEnd(Out(s)) == NumberEnd(s)
  {
    var e := NumberEnd(s);
    assert s == s[..e] + r;
    NumberIsPlain(s);
    PlainStable(s[..e], r);
    NumberSwap(s, e, r, Out(r));
  }

  lemma NumberSwap(s: seq<byte>, e: nat, r: seq<byte>, r': seq<byte>)
    requires e == NumberEnd(s) && r == s[e..] && Ends(At(r, 0)) && Ends(At(r', 0))
    ensures var t := s[..e] + r'; NumberValue(t) == NumberValue(s) && NumberEnd(t) == e
  {
    var t := s[..e] + r';
    assert At(s, e) == At(r, 0) && At(t, e) == At(r', 0);
    NumberTransplant(s, t, e);
  }

  // ---- string literals ----

  lemma {:induction false} CopyPlain(s: seq<byte>, n: nat)
    requires n <= |s|
    requires forall k :: 0 <= k < n ==> s[k] != QUOTE && s[k] != BACKSLASH
    ensures CopyString(s) == Prepend(s[..n], CopyString(s[n..]))
  {
    if n == 0 {
      PrependTwice([], [], CopyString(s));
    } else {
      CopyPlain(s[1..], n - 1);
      assert s[1..][n - 1..] == s[n..];
      PrependTwice([s[0]], s[1..][..n - 1], CopyString(s[n..]));
      assert [s[0]] + s[1..][..n - 1] == s[..n];
    }
  }

  /** A complete `\uXXXX` is copied as it stands. */
  lemma CopyUnicode(s: seq<byte>)
    requires |s| >= 6 && s[0] == BACKSLASH && HasHex4(s[2..])
    ensures CopyString(s) == Prepend(s[..6], CopyString(s[6..]))
  {
    CopyPlain(s[2..], 4);
    assert s[2..][4..] == s[6..];
    PrependTwice(s[..2], s[2..][..4], CopyString(s[6..]));
    assert s[..2] + s[2..][..4] == s[..6];
  }

  lemma CopyPair(s: seq<byte>)
    requires |s| >= 12 && s[0] == BACKSLASH && HasHex4(s[2..]) && s[6] == BACKSLASH && HasHex4(s[8..])
    ensures CopyString(s) == Prepend(s[..12], CopyString(s[12..]))
  {
    CopyUnicode(s);
    assert s[6..][2..] == s[8..];
    CopyUnicode(s[6..]);
    assert s[6..][6..] == s[12..];
    PrependTwice(s[..6], s[6..][..6], CopyString(s[12..]));
    assert s[..6] + s[6..][..6] == s[..12];
  }

  lemma EscapeShape(s: seq<byte>)
    requires |s| >= 2 && s[0] == BACKSLASH && Escape(s).Escaped?
    ensures Escape(s).used == 2 || (Escape(s).used >= 6 && HasHex4(s[2..]))
    ensures Escape(s).used == 2 || Escape(s).used == 6 || (Escape(s).used == 12 && s[6] == BACKSLASH && HasHex4(s[8..]))
  {
  }

  /** What the parser takes for one escape, Minify copies. */
  lemma CopyEscape(s: seq<byte>, n: nat)
    requires |s| >= 2 && s[0] == BACKSLASH && Escape(s).Escaped? && n == Escape(s).used
    ensures CopyString(s) == Prepend(s[..n], CopyString(s[n..]))
  {
    EscapeShape(s);
    if n == 6 {
      CopyUnicode(s);
    } else if n == 12 {
      CopyPair(s);
    }
  }

  /** `t` agrees with `s` on its first `n` bytes. */
  predicate Agrees(s: seq<byte>, t: seq<byte>, n: nat) {
    n <= |s| && n <= |t| && forall k :: 0 <= k < n ==> s[k] == t[k]
  }

  /** An escape reads no further than the byte behind it, or two bytes if that is a backslash. */
  lemma EscapeTransplant(s: seq<byte>, t: seq<byte>, n: nat)
    requires |s| >= 2 && s[0] == BACKSLASH && Escape(s).Escaped? && Agrees(s, t, n)
    requires Escape(s).used < n && (s[Escape(s).used] == BACKSLASH ==> Escape(s).used + 1 < n)
    ensures |t| >= 2 && Escape(t) == Escape(s)
  {
    if s[1] == 117 {
      SameHex(t[2..], s[2..6]);
      SameHex(s[2..], s[2..6]);
      if Escape(s).used == 12 {
        SameHex(t[8..], s[8..12]);
        SameHex(s[8..], s[8..12]);
      }
    }
  }

  /** `c` reads as the literal body `x` and is copied whole, in front of `r`. */
  predicate ReadsAndCopies(c: seq<byte>, x: str, r: seq<byte>) {
    StringBody(c + r) == Ok(x, r) && CopyString(c + r) == Ok(c, r)
  }

  lemma PlainStep(b: byte, c: seq<byte>, x: str, r: seq<byte>)
    requires b != QUOTE && b != BACKSLASH && ReadsAndCopies(c, x, r)
    ensures ReadsAndCopies([b] + c, [b] + x, r)
  {
    var t := [b] + c + r;
    assert t[0] == b && t[1..] == c + r;
  }

  lemma EscapeReadStep(s: seq<byte>, c: seq<byte>, x: str, r: seq<byte>)
    requires |s| >= 2 && s[0] == BACKSLASH && Escape(s).Escaped? && ReadsAndCopies(c, x, r)
    requires var n := Escape(s).used;
      c != [] && (c[0] == BACKSLASH ==> |c| >= 2) && n + |c| <= |s| && s[n..n + |c|] == c
    ensures var e := Escape(s); ReadsAndCopies(s[..e.used] + c, e.out + x, r)
  {
    var e := Escape(s);
    var t := s[..e.used] + c + r;
    forall k | 0 <= k < e.used + |c| ensures s[k] == t[k] {
      if k >= e.used {
        assert s[k] == s[e.used..e.used + |c|][k - e.used];
      }
    }
    EscapeTransplant(s, t, e.used + |c|);
    assert t[e.used..] == c + r && t[..e.used] == s[..e.used];
    CopyEscape(t, e.used);
  }

  /** The part of a literal that was read, in front of any other text. */
  lemma {:induction false} BodyTransplant(b: seq<byte>, c: seq<byte>, x: str, rest: seq<byte>, r: seq<byte>)
    requires StringBody(b) == Ok(x, rest) && b == c + rest && rest != []
    ensures c != [] && (c[0] == BACKSLASH ==> |c| >= 2) && ReadsAndCopies(c, x, r)
    decreases |b|, 1
  {
    BodySuffix(b);
    if b[0] == QUOTE {
      assert c == [QUOTE] && (c + r)[1..] == r;
    } else if b[0] == BACKSLASH {
      EscapeCase(b, c, x, rest, r);
    } else {
      var x1 := StringBody(b[1..]).value;
      assert b[1..] == c[1..] + rest && c == [b[0]] + c[1..];
      BodyTransplant(b[1..], c[1..], x1, rest, r);
      PlainStep(b[0], c[1..], x1, r);
    }
  }

  lemma {:induction false} EscapeCase(b: seq<byte>, c: seq<byte>, x: str, rest: seq<byte>, r: seq<byte>)
    requires StringBody(b) == Ok(x, rest) && b == c + rest && rest != [] && b != [] && b[0] == BACKSLASH
    ensures |c| >= 2 && ReadsAndCopies(c, x, r)
    decreases |b|, 0
  {
    var e := Escape(b);
    var x1 := StringBody(b[e.used..]).value;
    BodySuffix(b[e.used..]);
    assert e.used <= |c| && b[e.used..] == c[e.used..] + rest;
    BodyTransplant(b[e.used..], c[e.used..], x1, rest, r);
    assert b[..e.used] + c[e.used..] == c && b[e.used..|c|] == c[e.used..];
    EscapeReadStep(b, c[e.used..], x1, r);
  }

  lemma LiteralKept(s: seq<byte>, c: seq<byte>, r: seq<byte>)
    requires s != [] && s[0] == QUOTE && CopyString(s[1..]) == Ok(c, r)
    ensures Minify(s) == Keep([QUOTE] + c, Minify(r))
  {
  }

  lemma LiteralStable(s: seq<byte>, c: seq<byte>, r: seq<byte>)
    requires s != [] && s[0] == QUOTE && CopyString(s[1..]) == Ok(c, r)
    requires Stable(r) && CopyString(c + Out(r)) == Ok(c, Out(r))
    ensures Stable(s) && Out(s) == [QUOTE] + (c + Out(r))
  {
    LiteralKept(s, c, r);
    var t := [QUOTE] + (c + Out(r));
    assert [QUOTE] + c + Out(r) == t && t[1..] == c + Out(r);
    LiteralKept(t, c, Out(r));
  }

  lemma StringStable(s: seq<byte>, x: str, r: seq<byte>)
    requires ParseStringSpec(s) == Ok(x, r) && r != [] && Stable(r)
    ensures Stable(s) && ParseStringSpec(Out(s)) == Ok(x, Out(r)) && At(Out(s), 0) == QUOTE
  {
    var c := LiteralPart(s, x, r);
    LiteralStable(s, c, r);
    assert ([QUOTE] + (c + Out(r)))[1..] == c + Out(r);
  }

  lemma LiteralPart(s: seq<byte>, x: str, r: seq<byte>) returns (c: seq<byte>)
    requires ParseStringSpec(s) == Ok(x, r) && r != [] && Stable(r)
    ensures CopyString(s[1..]) == Ok(c, r) && ReadsAndCopies(c, x, Out(r))
  {
    var b := s[1..];
    BodySuffix(b);
    c := b[..|b| - |r|];
    assert b == c + r;
    BodyTransplant(b, c, x, r, r);
    BodyTransplant(b, c, x, r, Out(r));
  }

  // ---- trees ----

  /** A value that may stand in front of `r` in an accepted text: unless it ends with its own
      bracket, the next nonblank byte is a comma or a closing bracket. */
  predicate Closed(v: Json, r: seq<byte>) {
    var b := At(Skip(r), 0);
    v.Array? || v.Object? || b == COMMA || b == RBRACKET || b == RBRACE
  }

  /** A structural byte in front of a stable text. */
  lemma MarkStable(b: byte, r: seq<byte>)
    requires b in [COMMA, COLON, LBRACKET, RBRACKET, LBRACE, RBRACE] && Stable(r)
    ensures Stable([b] + r) && Out([b] + r) == [b] + Out(r)
  {
  }

  /** White space in front of a structural byte. */
  lemma SpaceMarkStable(x: seq<byte>)
    requires var t := Skip(x);
      t != [] && t[0] in [COMMA, COLON, LBRACKET, RBRACKET, LBRACE, RBRACE] && Stable(t[1..])
    ensures var t := Skip(x);
      Stable(x) && Stable(t) && Skip(Out(x)) == Out(t) == [t[0]] + Out(t[1..]) && (At(Out(x), 0) <= SPACE || At(Out(x), 0) == t[0])
  {
    var t := Skip(x);
    assert t == [t[0]] + t[1..];
    MarkStable(t[0], t[1..]);
    SpaceStable(x);
  }

  lemma WordStable(s: seq<byte>, n: nat)
    requires (n == 4 && (IsNullWord(s) || IsTrueWord(s))) || (n == 5 && IsFalseWord(s))
    requires Stable(s[n..])
    ensures Stable(s) && Out(s) == s[..n] + Out(s[n..]) && Out(s)[n..] == Out(s[n..])
  {
    assert s == s[..n] + s[n..];
    PlainStable(s[..n], s[n..]);
  }

  /** Minifying keeps the value at the start of a text, and what follows is the minified rest. */
  lemma {:induction false} ValueStable(s: seq<byte>, v: Json, r: seq<byte>)
    requires ParseValueSpec(s) == Ok(v, r) && Stable(r) && Closed(v, r)
    requires !(v.Array? || v.Object?) ==> At(Out(r), 0) <= SPACE || At(Out(r), 0) == At(Skip(r), 0)
    ensures Stable(s) && ParseValueSpec(Out(s)) == Ok(v, Out(r)) && At(Out(s), 0) == At(s, 0) > SPACE
    decreases |s|, 1
  {
    if IsNullWord(s) || IsTrueWord(s) {
      WordStable(s, 4);
    } else if IsFalseWord(s) {
      WordStable(s, 5);
    } else if At(s, 0) == QUOTE {
      StringStable(s, v.text, r);
    } else if At(s, 0) == MINUS || IsDigit(At(s, 0)) {
      NumberStable(s, r);
      NumberAdvances(s);
      assert Out(s)[NumberEnd(s)..] == Out(r);
    } else if At(s, 0) == LBRACKET {
      ArrayStable(s, v, r);
    } else {
      ObjectStable(s, v, r);
    }
  }

  lemma {:induction false} ArrayStable(s: seq<byte>, v: Json, r: seq<byte>)
    requires At(s, 0) == LBRACKET && ParseValueSpec(s) == Ok(v, r) && Stable(r)
    ensures Stable(s) && ParseValueSpec(Out(s)) == Ok(v, Out(r)) && At(Out(s), 0) == LBRACKET
    decreases |s|, 0
  {
    var inner := s[1..];
    assert s == [LBRACKET] + inner;
    if At(Skip(inner), 0) == RBRACKET {
      SpaceMarkStable(inner);
    } else {
      ItemsStable(inner, v.items, r);
    }
    MarkStable(LBRACKET, inner);
    assert Out(s)[1..] == Out(inner);
  }

  lemma {:induction false} ElementStable(s: seq<byte>, v: Json, t: seq<byte>)
    requires ElementSpec(s) == Ok(v, t) && t != [] && t[0] in [COMMA, RBRACKET, RBRACE] && Stable(t[1..])
    ensures Stable(s) && Stable(t) && ElementSpec(Out(s)) == Ok(v, Out(t)) && At(Skip(Out(s)), 0) == At(Skip(s), 0)
    ensures Out(t) == [t[0]] + Out(t[1..])
    decreases |s|, 2
  {
    var p := ParseValueSpec(Skip(s));
    SpaceMarkStable(p.rest);
    ValueStable(Skip(s), v, p.rest);
    SpaceStable(s);
  }

  lemma {:induction false} ItemsStable(s: seq<byte>, items: seq<Json>, r: seq<byte>)
    requires ItemsSpec(s) == Ok(items, r) && Stable(r)
    ensures Stable(s) && ItemsSpec(Out(s)) == Ok(items, Out(r)) && At(Skip(Out(s)), 0) == At(Skip(s), 0)
    decreases |s|, 3
  {
    var e := ElementSpec(s);
    var t := e.rest;
    if At(t, 0) == COMMA {
      ItemsStable(t[1..], items[1..], r);
      ElementStable(s, e.value, t);
      assert Out(t)[1..] == Out(t[1..]);
    } else {
      ElementStable(s, e.value, t);
      assert Out(t)[1..] == Out(t[1..]);
    }
  }

  lemma {:induction false} ObjectStable(s: seq<byte>, v: Json, r: seq<byte>)
    requires At(s, 0) == LBRACE && ParseValueSpec(s) == Ok(v, r) && Stable(r)
    ensures Stable(s) && ParseValueSpec(Out(s)) == Ok(v, Out(r)) && At(Out(s), 0) == LBRACE
    decreases |s|, 0
  {
    var inner := s[1..];
    assert s == [LBRACE] + inner;
    if At(Skip(inner), 0) == RBRACE {
      SpaceMarkStable(inner);
    } else {
      MembersStable(inner, v.members, r);
    }
    MarkStable(LBRACE, inner);
    assert Out(s)[1..] == Out(inner);
  }

  lemma {:induction false} ColonValueStable(s: seq<byte>, v: Json, t: seq<byte>)
    requires ColonValueSpec(s) == Ok(v, t) && t != [] && t[0] in [COMMA, RBRACE] && Stable(t[1..])
    ensures Stable(s) && Stable(t) && ColonValueSpec(Out(s)) == Ok(v, Out(t)) && Out(t) == [t[0]] + Out(t[1..])
    decreases |s|, 3
  {
    var u := Skip(s);
    ElementStable(u[1..], v, t);
    SpaceMarkStable(s);
    assert Out(u)[1..] == Out(u[1..]);
  }

  lemma {:induction false} MemberStable(s: seq<byte>, m: Member, t: seq<byte>)
    requires MemberSpec(s) == Ok(m, t) && t != [] && t[0] in [COMMA, RBRACE] && Stable(t[1..])
    ensures Stable(s) && Stable(t) && MemberSpec(Out(s)) == Ok(m, Out(t)) && At(Skip(Out(s)), 0) == QUOTE
    ensures Out(t) == [t[0]] + Out(t[1..])
    decreases |s|, 4
  {
    var k := ParseStringSpec(Skip(s));
    ColonValueStable(k.rest, m.value, t);
    StringStable(Skip(s), m.key, k.rest);
    SpaceStable(s);
  }

  lemma {:induction false} MembersStable(s: seq<byte>, members: seq<Member>, r: seq<byte>)
    requires MembersSpec(s) == Ok(members, r) && Stable(r)
    ensures Stable(s) && MembersSpec(Out(s)) == Ok(members, Out(r)) && At(Skip(Out(s)), 0) == QUOTE
    decreases |s|, 5
  {
    var m := MemberSpec(s);
    var t := m.rest;
    if At(t, 0) == COMMA {
      MembersStable(t[1..], members[1..], r);
    }
    MemberStable(s, m.value, t);
    assert Out(t)[1..] == Out(t[1..]);
  }

  /** On every text the parser accepts to its end, Minify succeeds, the minified text parses
      to the same tree, also to its end, and minifying it again changes nothing. */
  lemma MinifyKeepsMeaning(text: seq<byte>)
    requires ParseWithOptsSpec(text, true).Ok?
    ensures Minify(text).Minified?
    ensures ParseWithOptsSpec(Out(text), true) == ParseWithOptsSpec(text, true)
    ensures Minify(Out(text)) == Minify(text)
  {
    var s := Skip(text);
    var p := ParseValueSpec(s);
    SpaceStable(p.rest);
    ValueStable(s, p.value, p.rest);
    SpaceStable(text);
  }

  // ---- any text, accepted or not ----

  /** What is left when the white space and the comments in front are dropped. */
  function Dropped(s: seq<byte>): (t: seq<byte>)
    decreases |s|
  {
    if s == [] then s
    else if IsSpace(s[0]) then Dropped(s[1..])
    else if s[0] == SLASH && At(s, 1) == SLASH then Dropped(SkipLine(s))
    else if s[0] == SLASH && At(s, 1) == STAR then
      var t := SkipBlock(s);
      if t == [] then [] else Dropped(t[2..])
    else s
  }

  /** A slash in front of this would begin a comment. */
  predicate Comments(s: seq<byte>) {
    At(s, 0) == SLASH || At(s, 0) == STAR
  }

  /** No slash is kept, outside literals, in front of a slash or a star that only white space and
      comments keep apart from it. */
  predicate NoNewComment(s: seq<byte>)
    decreases |s|
  {
    if s == [] then true
    else if IsSpace(s[0]) then NoNewComment(s[1..])
    else if s[0] == SLASH && At(s, 1) == SLASH then NoNewComment(SkipLine(s))
    else if s[0] == SLASH && At(s, 1) == STAR then
      var t := SkipBlock(s);
      t == [] || NoNewComment(t[2..])
    else if s[0] == QUOTE then
      var p := CopyString(s[1..]);
      p.Ok? ==> NoNewComment(p.rest)
    else (s[0] == SLASH ==> !Comments(Dropped(s[1..]))) && NoNewComment(s[1..])
  }

  lemma {:induction false} OutStarts(s: seq<byte>)
    requires Minify(s).Minified?
    ensures At(Out(s), 0) == At(Dropped(s), 0) && (Out(s) == [] <==> Dropped(s) == [])
    decreases |s|
  {
    if s == [] {
    } else if IsSpace(s[0]) {
      OutStarts(s[1..]);
    } else if s[0] == SLASH && At(s, 1) == SLASH {
      OutStarts(SkipLine(s));
    } else if s[0] == SLASH && At(s, 1) == STAR {
      OutStarts(SkipBlock(s)[2..]);
    }
  }

  lemma {:induction false} CopyLength(s: seq<byte>)
    requires CopyString(s).Ok?
    ensures |CopyString(s).value| + |CopyString(s).rest| == |s|
  {
    if s[0] != QUOTE {
      var n := if s[0] == BACKSLASH then 2 else 1;
      CopyLength(s[n..]);
    }
  }

  lemma {:induction false} MinifyShrinks(s: seq<byte>)
    ensures Minify(s).Minified? ==> |Out(s)| <= |s|
    decreases |s|
  {
    if s == [] {
    } else if IsSpace(s[0]) {
      MinifyShrinks(s[1..]);
    } else if s[0] == SLASH && At(s, 1) == SLASH {
      MinifyShrinks(SkipLine(s));
    } else if s[0] == SLASH && At(s, 1) == STAR {
      if SkipBlock(s) != [] {
        MinifyShrinks(SkipBlock(s)[2..]);
      }
    } else if s[0] == QUOTE {
      if CopyString(s[1..]).Ok? {
        CopyLength(s[1..]);
        MinifyShrinks(CopyString(s[1..]).rest);
      }
    } else {
      MinifyShrinks(s[1..]);
    }
  }

  /** A comment makes the text shorter, if it ends at all. */
  lemma CommentChanges(t: seq<byte>)
    requires |t| >= 2 && t[0] == SLASH && (t[1] == SLASH || t[1] == STAR)
    ensures Minify(t) != Minified(t)
  {
    if t[1] == SLASH {
      MinifyShrinks(SkipLine(t));
    } else if SkipBlock(t) != [] {
      MinifyShrinks(SkipBlock(t)[2..]);
    }
  }

  lemma KeepInjective(a: seq<byte>, m: Minified, n: Minified)
    ensures Keep(a, m) == Keep(a, n) <==> m == n
  {
    if m.Minified? && n.Minified? {
      assert (a + m.out)[|a|..] == m.out && (a + n.out)[|a|..] == n.out;
    }
  }

  /** A byte that is kept, in front of `u`, is kept again unless it begins a comment then. */
  lemma ByteAgain(b: byte, u: seq<byte>)
    requires Minify(u).Minified? && !IsSpace(b) && b != QUOTE && !(b == SLASH && Comments(Out(u)))
    ensures Minify([b] + Out(u)) == Keep([b], Minify(Out(u)))
  {
    assert ([b] + Out(u))[1..] == Out(u);
  }

  /** A literal that is kept is kept again. */
  lemma LiteralAgain(s: seq<byte>)
    requires s != [] && s[0] == QUOTE && CopyString(s[1..]).Ok? && Minify(CopyString(s[1..]).rest).Minified?
    ensures var p := CopyString(s[1..]);
      Minify([QUOTE] + p.value + Out(p.rest)) == Keep([QUOTE] + p.value, Minify(Out(p.rest)))
  {
    var p := CopyString(s[1..]);
    var t := [QUOTE] + p.value + Out(p.rest);
    CopyAgain(s[1..], Out(p.rest));
    assert t[1..] == p.value + Out(p.rest);
    LiteralKept(t, p.value, Out(p.rest));
  }

  lemma {:induction false} CopyAgain(s: seq<byte>, r: seq<byte>)
    requires CopyString(s).Ok?
    ensures CopyString(CopyString(s).value + r) == Ok(CopyString(s).value, r)
  {
    if s[0] != QUOTE {
      var n := if s[0] == BACKSLASH then 2 else 1;
      var v := CopyString(s[n..]).value;
      CopyAgain(s[n..], r);
      assert CopyString(s).value == s[..n] + v;
      var t := s[..n] + v + r;
      assert t[n..] == v + r && t[..n] == s[..n];
    } else {
      assert ([QUOTE] + r)[1..] == r;
    }
  }

  /** On any text that Minify gets through, a second pass changes nothing if and only if the first one
      leaves no slash in front of a slash or star that used to be apart from it. */
  lemma {:induction false} IdempotentExactly(s: seq<byte>)
    requires Minify(s).Minified?
    ensures Minify(Out(s)) == Minify(s) <==> NoNewComment(s)
    decreases |s|
  {
    if s == [] {
    } else if IsSpace(s[0]) {
      IdempotentExactly(s[1..]);
    } else if s[0] == SLASH && At(s, 1) == SLASH {
      IdempotentExactly(SkipLine(s));
    } else if s[0] == SLASH && At(s, 1) == STAR {
      IdempotentExactly(SkipBlock(s)[2..]);
    } else if s[0] == QUOTE {
      var p := CopyString(s[1..]);
      IdempotentExactly(p.rest);
      LiteralAgain(s);
      KeepInjective([QUOTE] + p.value, Minify(Out(p.rest)), Minify(p.rest));
    } else {
      var u := s[1..];
      IdempotentExactly(u);
      OutStarts(u);
      if s[0] == SLASH && Comments(Dropped(u)) {
        CommentChanges([s[0]] + Out(u));
      } else {
        ByteAgain(s[0], u);
        KeepInjective([s[0]], Minify(Out(u)), Minify(u));
      }
    }
  }

  /** Such a text: two slashes that a space kept apart become a comment. */
  lemma MinifyNotIdempotent()
    ensures var text: seq<byte> := [SLASH, SPACE, SLASH, 120];
      Minify(text) == Minified([SLASH, SLASH, 120]) && Minify([SLASH, SLASH, 120]) == Minified([])
      && !ParseWithOptsSpec(text, true).Ok?
  {
    PlainKept([120], []);
    assert [120] + [] == [120 as byte];
    var tail: seq<byte> := [SLASH, 120];
    assert tail[1..] == [120] && [SLASH] + [120] == tail;
    var gap: seq<byte> := [SPACE, SLASH, 120];
    assert gap[1..] == tail && Minify(gap) == Minified(tail);
    var text: seq<byte> := [SLASH, SPACE, SLASH, 120];
    assert text[1..] == gap && [SLASH] + tail == [SLASH, SLASH, 120];
    var once: seq<byte> := [SLASH, SLASH, 120];
    assert once[1..] == tail && [120 as byte][1..] == [];
    assert SkipLine(once) == SkipLine(tail) == SkipLine([120]) == SkipLine([]);
  }

  // ---- the C code ----

  /** The state of the pass over `json`: the text from `src` on is still as it was, the bytes
      before `into` are written, and the write position has not passed the read position. */
  ghost predicate Passing(json: array<byte>, text: seq<byte>, src: nat, into: nat)
    reads json
  {
    into <= src <= |text| < json.Length && json[|text|] == NUL && json[src..|text|] == text[src..]
  }

  /** `*into++ = *json++` */
  method CopyByte(json: array<byte>, ghost text: seq<byte>, src: nat, into: nat)
    requires Passing(json, text, src, into) && src < |text|
    modifies json
    ensures Passing(json, text, src + 1, into + 1) && json[..into + 1] == old(json[..into]) + [text[src]]
  {
    assert json[src] == json[src..|text|][0];
    assert json[src + 1..|text|] == json[src..|text|][1..];
    json[into] := json[src];
  }

  /** One round of the loop over a literal. */
  method CopyRound(json: array<byte>, ghost text: seq<byte>, from: nat, at: nat) returns (ok: bool, src: nat, into: nat)
    requires Passing(json, text, from, at) && from < |text| && text[from] != QUOTE && NulFree(text)
    modifies json
    ensures !ok ==> CopyString(text[from..]) == Undefined
    ensures ok ==> from < src && Passing(json, text, src, into) && json[..into] == old(json[..at]) + text[from..src]
                   && CopyString(text[from..]) == Prepend(text[from..src], CopyString(text[src..]))
  {
    src, into := from, at;
    ReadsText(json, text, src, into);
    if json[src] == BACKSLASH {
      CopyByte(json, text, src, into);
      src, into := src + 1, into + 1;
      ReadsText(json, text, src, into);
      if json[src] == NUL {
        return false, src, into;
      }
    }
    CopyByte(json, text, src, into);
    src, into := src + 1, into + 1;
    CopyStringStep(text, from, src);
    ok := true;
  }

  /** The loop over a literal, from behind its opening quote to its closing one. */
  method CopyBody(json: array<byte>, ghost text: seq<byte>, from: nat, at: nat) returns (ok: bool, src: nat, into: nat)
    requires Passing(json, text, from, at) && NulFree(text)
    modifies json
    ensures !ok ==> CopyString(text[from..]) == Undefined
    ensures ok ==> from <= src < |text| && text[src] == QUOTE && Passing(json, text, src, into)
    ensures ok ==> json[..into] == old(json[..at]) + text[from..src]
                   && CopyString(text[from..]) == Prepend(text[from..src], CopyString(text[src..]))
  {
    src, into := from, at;
    PrependTwice([], [], CopyString(text[from..]));
    ReadsText(json, text, src, into);
    while json[src] != NUL && json[src] != QUOTE
      invariant from <= src && Passing(json, text, src, into) && json[src] == At(text, src)
      invariant json[..into] == old(json[..at]) + text[from..src]
      invariant CopyString(text[from..]) == Prepend(text[from..src], CopyString(text[src..]))
      decreases |text| - src
    {
      ReadsText(json, text, src, into);
      ghost var mid := src;
      ok, src, into := CopyRound(json, text, src, into);
      if !ok {
        return;
      }
      CopyJoin(old(json[..at]), text, from, mid, src);
      ReadsText(json, text, src, into);
    }
    ReadsText(json, text, src, into);
    ok := json[src] != NUL;
  }

  /** A literal, from its opening quote; it fails where the source would read past the terminator. */
  method CopyLiteral(json: array<byte>, ghost text: seq<byte>, start: nat, at: nat) returns (ok: bool, src: nat, into: nat)
    requires Passing(json, text, start, at) && start < |text| && text[start] == QUOTE && NulFree(text)
    modifies json
    ensures ok == CopyString(text[start + 1..]).Ok?
    ensures ok ==> start < src && Passing(json, text, src, into)
    ensures ok ==> var p := CopyString(text[start + 1..]);
      p.rest == text[src..] && json[..into] == old(json[..at]) + ([QUOTE] + p.value)
  {
    CopyByte(json, text, start, at);
    ok, src, into := CopyBody(json, text, start + 1, at + 1);
    if ok {
      CopyByte(json, text, src, into);
      LiteralEnd(text, start + 1, src);
      LiteralShape(old(json[..at]), text[start + 1..src]);
      src, into := src + 1, into + 1;
    }
  }

  lemma CopyJoin(before: seq<byte>, text: seq<byte>, from: nat, mid: nat, src: nat)
    requires from <= mid <= src <= |text|
    requires CopyString(text[from..]) == Prepend(text[from..mid], CopyString(text[mid..]))
    requires CopyString(text[mid..]) == Prepend(text[mid..src], CopyString(text[src..]))
    ensures CopyString(text[from..]) == Prepend(text[from..src], CopyString(text[src..]))
    ensures before + text[from..mid] + text[mid..src] == before + text[from..src]
  {
    PrependTwice(text[from..mid], text[mid..src], CopyString(text[src..]));
    assert text[from..mid] + text[mid..src] == text[from..src];
  }

  lemma LiteralEnd(text: seq<byte>, from: nat, src: nat)
    requires from <= src < |text| && text[src] == QUOTE
    requires CopyString(text[from..]) == Prepend(text[from..src], CopyString(text[src..]))
    ensures CopyString(text[from..]) == Ok(text[from..src] + [QUOTE], text[src + 1..])
  {
  }

  lemma LiteralShape(before: seq<byte>, body: seq<byte>)
    ensures before + [QUOTE] + body + [QUOTE] == before + ([QUOTE] + (body + [QUOTE]))
  {
  }

  lemma CopyStringStep(text: seq<byte>, from: nat, to: nat)
    requires from < to <= |text| && text[from] != QUOTE
    requires to == from + if text[from] == BACKSLASH then 2 else 1
    ensures CopyString(text[from..]) == Prepend(text[from..to], CopyString(text[to..]))
  {
    assert text[from..][to - from..] == text[to..] && text[from..][..to - from] == text[from..to];
    assert to == from + 1 ==> text[from..to] == [text[from]];
  }

  lemma ReadsText(json: array<byte>, text: seq<byte>, src: nat, into: nat)
    requires Passing(json, text, src, into) && NulFree(text)
    ensures json[src] == At(text, src) && (json[src] == NUL <==> src == |text|)
    ensures src < |text| ==> json[src + 1] == At(text, src + 1)
  {
  }

  /** One round of `cJSON_Minify`; it fails where the source would read past the terminator. */
  method MinifyRound(json: array<byte>, ghost text: seq<byte>, from: nat, at: nat) returns (ok: bool, src: nat, into: nat)
    requires Passing(json, text, from, at) && from < |text| && NulFree(text)
    modifies json
    ensures !ok ==> Minify(text[from..]) == Overrun
    ensures ok ==> from < src && at <= into && Passing(json, text, src, into) && json[..at] == old(json[..at])
                   && Minify(text[from..]) == Keep(json[at..into], Minify(text[src..]))
  {
    ok, src, into := true, from, at;
    ReadsText(json, text, src, into);
    assert text[src..][1..] == text[src + 1..];
    if json[src] == SPACE || json[src] == TAB || json[src] == CR || json[src] == LF {
      src := src + 1;
      KeepTwice([], [], Minify(text[src..]));
    } else if json[src] == SLASH && json[src + 1] == SLASH {
      src := PassLine(json, text, src, into);
      KeepTwice([], [], Minify(text[src..]));
    } else if json[src] == SLASH && json[src + 1] == STAR {
      src, ok := PassBlock(json, text, src, into);
      if ok {
        KeepTwice([], [], Minify(text[src..]));
      }
    } else if json[src] == QUOTE {
      ghost var p := CopyString(text[src + 1..]);
      ok, src, into := CopyLiteral(json, text, src, into);
      if ok {
        LiteralKept(text[from..], p.value, p.rest);
        assert json[at..into] == json[..into][at..] == [QUOTE] + p.value;
        assert json[..at] == json[..into][..at];
      }
    } else {
      CopyByte(json, text, src, into);
      src, into := src + 1, into + 1;
      assert json[at..into] == json[..into][at..] == [text[from]];
      assert json[..at] == json[..into][..at];
    }
  }

  /** `cJSON_Minify`: the array is overwritten with the minified text and its terminator. */
  method CJsonMinify(json: array<byte>, ghost text: seq<byte>) returns (ok: bool)
    requires |text| < json.Length && json[..|text|] == text && json[|text|] == NUL && NulFree(text)
    modifies json
    ensures ok == Minify(text).Minified?
    ensures ok ==> |Out(text)| <= |text| && json[..|Out(text)|] == Out(text) && json[|Out(text)|] == NUL
  {
    var src, into := 0, 0;
    KeepTwice([], [], Minify(text));
    assert text[0..] == text;
    ReadsText(json, text, src, into);
    while json[src] != NUL
      invariant 0 <= into && Passing(json, text, src, into) && json[src] == At(text, src)
      invariant Minify(text) == Keep(json[..into], Minify(text[src..]))
      decreases |text| - src
    {
      ReadsText(json, text, src, into);
      ghost var at, before := into, json[..into];
      ok, src, into := MinifyRound(json, text, src, into);
      if !ok {
        return;
      }
      KeepTwice(before, json[at..into], Minify(text[src..]));
      assert json[..into] == before + json[at..into];
      ReadsText(json, text, src, into);
    }
    ReadsText(json, text, src, into);
    ghost var out := json[..into];
    json[into] := NUL;
    assert json[..into] == out == out + [];
    ok := true;
  }

  lemma KeepTwice(a: seq<byte>, b: seq<byte>, m: Minified)
    ensures Keep([], m) == m && Keep(a, Keep(b, m)) == Keep(a + b, m)
  {
  }

  method PassLine(json: array<byte>, ghost text: seq<byte>, start: nat, ghost into: nat) returns (src: nat)
    requires Passing(json, text, start, into) && start < |text| && text[start] != LF && NulFree(text)
    ensures start < src && Passing(json, text, src, into) && text[src..] == SkipLine(text[start..])
  {
    src := start;
    while json[src] != NUL && json[src] != LF
      invariant start <= src && Passing(json, text, src, into) && SkipLine(text[src..]) == SkipLine(text[start..])
      decreases |text| - src
    {
      ReadsText(json, text, src, into);
      assert text[src..][1..] == text[src + 1..];
      assert json[src + 1..|text|] == json[src..|text|][1..];
      src := src + 1;
    }
    ReadsText(json, text, src, into);
  }

  method PassBlock(json: array<byte>, ghost text: seq<byte>, start: nat, ghost into: nat) returns (src: nat, ok: bool)
    requires Passing(json, text, start, into) && start < |text| && NulFree(text)
    ensures ok == (SkipBlock(text[start..]) != [])
    ensures ok ==> start < src && Passing(json, text, src, into) && text[src..] == SkipBlock(text[start..])[2..]
  {
    src := start;
    while json[src] != NUL && !(json[src] == STAR && json[src + 1] == SLASH)
      invariant start <= src && Passing(json, text, src, into) && SkipBlock(text[src..]) == SkipBlock(text[start..])
      decreases |text| - src
    {
      ReadsText(json, text, src, into);
      assert text[src..][1..] == text[src + 1..];
      assert json[src + 1..|text|] == json[src..|text|][1..];
      src := src + 1;
    }
    ReadsText(json, text, src, into);
    if json[src] == NUL {
      return src, false;
    }
    assert text[src..][2..] == text[src + 2..] && json[src + 2..|text|] == json[src..|text|][2..];
    return src + 2, true;
  }
}
