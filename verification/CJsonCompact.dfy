/**
 The minifier on what the printer writes: the formatted text of a tree becomes its unformatted text.
 */
module CJsonCompact {
  import opened Bytes
  import opened CJsonMinify
  import opened CJsonNumber
  import opened CJsonParse
  import opened CJsonPrint
  import opened CJsonString

  /** In front of any text, Minify makes `u` of `p`. */
  ghost predicate Becomes(p: seq<byte>, u: seq<byte>) {
    forall r :: BecomesBefore(p, u, r)
  }

  predicate BecomesBefore(p: seq<byte>, u: seq<byte>, r: seq<byte>) {
    Minify(p + r) == Keep(u, Minify(r))
  }

  lemma Both(p: seq<byte>, u: seq<byte>, q: seq<byte>, v: seq<byte>)
    requires Becomes(p, u) && Becomes(q, v)
    ensures Becomes(p + q, u + v)
  {
    forall r
      ensures BecomesBefore(p + q, u + v, r)
    {
      assert BecomesBefore(q, v, r) && BecomesBefore(p, u, q + r);
      AppendAssociates(p, q, r);
      KeepTwice(u, v, Minify(r));
    }
  }

  lemma PlainBecomes(p: seq<byte>)
    requires AllPlain(p)
    ensures Becomes(p, p)
  {
    forall r
      ensures BecomesBefore(p, p, r)
    {
      PlainKept(p, r);
    }
  }

  predicate AllSpace(w: seq<byte>) {
    forall k :: 0 <= k < |w| ==> IsSpace(w[k])
  }

  lemma {:induction false} SpaceDropped(w: seq<byte>, r: seq<byte>)
    requires AllSpace(w)
    ensures Minify(w + r) == Minify(r)
  {
    if w == [] {
      assert w + r == r;
    } else {
      SpaceDropped(w[1..], r);
      assert (w + r)[1..] == w[1..] + r;
    }
  }

  lemma SpaceBecomes(w: seq<byte>)
    requires AllSpace(w)
    ensures Becomes(w, [])
  {
    forall r
      ensures BecomesBefore(w, [], r)
    {
      SpaceDropped(w, r);
      KeepTwice([], [], Minify(r));
    }
  }

  lemma {:induction false} TabsAreSpace(n: int)
    ensures AllSpace(Tabs(n))
  {
    if n > 0 {
      TabsAreSpace(n - 1);
    }
  }

  /** White space that only the formatted text has. */
  lemma GapBecomes(fmt: bool, w: seq<byte>)
    requires AllSpace(w)
    ensures Becomes(Opt(fmt, w), Opt(false, w))
  {
    SpaceBecomes(Opt(fmt, w));
  }

  // ---- literals ----

  /** A printed literal body, in front of its closing quote. */
  lemma {:induction false} EscapedCopied(x: seq<byte>, r: seq<byte>)
    ensures CopyString(EscapedText(x) + ([QUOTE] + r)) == Ok(EscapedText(x) + [QUOTE], r)
  {
    var close := [QUOTE] + r;
    if x == [] {
      assert [] + close == close && close[1..] == r && [] + [QUOTE] == [QUOTE];
    } else {
      var e, more := EscapedByte(x[0]), EscapedText(x[1..]);
      EscapedCopied(x[1..], r);
      EscapedByteIs(x[0]);
      EscapeCopied(e, more + close);
      AppendAssociates(e, more, close);
      AppendAssociates(e, more, [QUOTE]);
    }
  }

  /** A byte of a literal as it is printed: itself, a pair, or a backslash, a letter and four digits. */
  predicate IsEscaped(e: seq<byte>) {
    || (|e| == 1 && e[0] != QUOTE && e[0] != BACKSLASH)
    || (|e| >= 2 && e[0] == BACKSLASH && forall k :: 2 <= k < |e| ==> e[k] != QUOTE && e[k] != BACKSLASH)
  }

  lemma EscapedByteIs(c: byte)
    ensures IsEscaped(EscapedByte(c))
  {
  }

  lemma EscapeCopied(e: seq<byte>, s: seq<byte>)
    requires IsEscaped(e)
    ensures CopyString(e + s) == Prepend(e, CopyString(s))
  {
    var t := e + s;
    if |e| == 1 {
      assert t[1..] == s && [t[0]] == e;
    } else {
      CopyPlain(t[2..], |e| - 2);
      assert t[2..][|e| - 2..] == s;
      PrependTwice(t[..2], t[2..][..|e| - 2], CopyString(s));
      assert t[..2] + t[2..][..|e| - 2] == e;
    }
  }

  lemma LiteralBecomes(x: seq<byte>)
    ensures Becomes(Quoted(x), Quoted(x))
  {
    forall r
      ensures BecomesBefore(Quoted(x), Quoted(x), r)
    {
      var s := Quoted(x) + r;
      EscapedCopied(x, r);
      assert s[1..] == EscapedText(x) + ([QUOTE] + r);
      LiteralKept(s, EscapedText(x) + [QUOTE], r);
      AppendAssociates([QUOTE], EscapedText(x), [QUOTE]);
    }
  }

  // ---- trees ----

  lemma {:induction false} TreeBecomes(t: Json, depth: nat, fmt: bool, depth': nat)
    requires Printable(t)
    ensures Becomes(Print(t, depth, fmt), Print(t, depth', false))
    decreases t, 0
  {
    match t {
      case Null => PlainBecomes(NULL_WORD);
      case False => PlainBecomes(FALSE_WORD);
      case True => PlainBecomes(TRUE_WORD);
      case Number(value) => PlainBecomes(IntText(value.Floor));
      case String(x) => LiteralBecomes(x);
      case Array(items) => ArrayBecomes(items, depth, fmt, depth');
      case Object(members) => ObjectBecomes(members, depth, fmt, depth');
    }
  }

  lemma {:induction false} ArrayBecomes(items: seq<Json>, depth: nat, fmt: bool, depth': nat)
    requires Printable(Array(items))
    ensures Becomes(Print(Array(items), depth, fmt), Print(Array(items), depth', false))
    decreases items, 2
  {
    if items == [] {
      PlainBecomes([LBRACKET, RBRACKET]);
    } else {
      var body, body' := PrintItems(items, depth + 1, fmt), PrintItems(items, depth' + 1, false);
      ItemsBecome(items, depth + 1, fmt, depth' + 1);
      PlainBecomes([LBRACKET]);
      PlainBecomes([RBRACKET]);
      Both([LBRACKET], [LBRACKET], body, body');
      Both([LBRACKET] + body, [LBRACKET] + body', [RBRACKET], [RBRACKET]);
    }
  }

  lemma {:induction false} ItemsBecome(items: seq<Json>, depth: nat, fmt: bool, depth': nat)
    requires PrintableItems(items)
    ensures Becomes(PrintItems(items, depth, fmt), PrintItems(items, depth', false))
    decreases items, 1
  {
    if items == [] {
      PlainBecomes([]);
    } else {
      var first, first' := Print(items[0], depth, fmt), Print(items[0], depth', false);
      var gap, gap' := ItemBreak(|items| > 1, fmt), ItemBreak(|items| > 1, false);
      TreeBecomes(items[0], depth, fmt, depth');
      CommaBecomes(|items| > 1, fmt);
      Both(first, first', gap, gap');
      ItemsBecome(items[1..], depth, fmt, depth');
      Both(first + gap, first' + gap', PrintItems(items[1..], depth, fmt), PrintItems(items[1..], depth', false));
    }
  }

  lemma CommaBecomes(more: bool, fmt: bool)
    ensures Becomes(ItemBreak(more, fmt), ItemBreak(more, false))
    ensures Becomes(MemberBreak(more, fmt), MemberBreak(more, false))
  {
    PlainBecomes([COMMA]);
    PlainBecomes([]);
    GapBecomes(fmt, [SPACE]);
    GapBecomes(fmt, [LF]);
    Both([COMMA], [COMMA], Opt(fmt, [SPACE]), []);
    Both([COMMA], [COMMA], Opt(fmt, [LF]), []);
    Both([], [], Opt(fmt, [LF]), []);
  }

  lemma {:induction false} ObjectBecomes(members: seq<Member>, depth: nat, fmt: bool, depth': nat)
    requires Printable(Object(members))
    ensures Becomes(Print(Object(members), depth, fmt), Print(Object(members), depth', false))
    decreases members, 3
  {
    PlainBecomes([LBRACE]);
    PlainBecomes([RBRACE]);
    if members == [] {
      TabsAreSpace(depth - 1);
      GapBecomes(fmt, [LF] + Tabs(depth - 1));
      Both([LBRACE], [LBRACE], Opt(fmt, [LF] + Tabs(depth - 1)), []);
      Both([LBRACE] + Opt(fmt, [LF] + Tabs(depth - 1)), [LBRACE] + [], [RBRACE], [RBRACE]);
    } else {
      MembersBecome(members, depth + 1, fmt, depth' + 1);
      BodyBecomes(PrintMembers(members, depth + 1, fmt), PrintMembers(members, depth' + 1, false), depth, fmt, depth');
    }
  }

  lemma BodyBecomes(body: seq<byte>, body': seq<byte>, depth: nat, fmt: bool, depth': nat)
    requires Becomes(body, body')
    ensures Becomes(ObjectText(body, depth, fmt), ObjectText(body', depth', false))
  {
    var lead, tail := [LBRACE] + Opt(fmt, [LF]), Opt(fmt, Tabs(depth));
    PlainBecomes([LBRACE]);
    PlainBecomes([RBRACE]);
    TabsAreSpace(depth);
    GapBecomes(fmt, [LF]);
    GapBecomes(fmt, Tabs(depth));
    Both([LBRACE], [LBRACE], Opt(fmt, [LF]), []);
    Both(lead, [LBRACE] + [], body, body');
    Both(lead + body, [LBRACE] + [] + body', tail, []);
    Both(lead + body + tail, [LBRACE] + [] + body' + [], [RBRACE], [RBRACE]);
  }

  lemma {:induction false} MembersBecome(members: seq<Member>, depth: nat, fmt: bool, depth': nat)
    requires PrintableMembers(members)
    ensures Becomes(PrintMembers(members, depth, fmt), PrintMembers(members, depth', false))
    decreases members, 2
  {
    if members == [] {
      PlainBecomes([]);
    } else {
      var first, first' := MemberText(members[0], depth, fmt), MemberText(members[0], depth', false);
      var gap, gap' := MemberBreak(|members| > 1, fmt), MemberBreak(|members| > 1, false);
      MemberBecomes(members[0], depth, fmt, depth');
      CommaBecomes(|members| > 1, fmt);
      Both(first, first', gap, gap');
      MembersBecome(members[1..], depth, fmt, depth');
      Both(first + gap, first' + gap', PrintMembers(members[1..], depth, fmt), PrintMembers(members[1..], depth', false));
    }
  }

  lemma {:induction false} MemberBecomes(m: Member, depth: nat, fmt: bool, depth': nat)
    requires NulFree(m.key) && Printable(m.value)
    ensures Becomes(MemberText(m, depth, fmt), MemberText(m, depth', false))
    decreases m, 1
  {
    TreeBecomes(m.value, depth, fmt, depth');
    NameBecomes(m.key, depth, fmt, depth');
    Both(NamePart(Quoted(m.key), depth, fmt), NamePart(Quoted(m.key), depth', false),
      Print(m.value, depth, fmt), Print(m.value, depth', false));
  }

  lemma NameBecomes(key: str, depth: nat, fmt: bool, depth': nat)
    ensures Becomes(NamePart(Quoted(key), depth, fmt), NamePart(Quoted(key), depth', false))
  {
    var tabs, name := Opt(fmt, Tabs(depth)), Quoted(key);
    TabsAreSpace(depth);
    GapBecomes(fmt, Tabs(depth));
    GapBecomes(fmt, [TAB]);
    LiteralBecomes(key);
    PlainBecomes([COLON]);
    Both(tabs, [], name, name);
    Both(tabs + name, [] + name, [COLON], [COLON]);
    Both(tabs + name + [COLON], [] + name + [COLON], Opt(fmt, [TAB]), []);
  }

  /** Minifying the printed text of a tree, at any depth and in either layout, gives exactly its
      unformatted text. */
  lemma MinifyUnformats(t: Json, depth: nat, fmt: bool)
    requires Printable(t)
    ensures Minify(Print(t, depth, fmt)) == Minified(Print(t, 0, false))
  {
    var text := Print(t, depth, fmt);
    TreeBecomes(t, depth, fmt, 0);
    assert BecomesBefore(text, Print(t, 0, false), []);
    assert text + [] == text && Print(t, 0, false) + [] == Print(t, 0, false);
  }
}
