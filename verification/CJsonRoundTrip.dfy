/**
 Parsing what the printer wrote gives back the tree, at every depth, formatted or
 not, and consumes exactly the printed text.
 */
module CJsonRoundTrip {
  import opened Bytes
  import opened CJsonNumber
  import opened CJsonParse
  import opened CJsonPrint
  import opened CJsonString

  predicate Blank(w: seq<byte>) {
    forall k :: 0 <= k < |w| ==> w[k] <= SPACE
  }

  lemma {:induction false} SkipBlank(w: seq<byte>, s: seq<byte>)
    requires Blank(w)
    ensures Skip(w + s) == Skip(s)
  {
    if w == [] {
      assert w + s == s;
    } else {
      SkipBlank(w[1..], s);
      assert (w + s)[1..] == w[1..] + s;
    }
  }

  lemma {:induction false} TabsAreBlank(n: int)
    ensures Blank(Tabs(n))
  {
    if n > 0 {
      TabsAreBlank(n - 1);
    }
  }

  // ---- one step of the parser on a text with a known start ----

  lemma ArrayStep(inner: seq<byte>, items: seq<Json>, rest: seq<byte>)
    requires At(Skip(inner), 0) != RBRACKET && ItemsSpec(inner) == Ok(items, rest)
    ensures ParseValueSpec([LBRACKET] + inner) == Ok(Array(items), rest)
  {
  }

  lemma ObjectStep(inner: seq<byte>, members: seq<Member>, rest: seq<byte>)
    requires At(Skip(inner), 0) != RBRACE && MembersSpec(inner) == Ok(members, rest)
    ensures ParseValueSpec([LBRACE] + inner) == Ok(Object(members), rest)
  {
  }

  lemma ItemsStep(s: seq<byte>, v: Json, after: seq<byte>, tail: Parsed<seq<Json>>)
    requires ParseValueSpec(Skip(s)) == Ok(v, after) && ItemsTailSpec(Skip(after)) == tail
    ensures ItemsSpec(s) == PrependItems([v], tail)
  {
  }

  lemma ColonStep(gap: seq<byte>, v: Json, after: seq<byte>)
    requires ParseValueSpec(Skip(gap)) == Ok(v, after)
    ensures ColonValueSpec([COLON] + gap) == Ok(v, Skip(after))
  {
  }

  lemma MemberStep(s: seq<byte>, key: str, gap: seq<byte>, v: Json, after: seq<byte>)
    requires ParseStringSpec(Skip(s)) == Ok(key, [COLON] + gap)
    requires ParseValueSpec(Skip(gap)) == Ok(v, after)
    ensures MemberSpec(s) == Ok(Member(key, v), Skip(after))
  {
    ColonStep(gap, v, after);
  }

  lemma CloseStep(t: seq<byte>)
    ensures ItemsTailSpec([RBRACKET] + t) == Ok([], t) && MembersTailSpec([RBRACE] + t) == Ok([], t)
    ensures Skip([RBRACKET] + t) == [RBRACKET] + t && Skip([RBRACE] + t) == [RBRACE] + t
  {
  }

  // ---- induction over the tree ----

  lemma WordReads(rest: seq<byte>)
    ensures ParseValueSpec(NULL_WORD + rest) == Ok(Null, rest)
    ensures ParseValueSpec(FALSE_WORD + rest) == Ok(False, rest)
    ensures ParseValueSpec(TRUE_WORD + rest) == Ok(True, rest)
  {
  }

  lemma NumberReads(n: int, rest: seq<byte>)
    requires EndsNumber(rest)
    ensures ParseValueSpec(IntText(n) + rest) == Ok(Number(n as real), rest)
  {
    IntTextReads(n, rest);
    assert (IntText(n) + rest)[|IntText(n)|..] == rest;
  }

  lemma StringReads(x: str, rest: seq<byte>)
    requires NulFree(x)
    ensures ParseValueSpec(Quoted(x) + rest) == Ok(String(x), rest)
  {
    QuotedReads(x, rest);
  }

  /** The claim for one value; a number must not run on into what follows it. */
  lemma {:induction false} ValueReads(t: Json, depth: nat, fmt: bool, rest: seq<byte>)
    requires Printable(t)
    requires t.Number? ==> EndsNumber(rest)
    ensures ParseValueSpec(Print(t, depth, fmt) + rest) == Ok(t, rest)
    decreases t, 0
  {
    match t {
      case Null => WordReads(rest);
      case False => WordReads(rest);
      case True => WordReads(rest);
      case Number(value) => NumberReads(value.Floor, rest);
      case String(x) => StringReads(x, rest);
      case Array(items) => ArrayReads(items, depth, fmt, rest);
      case Object(members) => ObjectReads(members, depth, fmt, rest);
    }
  }

  lemma {:induction false} ArrayReads(items: seq<Json>, depth: nat, fmt: bool, rest: seq<byte>)
    requires Printable(Array(items))
    ensures ParseValueSpec(Print(Array(items), depth, fmt) + rest) == Ok(Array(items), rest)
    decreases items, 2
  {
    if items == [] {
      EmptyArrayReads(rest);
    } else {
      ItemsRead(items, depth + 1, fmt, [], rest);
      WholeArrayReads(PrintItems(items, depth + 1, fmt), items, rest);
    }
  }

  lemma EmptyArrayReads(rest: seq<byte>)
    ensures ParseValueSpec([LBRACKET, RBRACKET] + rest) == Ok(Array([]), rest)
  {
  }

  lemma WholeArrayReads(body: seq<byte>, items: seq<Json>, rest: seq<byte>)
    requires var s := [] + body + ([RBRACKET] + rest);
      ItemsSpec(s) == Ok(items, rest) && At(Skip(s), 0) != RBRACKET
    ensures ParseValueSpec([LBRACKET] + body + [RBRACKET] + rest) == Ok(Array(items), rest)
  {
    var close := [RBRACKET] + rest;
    assert [] + body + close == body + close;
    ArrayStep(body + close, items, rest);
    assert [LBRACKET] + body + [RBRACKET] + rest == [LBRACKET] + (body + close);
  }

  lemma {:induction false} ObjectReads(members: seq<Member>, depth: nat, fmt: bool, rest: seq<byte>)
    requires Printable(Object(members))
    ensures ParseValueSpec(Print(Object(members), depth, fmt) + rest) == Ok(Object(members), rest)
    decreases members, 3
  {
    if members == [] {
      EmptyObjectReads(Opt(fmt, [LF] + Tabs(depth - 1)), rest) by {
        TabsAreBlank(depth - 1);
      }
    } else {
      var lead, body, tail := Opt(fmt, [LF]), PrintMembers(members, depth + 1, fmt), Opt(fmt, Tabs(depth));
      TabsAreBlank(depth);
      MembersRead(members, depth + 1, fmt, lead, tail, rest);
      ObjectStep(lead + body + (tail + ([RBRACE] + rest)), members, rest);
      ObjectShape(lead, body, tail, rest);
    }
  }

  lemma EmptyObjectReads(w: seq<byte>, rest: seq<byte>)
    requires Blank(w)
    ensures ParseValueSpec([LBRACE] + w + [RBRACE] + rest) == Ok(Object([]), rest)
  {
    var close := [RBRACE] + rest;
    SkipBlank(w, close);
    assert [LBRACE] + w + [RBRACE] + rest == [LBRACE] + (w + close);
    assert ([LBRACE] + (w + close))[1..] == w + close && close[1..] == rest;
  }

  lemma ObjectShape(lead: seq<byte>, body: seq<byte>, tail: seq<byte>, rest: seq<byte>)
    ensures [LBRACE] + lead + body + tail + [RBRACE] + rest == [LBRACE] + (lead + body + (tail + ([RBRACE] + rest)))
  {
  }

  /** How a list of children with `first` in front of `more` reads, in the order the parser meets its parts. */
  lemma ListShape(lead: seq<byte>, first: seq<byte>, gap: seq<byte>, more: seq<byte>, close: seq<byte>)
    ensures lead + (first + ([COMMA] + gap) + more) + close == lead + first + ([COMMA] + (gap + more + close))
    ensures lead + (first + gap + []) + close == lead + first + (gap + close)
  {
  }

  lemma {:induction false} ItemsRead(items: seq<Json>, depth: nat, fmt: bool, lead: seq<byte>, rest: seq<byte>)
    requires items != [] && PrintableItems(items) && Blank(lead)
    ensures var s := lead + PrintItems(items, depth, fmt) + ([RBRACKET] + rest);
      ItemsSpec(s) == Ok(items, rest) && At(Skip(s), 0) != RBRACKET
    decreases items, 1
  {
    var first, more := Print(items[0], depth, fmt), PrintItems(items[1..], depth, fmt);
    var gap, close := Opt(fmt, [SPACE]), [RBRACKET] + rest;
    assert items == [items[0]] + items[1..];
    if |items| == 1 {
      ListShape(lead, first, [], more, close);
      assert more == [] && ItemBreak(false, fmt) == [] && [] + close == close;
      SkipsTo(lead, first, close);
      ValueReads(items[0], depth, fmt, close);
      LastItem(lead + first + close, first, items[0], rest);
    } else {
      var after := gap + more + close;
      ItemsRead(items[1..], depth, fmt, gap, rest);
      ListShape(lead, first, gap, more, close);
      SkipsTo(lead, first, [COMMA] + after);
      ValueReads(items[0], depth, fmt, [COMMA] + after);
      OneMoreItem(lead + first + ([COMMA] + after), first, after, items[0], items[1..], rest);
    }
  }

  /** Behind blanks, a text that starts with `first` starts there. */
  lemma SkipsTo(lead: seq<byte>, first: seq<byte>, after: seq<byte>)
    requires Blank(lead) && first != [] && first[0] > SPACE
    ensures Skip(lead + first + after) == first + after
  {
    AppendAssociates(lead, first, after);
    SkipBlank(lead, first + after);
  }

  lemma LastItem(s: seq<byte>, first: seq<byte>, v: Json, rest: seq<byte>)
    requires Skip(s) == first + ([RBRACKET] + rest)
    requires ParseValueSpec(first + ([RBRACKET] + rest)) == Ok(v, [RBRACKET] + rest)
    ensures ItemsSpec(s) == Ok([v], rest)
  {
    CloseStep(rest);
    ItemsStep(s, v, [RBRACKET] + rest, Ok([], rest));
    assert [v] + [] == [v];
  }

  lemma OneMoreItem(s: seq<byte>, first: seq<byte>, after: seq<byte>, v: Json, vs: seq<Json>, rest: seq<byte>)
    requires Skip(s) == first + ([COMMA] + after)
    requires ParseValueSpec(first + ([COMMA] + after)) == Ok(v, [COMMA] + after)
    requires ItemsSpec(after) == Ok(vs, rest)
    ensures ItemsSpec(s) == Ok([v] + vs, rest)
  {
  }

  lemma {:induction false} MemberReads(m: Member, depth: nat, fmt: bool, lead: seq<byte>, after: seq<byte>)
    requires NulFree(m.key) && Printable(m.value) && Blank(lead) && EndsNumber(after)
    ensures var s := lead + MemberText(m, depth, fmt) + after;
      MemberSpec(s) == Ok(m, Skip(after)) && At(Skip(s), 0) == QUOTE
    decreases m, 1
  {
    ValueReads(m.value, depth, fmt, after);
    TabsAreBlank(depth);
    OneMember(lead, Opt(fmt, Tabs(depth)), m.key, Opt(fmt, [TAB]), Print(m.value, depth, fmt), m.value, after);
  }

  lemma OneMember(lead: seq<byte>, tabs: seq<byte>, key: str, gap: seq<byte>, text: seq<byte>, v: Json, after: seq<byte>)
    requires Blank(lead) && Blank(tabs) && Blank(gap) && NulFree(key)
    requires text != [] && text[0] > SPACE && ParseValueSpec(text + after) == Ok(v, after)
    ensures var s := lead + (tabs + Quoted(key) + [COLON] + gap + text) + after;
      MemberSpec(s) == Ok(Member(key, v), Skip(after)) && At(Skip(s), 0) == QUOTE
  {
    MemberShape(lead, tabs, Quoted(key), gap, text, after);
    SkipsTo(lead + tabs, Quoted(key), [COLON] + (gap + (text + after)));
    MemberParts(lead + tabs + Quoted(key) + ([COLON] + (gap + (text + after))), key, gap, text + after, v, after);
  }

  lemma MemberShape(lead: seq<byte>, tabs: seq<byte>, name: seq<byte>, gap: seq<byte>, text: seq<byte>, after: seq<byte>)
    ensures lead + (tabs + name + [COLON] + gap + text) + after == lead + tabs + name + ([COLON] + (gap + (text + after)))
  {
  }

  lemma MemberParts(s: seq<byte>, key: str, gap: seq<byte>, value: seq<byte>, v: Json, after: seq<byte>)
    requires Blank(gap) && NulFree(key) && Skip(s) == Quoted(key) + ([COLON] + (gap + value))
    requires Skip(value) == value && ParseValueSpec(value) == Ok(v, after)
    ensures MemberSpec(s) == Ok(Member(key, v), Skip(after))
  {
    QuotedReads(key, [COLON] + (gap + value));
    SkipBlank(gap, value);
    MemberStep(s, key, gap + value, v, after);
  }

  lemma {:induction false} MembersRead(members: seq<Member>, depth: nat, fmt: bool, lead: seq<byte>, tail: seq<byte>, rest: seq<byte>)
    requires members != [] && PrintableMembers(members) && Blank(lead) && Blank(tail)
    ensures var s := lead + PrintMembers(members, depth, fmt) + (tail + ([RBRACE] + rest));
      MembersSpec(s) == Ok(members, rest) && At(Skip(s), 0) == QUOTE
    decreases members, 2
  {
    assert members == [members[0]] + members[1..];
    if |members| == 1 {
      LastMemberReads(members[0], depth, fmt, lead, tail, rest);
    } else {
      MembersRead(members[1..], depth, fmt, Opt(fmt, [LF]), tail, rest);
      var first, more := MemberText(members[0], depth, fmt), PrintMembers(members[1..], depth, fmt);
      var eol, close := Opt(fmt, [LF]), tail + ([RBRACE] + rest);
      var after := eol + more + close;
      ListShape(lead, first, eol, more, close);
      MemberReads(members[0], depth, fmt, lead, [COMMA] + after);
      OneMoreMember(lead + first + ([COMMA] + after), after, members[0], members[1..], rest);
    }
  }

  lemma {:induction false} LastMemberReads(m: Member, depth: nat, fmt: bool, lead: seq<byte>, tail: seq<byte>, rest: seq<byte>)
    requires NulFree(m.key) && Printable(m.value) && Blank(lead) && Blank(tail)
    ensures var s := lead + PrintMembers([m], depth, fmt) + (tail + ([RBRACE] + rest));
      MembersSpec(s) == Ok([m], rest) && At(Skip(s), 0) == QUOTE
    decreases m, 2
  {
    var first, eol, close := MemberText(m, depth, fmt), Opt(fmt, [LF]), tail + ([RBRACE] + rest);
    assert MemberBreak(false, fmt) == eol && PrintMembers([m], depth, fmt) == first + eol + [];
    ListShape(lead, first, eol, [], close);
    MemberReads(m, depth, fmt, lead, eol + close);
    TailShape(eol, tail, rest);
    LastMember(lead + first + (eol + close), m, rest);
  }

  lemma TailShape(eol: seq<byte>, tail: seq<byte>, rest: seq<byte>)
    requires Blank(eol) && Blank(tail)
    ensures Skip(eol + (tail + ([RBRACE] + rest))) == [RBRACE] + rest
    ensures EndsNumber(eol + (tail + ([RBRACE] + rest)))
  {
    SkipBlank(tail, [RBRACE] + rest);
    SkipBlank(eol, tail + ([RBRACE] + rest));
  }

  lemma LastMember(s: seq<byte>, m: Member, rest: seq<byte>)
    requires MemberSpec(s) == Ok(m, [RBRACE] + rest)
    ensures MembersSpec(s) == Ok([m], rest)
  {
    CloseStep(rest);
    assert [m] + [] == [m];
  }

  lemma OneMoreMember(s: seq<byte>, after: seq<byte>, m: Member, ms: seq<Member>, rest: seq<byte>)
    requires MemberSpec(s) == Ok(m, Skip([COMMA] + after)) && MembersSpec(after) == Ok(ms, rest)
    ensures MembersSpec(s) == Ok([m] + ms, rest)
  {
  }

  /** The printer and the parser are inverse on every array or object of C strings and `int`s:
      whatever follows the printed text is left unread, and a NUL right behind it is accepted. */
  lemma RoundTrip(t: Json, depth: nat, fmt: bool, rest: seq<byte>)
    requires Printable(t) && (t.Array? || t.Object?)
    ensures ParseWithOptsSpec(Print(t, depth, fmt) + rest, false) == Ok(t, rest)
    ensures ParseWithOptsSpec(Print(t, depth, fmt), true) == Ok(t, [])
  {
    var s := Print(t, depth, fmt);
    ValueReads(t, depth, fmt, rest);
    ValueReads(t, depth, fmt, []);
    assert s + [] == s;
    assert Skip(s + rest) == s + rest && Skip(s) == s;
  }

  /** Printing is injective, across depths and both formats. */
  lemma PrintInjective(t: Json, u: Json, depth: nat, depth': nat, fmt: bool, fmt': bool)
    requires Printable(t) && Printable(u)
    requires Print(t, depth, fmt) == Print(u, depth', fmt')
    ensures t == u
  {
    ValueReads(t, depth, fmt, []);
    ValueReads(u, depth', fmt', []);
  }
}
