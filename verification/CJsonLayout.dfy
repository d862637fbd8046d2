/**
 The layout of the printer of net4g/src/cjson.c: where it puts line ends, tabs and spaces, said in the
 terms of the grammar.
 */
module CJsonLayout {
  import opened Bytes
  import opened CJsonGrammar
  import opened CJsonNumber
  import opened CJsonNumeral
  import opened CJsonParse
  import opened CJsonPrint
  import opened CJsonSpelling
  import opened CJsonString

  /** A line end and `n` tabs, in formatted text. */
  function NewLine(n: nat, fmt: bool): seq<byte> {
    if fmt then [10] + seq(n, k => 9) else []
  }

  /** An `int`: a minus, and a zero or digits. */
  function IntNumeral(n: int): Numeral {
    var m := if n < 0 then -n else n;
    Numeral(n < 0, m == 0, if m == 0 then [] else Decimal(m), [], Absent)
  }

  /** Formatted, a space follows each comma of an array; the members of an object stand on lines of their
      own, one tab deeper than the object, with a tab behind the colon, and the closing brace on the next
      line; that of an empty object is one tab less deep. Unformatted, there are no blanks. */
  function Laid(v: Json, depth: nat, fmt: bool): Text
    requires Printable(v)
    decreases v, 0
  {
    match v
    case Null => NullText
    case False => FalseText
    case True => TrueText
    case Number(value) => NumberText(IntNumeral(value.Floor))
    case String(x) => StringText(WrittenText(x))
    case Array(items) => Text.ArrayText([], LaidItems(items, depth, fmt, []))
    case Object(members) =>
      Text.ObjectText(if members == [] then NewLine(if depth == 0 then 0 else depth - 1, fmt) else [],
                      LaidMembers(members, depth, fmt))
  }

  function LaidItems(items: seq<Json>, depth: nat, fmt: bool, before: seq<byte>): seq<Item>
    requires PrintableItems(items)
    decreases items, 1
  {
    if items == [] then []
    else [Item(before, Laid(items[0], depth + 1, fmt), [])] + LaidItems(items[1..], depth, fmt, if fmt then [32] else [])
  }

  function LaidMembers(members: seq<Member>, depth: nat, fmt: bool): seq<Entry>
    requires PrintableMembers(members)
    decreases members, 1
  {
    if members == [] then []
    else [LaidMember(members[0], depth, fmt, |members| == 1)] + LaidMembers(members[1..], depth, fmt)
  }

  function LaidMember(m: Member, depth: nat, fmt: bool, last: bool): Entry
    requires NulFree(m.key) && Printable(m.value)
    decreases m, 0
  {
    Entry(NewLine(depth + 1, fmt), WrittenText(m.key), [], if fmt then [9] else [],
          Laid(m.value, depth + 1, fmt), if last then NewLine(depth, fmt) else [])
  }

  lemma {:induction false} TabsAre(n: nat)
    ensures Tabs(n) == seq(n, k => 9)
  {
    if n > 0 {
      TabsAre(n - 1);
    }
  }

  lemma NewLineIs(n: nat, fmt: bool)
    ensures NewLine(n, fmt) == Opt(fmt, [LF]) + Opt(fmt, Tabs(n)) && Blanks(NewLine(n, fmt))
  {
    TabsAre(n);
  }

  lemma WholeNumeral(minus: bool, zero: bool, whole: seq<byte>)
    ensures NumeralText(Numeral(minus, zero, whole, [], Absent)) == (if minus then [45] else []) + if zero then [48] + whole else whole
  {
  }

  lemma IntIsLaid(n: int)
    ensures NumeralOk(IntNumeral(n)) && NumeralText(IntNumeral(n)) == IntText(n)
  {
    var m := if n < 0 then -n else n;
    MagnitudeIsLaid(m);
    WholeNumeral(n < 0, m == 0, IntNumeral(n).whole);
  }

  lemma MagnitudeIsLaid(m: nat)
    ensures Digits(Decimal(m)) && (m != 0 ==> Decimal(m)[0] != 48) && (m == 0 ==> Decimal(m) == [48] == [48] + [])
  {
    DecimalDigits(m);
  }

  lemma {:induction false} WrittenOk(x: seq<byte>)
    ensures PiecesOk(WrittenText(x))
  {
    if x != [] {
      WrittenOk(x[1..]);
      assert WrittenText(x)[1..] == WrittenText(x[1..]);
      WrittenPiece(x[0], Spelled(WrittenText(x[1..])) + [34]);
    }
  }

  lemma WrittenPiece(c: byte, after: seq<byte>)
    ensures PieceOk(Written(c)) && Follows(Written(c), after)
  {
  }

  /** The printed text is the tree in this layout. */
  lemma {:induction false} PrintIsLaid(v: Json, depth: nat, fmt: bool)
    requires Printable(v)
    ensures TextOk(Laid(v, depth, fmt)) && Spell(Laid(v, depth, fmt)) == Print(v, depth, fmt)
    decreases v, 0
  {
    match v {
      case Null =>
      case False =>
      case True =>
      case Number(value) => IntIsLaid(value.Floor);
      case String(x) =>
        WrittenOk(x);
        QuotedIsSpelled(x);
      case Array(items) =>
        if items != [] {
          ItemsAreLaid(items, depth, fmt, []);
          assert [] + PrintItems(items, depth + 1, fmt) == PrintItems(items, depth + 1, fmt);
        } else {
          assert [91] + [] + [93] == [LBRACKET, RBRACKET];
        }
      case Object(members) => ObjectIsLaid(members, depth, fmt);
    }
  }

  lemma {:induction false} ItemsAreLaid(items: seq<Json>, depth: nat, fmt: bool, before: seq<byte>)
    requires items != [] && PrintableItems(items) && Blanks(before)
    ensures var laid := LaidItems(items, depth, fmt, before);
      laid != [] && ItemsOk(laid) && SpellItems(laid) == before + PrintItems(items, depth + 1, fmt)
    decreases items, 1
  {
    var first := Item(before, Laid(items[0], depth + 1, fmt), []);
    PrintIsLaid(items[0], depth + 1, fmt);
    var text, gap := Print(items[0], depth + 1, fmt), if fmt then [32] else [];
    if |items| == 1 {
      OneItem(first);
      assert before + text + [] == before + (text + [] + []);
    } else {
      ItemsAreLaid(items[1..], depth, fmt, gap);
      OneMoreItem(first, LaidItems(items[1..], depth, fmt, gap), []);
      NextItem(before, text, gap, PrintItems(items[1..], depth + 1, fmt), SpellItems([first] + LaidItems(items[1..], depth, fmt, gap)));
    }
  }

  lemma NextItem(before: seq<byte>, text: seq<byte>, gap: seq<byte>, more: seq<byte>, all: seq<byte>)
    requires before + text + [] + ([44] + (gap + more + [])) == all + []
    ensures all == before + (text + ([44] + gap) + more)
  {
    assert all == before + text + [] + ([44] + (gap + more + []));
  }

  lemma {:induction false} MemberIsLaid(m: Member, depth: nat, fmt: bool, last: bool)
    requires NulFree(m.key) && Printable(m.value)
    ensures var e := LaidMember(m, depth, fmt, last);
      EntryOk(e) && SpellEntry(e) == Opt(fmt, [LF]) + MemberText(m, depth + 1, fmt) + e.after
    decreases m, 1
  {
    WrittenOk(m.key);
    QuotedIsSpelled(m.key);
    NewLineIs(depth + 1, fmt);
    NewLineIs(depth, fmt);
    PrintIsLaid(m.value, depth + 1, fmt);
    var e := LaidMember(m, depth, fmt, last);
    MemberShapes(Opt(fmt, [LF]), Opt(fmt, Tabs(depth + 1)), Quoted(m.key), e.behind, Print(m.value, depth + 1, fmt), e.after);
  }

  lemma MemberShapes(eol: seq<byte>, tabs: seq<byte>, name: seq<byte>, gap: seq<byte>, v: seq<byte>, after: seq<byte>)
    ensures eol + tabs + name + [] + [58] + gap + v + after == eol + (tabs + name + [COLON] + gap + v) + after
  {
  }

  lemma {:induction false} MembersAreLaid(members: seq<Member>, depth: nat, fmt: bool)
    requires members != [] && PrintableMembers(members)
    ensures var laid := LaidMembers(members, depth, fmt);
      laid != [] && EntriesOk(laid)
      && SpellEntries(laid) == Opt(fmt, [LF]) + PrintMembers(members, depth + 1, fmt) + Opt(fmt, Tabs(depth))
    decreases members, 2
  {
    var eol, tabs := Opt(fmt, [LF]), Opt(fmt, Tabs(depth));
    var first := LaidMember(members[0], depth, fmt, |members| == 1);
    var text := MemberText(members[0], depth + 1, fmt);
    MemberIsLaid(members[0], depth, fmt, |members| == 1);
    if |members| == 1 {
      OneEntry(first);
      NewLineIs(depth, fmt);
      assert LaidMembers(members, depth, fmt) == [first];
      LastMemberShape(eol, text, tabs);
    } else {
      MembersAreLaid(members[1..], depth, fmt);
      OneMoreEntry(first, LaidMembers(members[1..], depth, fmt), []);
      NextMember(eol, text, PrintMembers(members[1..], depth + 1, fmt), tabs,
                 SpellEntries([first] + LaidMembers(members[1..], depth, fmt)));
    }
  }

  lemma LastMemberShape(eol: seq<byte>, text: seq<byte>, tabs: seq<byte>)
    ensures eol + text + (eol + tabs) == eol + (text + ([] + eol) + []) + tabs
  {
  }

  lemma NextMember(eol: seq<byte>, text: seq<byte>, more: seq<byte>, tabs: seq<byte>, all: seq<byte>)
    requires eol + text + [] + ([44] + (eol + more + tabs + [])) == all + []
    ensures all == eol + (text + ([44] + eol) + more) + tabs
  {
    assert all == eol + text + [] + ([44] + (eol + more + tabs + []));
  }

  lemma {:induction false} ObjectIsLaid(members: seq<Member>, depth: nat, fmt: bool)
    requires Printable(Object(members))
    ensures TextOk(Laid(Object(members), depth, fmt))
    ensures Spell(Laid(Object(members), depth, fmt)) == Print(Object(members), depth, fmt)
    decreases members, 3
  {
    if members == [] {
      var d := if depth == 0 then 0 else depth - 1;
      NewLineIs(d, fmt);
      assert Tabs(depth - 1) == Tabs(d);
      assert Opt(fmt, [LF] + Tabs(d)) == Opt(fmt, [LF]) + Opt(fmt, Tabs(d));
    } else {
      MembersAreLaid(members, depth, fmt);
      ObjectShapes(Opt(fmt, [LF]), PrintMembers(members, depth + 1, fmt), Opt(fmt, Tabs(depth)));
    }
  }

  lemma ObjectShapes(eol: seq<byte>, body: seq<byte>, tabs: seq<byte>)
    ensures [123] + (eol + body + tabs) + [125] == [LBRACE] + eol + body + tabs + [RBRACE]
  {
  }
}
