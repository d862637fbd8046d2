/**
 The texts net4g/src/cjson.c takes for JSON, as a grammar: sections 2 to 7 of RFC 8259, with its
 wider blanks, numerals and escapes. A text is accepted with a tree if and only if the grammar spells
 the tree so.
 */
module CJsonGrammar {
  import opened Bytes
  import opened CJsonNumber
  import opened CJsonNumeral
  import opened CJsonParse
  import opened CJsonPrint
  import opened CJsonRoundTrip
  import opened CJsonSpelling
  import opened CJsonString

  /** A value as it is written, with the blanks inside. */
  datatype Text =
    | NullText
    | FalseText
    | TrueText
    | NumberText(numeral: Numeral)
    | StringText(pieces: seq<Piece>)
    | ArrayText(gap: seq<byte>, items: seq<Item>)
    | ObjectText(gap: seq<byte>, members: seq<Entry>)

  /** A value in an array, with the blanks around it. */
  datatype Item = Item(before: seq<byte>, value: Text, after: seq<byte>)

  /** A name and a value in an object, with the blanks around name, colon and value. */
  datatype Entry = Entry(before: seq<byte>, name: seq<Piece>, mid: seq<byte>, behind: seq<byte>, value: Text, after: seq<byte>)

  predicate Blanks(w: seq<byte>) {
    forall k :: 0 <= k < |w| ==> w[k] <= 32
  }

  predicate TextOk(t: Text)
    decreases t, 0
  {
    match t
    case NumberText(n) => NumeralOk(n)
    case StringText(ps) => PiecesOk(ps)
    case ArrayText(gap, items) => Blanks(gap) && ItemsOk(items)
    case ObjectText(gap, members) => Blanks(gap) && EntriesOk(members)
    case _ => true
  }

  predicate ItemsOk(items: seq<Item>)
    decreases items, 1
  {
    forall k :: 0 <= k < |items| ==> ItemOk(items[k])
  }

  predicate EntriesOk(members: seq<Entry>)
    decreases members, 1
  {
    forall k :: 0 <= k < |members| ==> EntryOk(members[k])
  }

  predicate ItemOk(i: Item)
    decreases i, 0
  {
    Blanks(i.before) && TextOk(i.value) && Blanks(i.after)
  }

  predicate EntryOk(e: Entry)
    decreases e, 0
  {
    Blanks(e.before) && PiecesOk(e.name) && Blanks(e.mid) && Blanks(e.behind) && TextOk(e.value) && Blanks(e.after)
  }

  /** `null`, `false`, `true`, numerals, strings in quotes, `[` `,` `]`, and `{` `:` `,` `}`. */
  function Spell(t: Text): seq<byte>
    decreases t, 0
  {
    match t
    case NullText => [110, 117, 108, 108]
    case FalseText => [102, 97, 108, 115, 101]
    case TrueText => [116, 114, 117, 101]
    case NumberText(n) => NumeralText(n)
    case StringText(ps) => [34] + Spelled(ps) + [34]
    case ArrayText(gap, items) => [91] + (if items == [] then gap else SpellItems(items)) + [93]
    case ObjectText(gap, members) => [123] + (if members == [] then gap else SpellEntries(members)) + [125]
  }

  function SpellItem(i: Item): seq<byte>
    decreases i, 0
  {
    i.before + Spell(i.value) + i.after
  }

  function SpellItems(items: seq<Item>): seq<byte>
    requires items != []
    decreases items, 1
  {
    SpellItem(items[0]) + if |items| == 1 then [] else [44] + SpellItems(items[1..])
  }

  function SpellEntry(e: Entry): seq<byte>
    decreases e, 0
  {
    e.before + ([34] + Spelled(e.name) + [34]) + e.mid + [58] + e.behind + Spell(e.value) + e.after
  }

  function SpellEntries(members: seq<Entry>): seq<byte>
    requires members != []
    decreases members, 1
  {
    SpellEntry(members[0]) + if |members| == 1 then [] else [44] + SpellEntries(members[1..])
  }

  function Meaning(t: Text): Json
    requires TextOk(t)
    decreases t, 0
  {
    match t
    case NullText => Json.Null
    case FalseText => False
    case TrueText => True
    case NumberText(n) => Number(NumeralValue(n))
    case StringText(ps) => String(Meant(ps))
    case ArrayText(_, items) => Array(ItemsMeaning(items))
    case ObjectText(_, members) => Object(EntriesMeaning(members))
  }

  function ItemsMeaning(items: seq<Item>): seq<Json>
    requires ItemsOk(items)
    decreases items, 1
  {
    if items == [] then []
    else
      assert ItemOk(items[0]);
      [Meaning(items[0].value)] + ItemsMeaning(items[1..])
  }

  function EntryMeaning(e: Entry): Member
    requires EntryOk(e)
    decreases e, 0
  {
    Member(Meant(e.name), Meaning(e.value))
  }

  function EntriesMeaning(members: seq<Entry>): seq<Member>
    requires EntriesOk(members)
    decreases members, 1
  {
    if members == [] then [] else [EntryMeaning(members[0])] + EntriesMeaning(members[1..])
  }

  // ---- what is spelled is read ----

  lemma SpellStarts(t: Text)
    requires TextOk(t)
    ensures Spell(t) != [] && Spell(t)[0] > 32 && Spell(t)[0] != 93 && Spell(t)[0] != 125
  {
    if t.NumberText? {
      NumeralStarts(t.numeral);
    }
  }

  lemma BlankEnds(w: seq<byte>, t: seq<byte>)
    requires Blanks(w) && t != [] && t[0] in [44, 93, 125]
    ensures Ends(w + t) && Skip(w + t) == t
  {
    SkipBlank(w, t);
  }

  /** A value is read for what it means, up to its end; what follows a numeral must not belong to it. */
  lemma {:induction false} TextReads(t: Text, rest: seq<byte>)
    requires TextOk(t) && (t.NumberText? ==> Ends(rest))
    ensures ParseValueSpec(Spell(t) + rest) == Ok(Meaning(t), rest)
    decreases t, 0
  {
    match t {
      case NullText => WordReads(rest);
      case FalseText => WordReads(rest);
      case TrueText => WordReads(rest);
      case NumberText(n) => NumeralTextReads(n, rest);
      case StringText(ps) => LiteralReads(ps, rest);
      case ArrayText(gap, items) =>
        if items == [] {
          EmptyArrayTextReads(gap, rest);
        } else {
          ItemsTextRead(items, rest);
          ArrayStep(SpellItems(items) + ([93] + rest), ItemsMeaning(items), rest);
          Bracketed(91, SpellItems(items), 93, rest);
        }
      case ObjectText(gap, members) =>
        if members == [] {
          EmptyObjectReads(gap, rest);
        } else {
          EntriesTextRead(members, rest);
          ObjectStep(SpellEntries(members) + ([125] + rest), EntriesMeaning(members), rest);
          Bracketed(123, SpellEntries(members), 125, rest);
        }
    }
  }

  lemma Bracketed(open: byte, s: seq<byte>, close: byte, rest: seq<byte>)
    ensures [open] + s + [close] + rest == [open] + (s + ([close] + rest))
  {
  }

  lemma NumeralTextReads(n: Numeral, rest: seq<byte>)
    requires NumeralOk(n) && Ends(rest)
    ensures ParseValueSpec(NumeralText(n) + rest) == Ok(Number(NumeralValue(n)), rest)
  {
    var s := NumeralText(n) + rest;
    NumeralReads(n, rest);
    NumeralStarts(n);
    assert s[0] == NumeralText(n)[0] && s[|NumeralText(n)|..] == rest;
    ReadsNumber(s, NumeralValue(n), |NumeralText(n)|, rest);
  }

  lemma NumeralStarts(n: Numeral)
    requires NumeralOk(n)
    ensures NumeralText(n) != [] && (NumeralText(n)[0] == 45 || 48 <= NumeralText(n)[0] <= 57)
  {
    assert NumeralText(n)[0] == if n.minus then 45 else if n.zero then 48 else n.whole[0];
  }

  lemma ReadsNumber(s: seq<byte>, value: real, end: nat, rest: seq<byte>)
    requires At(s, 0) == 45 || IsDigit(At(s, 0))
    requires end == NumberEnd(s) && value == NumberValue(s) && rest == s[end..]
    ensures ParseValueSpec(s) == Ok(Number(value), rest)
  {
    assert !IsNullWord(s) && !IsFalseWord(s) && !IsTrueWord(s) && At(s, 0) != QUOTE;
  }

  lemma EmptyArrayTextReads(gap: seq<byte>, rest: seq<byte>)
    requires Blanks(gap)
    ensures ParseValueSpec([91] + gap + [93] + rest) == Ok(Array([]), rest)
  {
    var close := [93] + rest;
    SkipBlank(gap, close);
    Bracketed(91, gap, 93, rest);
    assert ([91] + (gap + close))[1..] == gap + close && close[1..] == rest;
  }

  lemma ItemReads(before: seq<byte>, v: Text, after: seq<byte>, rest: seq<byte>)
    requires Blanks(before) && TextOk(v) && Blanks(after) && rest != [] && rest[0] in [44, 93, 125]
    ensures var s := before + Spell(v) + after + rest;
      ElementSpec(s) == Ok(Meaning(v), rest) && Skip(s) != [] && Skip(s)[0] != 93
    decreases v, 1
  {
    var tail := after + rest;
    SpellStarts(v);
    BlankEnds(after, rest);
    TextReads(v, tail);
    AppendAssociates(before + Spell(v), after, rest);
    SkipsTo(before, Spell(v), tail);
  }

  lemma {:induction false} ItemsTextRead(items: seq<Item>, rest: seq<byte>)
    requires items != [] && ItemsOk(items)
    ensures var s := SpellItems(items) + ([93] + rest);
      ItemsSpec(s) == Ok(ItemsMeaning(items), rest) && At(Skip(s), 0) != 93
    decreases items, 2
  {
    var first, close := SpellItem(items[0]), [93] + rest;
    var v := items[0].value;
    if |items| == 1 {
      ItemReads(items[0].before, v, items[0].after, close);
      assert first + [] == first;
      LastElement(first + close, Meaning(v), rest);
      assert ItemsMeaning(items) == [Meaning(v)];
    } else {
      var more := SpellItems(items[1..]) + close;
      ItemsTextRead(items[1..], rest);
      ItemReads(items[0].before, v, items[0].after, [44] + more);
      ListOfTwo(first, SpellItems(items[1..]), close);
      OneMoreElement(first + ([44] + more), Meaning(v), more, ItemsMeaning(items[1..]), rest);
    }
  }

  lemma ListOfTwo(first: seq<byte>, more: seq<byte>, close: seq<byte>)
    ensures first + ([44] + more) + close == first + ([44] + (more + close))
  {
  }

  lemma LastElement(s: seq<byte>, v: Json, rest: seq<byte>)
    requires ElementSpec(s) == Ok(v, [93] + rest)
    ensures ItemsSpec(s) == Ok([v], rest)
  {
    CloseStep(rest);
    assert [v] + [] == [v];
  }

  lemma OneMoreElement(s: seq<byte>, v: Json, more: seq<byte>, vs: seq<Json>, rest: seq<byte>)
    requires ElementSpec(s) == Ok(v, [44] + more) && ItemsSpec(more) == Ok(vs, rest)
    ensures ItemsSpec(s) == Ok([v] + vs, rest)
  {
    assert ([44] + more)[1..] == more;
  }

  lemma EntryReads(e: Entry, rest: seq<byte>)
    requires EntryOk(e) && rest != [] && rest[0] in [44, 93, 125]
    ensures MemberSpec(SpellEntry(e) + rest) == Ok(EntryMeaning(e), rest) && At(Skip(SpellEntry(e) + rest), 0) == 34
    decreases e, 0
  {
    var tail := e.behind + Spell(e.value) + e.after + rest;
    var name := [34] + Spelled(e.name) + [34];
    ItemReads(e.behind, e.value, e.after, rest);
    EntryShape(e.before, name, e.mid, e.behind, Spell(e.value), e.after, rest);
    SkipsTo(e.before, name, e.mid + ([58] + tail));
    LiteralReads(e.name, e.mid + ([58] + tail));
    ColonReads(e.mid, tail, Meaning(e.value), rest);
  }

  lemma ColonReads(mid: seq<byte>, tail: seq<byte>, v: Json, rest: seq<byte>)
    requires Blanks(mid) && ElementSpec(tail) == Ok(v, rest)
    ensures ColonValueSpec(mid + ([58] + tail)) == Ok(v, rest)
  {
    SkipBlank(mid, [58] + tail);
    assert ([58] + tail)[1..] == tail;
  }

  lemma EntryShape(before: seq<byte>, name: seq<byte>, mid: seq<byte>, behind: seq<byte>, v: seq<byte>, after: seq<byte>, rest: seq<byte>)
    ensures before + name + mid + [58] + behind + v + after + rest
         == before + name + (mid + ([58] + (behind + v + after + rest)))
  {
  }

  lemma {:induction false} EntriesTextRead(members: seq<Entry>, rest: seq<byte>)
    requires members != [] && EntriesOk(members)
    ensures var s := SpellEntries(members) + ([125] + rest);
      MembersSpec(s) == Ok(EntriesMeaning(members), rest) && At(Skip(s), 0) != 125
    decreases members, 1
  {
    var first, close := SpellEntry(members[0]), [125] + rest;
    var m := EntryMeaning(members[0]);
    if |members| == 1 {
      EntryReads(members[0], close);
      assert first + [] == first;
      LastMember(first + close, m, rest);
      assert EntriesMeaning(members) == [m];
    } else {
      var more := SpellEntries(members[1..]) + close;
      EntriesTextRead(members[1..], rest);
      EntryReads(members[0], [44] + more);
      ListOfTwo(first, SpellEntries(members[1..]), close);
      OneMoreMemberReads(first + ([44] + more), m, more, EntriesMeaning(members[1..]), rest);
    }
  }

  lemma OneMoreMemberReads(s: seq<byte>, m: Member, more: seq<byte>, ms: seq<Member>, rest: seq<byte>)
    requires MemberSpec(s) == Ok(m, [44] + more) && MembersSpec(more) == Ok(ms, rest)
    ensures MembersSpec(s) == Ok([m] + ms, rest)
  {
    assert ([44] + more)[1..] == more;
  }

  // ---- what is read is spelled ----

  /** The blanks in front of a text. */
  lemma {:induction false} BlanksInFront(s: seq<byte>) returns (w: seq<byte>)
    ensures Blanks(w) && s == w + Skip(s)
  {
    w := [];
    if s != [] && s[0] <= 32 {
      var v := BlanksInFront(s[1..]);
      w := [s[0]] + v;
    }
  }

  lemma {:induction false} ReadIsSpelled(s: seq<byte>) returns (t: Text)
    requires var p := ParseValueSpec(s); p.Ok? && (p.value.String? ==> p.rest != [])
    ensures TextOk(t) && s == Spell(t) + ParseValueSpec(s).rest && Meaning(t) == ParseValueSpec(s).value
    decreases |s|, 5
  {
    if IsNullWord(s) {
      t := NullText;
    } else if IsFalseWord(s) {
      t := FalseText;
    } else if IsTrueWord(s) {
      t := TrueText;
    } else if At(s, 0) == 34 {
      t := StringIsSpelled(s);
    } else if At(s, 0) == 45 || IsDigit(At(s, 0)) {
      NumeralOfIs(s);
      t := NumberText(NumeralOf(s));
    } else if At(s, 0) == 91 {
      t := ArrayIsSpelled(s);
    } else {
      t := ObjectIsSpelled(s);
    }
  }

  lemma StringIsSpelled(s: seq<byte>) returns (t: Text)
    requires At(s, 0) == 34 && var p := ParseValueSpec(s); p.Ok? && p.rest != []
    ensures TextOk(t) && s == Spell(t) + ParseValueSpec(s).rest && Meaning(t) == ParseValueSpec(s).value
  {
    var rest := ParseValueSpec(s).rest;
    var ps := LiteralIsSpelled(s[1..]);
    t := StringText(ps);
    assert s == [34] + s[1..];
    Bracketed(34, Spelled(ps), 34, rest);
  }

  lemma {:induction false} ArrayIsSpelled(s: seq<byte>) returns (t: Text)
    requires At(s, 0) == 91 && ParseValueSpec(s).Ok?
    ensures TextOk(t) && s == Spell(t) + ParseValueSpec(s).rest && Meaning(t) == ParseValueSpec(s).value
    decreases |s|, 4
  {
    var rest := ParseValueSpec(s).rest;
    assert s == [91] + s[1..];
    if At(Skip(s[1..]), 0) == 93 {
      var gap := BlanksInFront(s[1..]);
      t := ArrayText(gap, []);
      assert Skip(s[1..]) == [93] + rest;
      Bracketed(91, gap, 93, rest);
    } else {
      var items := ItemsAreSpelled(s[1..]);
      t := ArrayText([], items);
      Bracketed(91, SpellItems(items), 93, rest);
    }
  }

  lemma {:induction false} ItemIsSpelled(s: seq<byte>) returns (i: Item)
    requires ElementSpec(s).Ok? && ElementSpec(s).rest != []
    ensures ItemOk(i) && s == SpellItem(i) + ElementSpec(s).rest && Meaning(i.value) == ElementSpec(s).value
    decreases |s|, 6
  {
    var v := ParseValueSpec(Skip(s));
    var before := BlanksInFront(s);
    var t := ReadIsSpelled(Skip(s));
    var after := BlanksInFront(v.rest);
    i := Item(before, t, after);
    ThreeParts(before, Spell(t), after, Skip(v.rest));
  }

  lemma ThreeParts(a: seq<byte>, b: seq<byte>, c: seq<byte>, rest: seq<byte>)
    ensures a + b + c + rest == a + (b + (c + rest))
  {
  }

  lemma {:induction false} ItemsAreSpelled(s: seq<byte>) returns (items: seq<Item>)
    requires ItemsSpec(s).Ok?
    ensures items != [] && ItemsOk(items)
    ensures s == SpellItems(items) + ([93] + ItemsSpec(s).rest) && ItemsMeaning(items) == ItemsSpec(s).value
    decreases |s|, 7
  {
    var e, rest := ElementSpec(s), ItemsSpec(s).rest;
    ItemsSplit(s);
    var i := ItemIsSpelled(s);
    if e.rest[0] == 93 {
      items := [i];
      OneItem(i);
    } else {
      var more := ItemsAreSpelled(e.rest[1..]);
      items := [i] + more;
      OneMoreItem(i, more, [93] + rest);
    }
  }

  lemma ItemsSplit(s: seq<byte>)
    requires ItemsSpec(s).Ok?
    ensures var e, all := ElementSpec(s), ItemsSpec(s);
      && e.Ok? && |e.rest| < |s| && e.rest != []
      && if e.rest[0] == 93 then e.rest == [93] + all.rest && all.value == [e.value] + []
         else
           var more := ItemsSpec(e.rest[1..]);
           more.Ok? && e.rest == [44] + e.rest[1..] && all.rest == more.rest && all.value == [e.value] + more.value
  {
  }

  lemma OneItem(i: Item)
    requires ItemOk(i)
    ensures ItemsOk([i]) && SpellItems([i]) == SpellItem(i) && ItemsMeaning([i]) == [Meaning(i.value)] + []
  {
  }

  lemma OneMoreItem(i: Item, more: seq<Item>, close: seq<byte>)
    requires ItemOk(i) && more != [] && ItemsOk(more)
    ensures var items := [i] + more;
      ItemsOk(items) && SpellItem(i) + ([44] + (SpellItems(more) + close)) == SpellItems(items) + close
      && ItemsMeaning(items) == [Meaning(i.value)] + ItemsMeaning(more)
  {
    assert ([i] + more)[1..] == more;
    ListOfTwo(SpellItem(i), SpellItems(more), close);
  }

  lemma {:induction false} ObjectIsSpelled(s: seq<byte>) returns (t: Text)
    requires At(s, 0) == 123 && ParseValueSpec(s).Ok?
    ensures TextOk(t) && s == Spell(t) + ParseValueSpec(s).rest && Meaning(t) == ParseValueSpec(s).value
    decreases |s|, 4
  {
    var rest := ParseValueSpec(s).rest;
    assert s == [123] + s[1..];
    if At(Skip(s[1..]), 0) == 125 {
      var gap := BlanksInFront(s[1..]);
      t := ObjectText(gap, []);
      assert Skip(s[1..]) == [125] + rest;
      Bracketed(123, gap, 125, rest);
    } else {
      var members := EntriesAreSpelled(s[1..]);
      t := ObjectText([], members);
      Bracketed(123, SpellEntries(members), 125, rest);
    }
  }

  lemma {:induction false} EntryIsSpelled(s: seq<byte>) returns (e: Entry)
    requires MemberSpec(s).Ok? && MemberSpec(s).rest != []
    ensures EntryOk(e) && s == SpellEntry(e) + MemberSpec(s).rest && EntryMeaning(e) == MemberSpec(s).value
    decreases |s|, 8
  {
    var k, rest := ParseStringSpec(Skip(s)), MemberSpec(s).rest;
    var before := BlanksInFront(s);
    var name := NameIsSpelled(Skip(s));
    var mid, i := ColonIsSpelled(k.rest);
    e := Entry(before, name, mid, i.before, i.value, i.after);
    EntryParts(e, s, k.rest, rest);
  }

  lemma EntryParts(e: Entry, s: seq<byte>, t: seq<byte>, rest: seq<byte>)
    requires s == e.before + ([34] + Spelled(e.name) + [34] + t)
    requires t == e.mid + ([58] + (e.behind + Spell(e.value) + e.after + rest))
    ensures s == SpellEntry(e) + rest
  {
    var name := [34] + Spelled(e.name) + [34];
    EntryShape(e.before, name, e.mid, e.behind, Spell(e.value), e.after, rest);
    AppendAssociates(e.before, name, t);
  }

  lemma NameIsSpelled(s: seq<byte>) returns (name: seq<Piece>)
    requires ParseStringSpec(s).Ok? && ParseStringSpec(s).rest != []
    ensures PiecesOk(name) && s == [34] + Spelled(name) + [34] + ParseStringSpec(s).rest
    ensures ParseStringSpec(s).value == Meant(name) && |ParseStringSpec(s).rest| < |s|
  {
    name := LiteralIsSpelled(s[1..]);
    assert s == [34] + s[1..];
    Bracketed(34, Spelled(name), 34, ParseStringSpec(s).rest);
  }

  lemma {:induction false} ColonIsSpelled(s: seq<byte>) returns (mid: seq<byte>, i: Item)
    requires ColonValueSpec(s).Ok? && ColonValueSpec(s).rest != []
    ensures Blanks(mid) && ItemOk(i) && s == mid + ([58] + (SpellItem(i) + ColonValueSpec(s).rest))
    ensures Meaning(i.value) == ColonValueSpec(s).value
    decreases |s|, 7
  {
    mid := BlanksInFront(s);
    var t := Skip(s);
    assert t == [58] + t[1..];
    i := ItemIsSpelled(t[1..]);
  }

  lemma {:induction false} EntriesAreSpelled(s: seq<byte>) returns (members: seq<Entry>)
    requires MembersSpec(s).Ok?
    ensures members != [] && EntriesOk(members)
    ensures s == SpellEntries(members) + ([125] + MembersSpec(s).rest) && EntriesMeaning(members) == MembersSpec(s).value
    decreases |s|, 9
  {
    var m, rest := MemberSpec(s), MembersSpec(s).rest;
    MembersSplit(s);
    var e := EntryIsSpelled(s);
    if m.rest[0] == 125 {
      members := [e];
      OneEntry(e);
    } else {
      var more := EntriesAreSpelled(m.rest[1..]);
      members := [e] + more;
      OneMoreEntry(e, more, [125] + rest);
    }
  }

  lemma MembersSplit(s: seq<byte>)
    requires MembersSpec(s).Ok?
    ensures var m, all := MemberSpec(s), MembersSpec(s);
      && m.Ok? && |m.rest| < |s| && m.rest != []
      && if m.rest[0] == 125 then m.rest == [125] + all.rest && all.value == [m.value] + []
         else
           var more := MembersSpec(m.rest[1..]);
           more.Ok? && m.rest == [44] + m.rest[1..] && all.rest == more.rest && all.value == [m.value] + more.value
  {
  }

  lemma OneEntry(e: Entry)
    requires EntryOk(e)
    ensures EntriesOk([e]) && SpellEntries([e]) == SpellEntry(e) && EntriesMeaning([e]) == [EntryMeaning(e)] + []
  {
  }

  lemma OneMoreEntry(e: Entry, more: seq<Entry>, close: seq<byte>)
    requires EntryOk(e) && more != [] && EntriesOk(more)
    ensures var members := [e] + more;
      EntriesOk(members) && SpellEntry(e) + ([44] + (SpellEntries(more) + close)) == SpellEntries(members) + close
      && EntriesMeaning(members) == [EntryMeaning(e)] + EntriesMeaning(more)
  {
    assert ([e] + more)[1..] == more;
    ListOfTwo(SpellEntry(e), SpellEntries(more), close);
  }

  // ---- documents ----

  /** The text is an array or an object with this meaning, between blanks. */
  predicate Document(text: seq<byte>, before: seq<byte>, t: Text, after: seq<byte>, v: Json) {
    && Blanks(before) && Blanks(after) && TextOk(t) && (t.ArrayText? || t.ObjectText?)
    && text == before + Spell(t) + after && Meaning(t) == v
  }

  /** `cJSON_ParseWithOpts` accepts a whole text with a tree if and only if the grammar spells it so. */
  lemma DocumentExactly(text: seq<byte>, v: Json)
    ensures ParseWithOptsSpec(text, true) == Ok(v, []) <==> exists before, t, after :: Document(text, before, t, after, v)
  {
    if ParseWithOptsSpec(text, true) == Ok(v, []) {
      var before, t, after := DocumentIsSpelled(text, v);
    }
    forall before, t, after | Document(text, before, t, after, v) ensures ParseWithOptsSpec(text, true) == Ok(v, []) {
      DocumentReads(text, before, t, after, v);
    }
  }

  /** Without the demand that nothing follows, it accepts a text with a tree and leaves a rest if and only if
      the text is blanks, such a spelling, and the rest. */
  lemma PrefixExactly(text: seq<byte>, v: Json, rest: seq<byte>)
    ensures ParseWithOptsSpec(text, false) == Ok(v, rest) <==> exists before, t :: Prefix(text, before, t, rest, v)
  {
    if ParseWithOptsSpec(text, false) == Ok(v, rest) {
      var before, t := PrefixIsSpelled(text, v, rest);
    }
    forall before, t | Prefix(text, before, t, rest, v) ensures ParseWithOptsSpec(text, false) == Ok(v, rest) {
      PrefixReads(text, before, t, rest, v);
    }
  }

  lemma PrefixIsSpelled(text: seq<byte>, v: Json, rest: seq<byte>) returns (before: seq<byte>, t: Text)
    requires ParseWithOptsSpec(text, false) == Ok(v, rest)
    ensures Prefix(text, before, t, rest, v)
  {
    PrefixParts(text, v, rest);
    before := BlanksInFront(text);
    t := ReadIsSpelled(Skip(text));
    AppendAssociates(before, Spell(t), rest);
  }

  lemma PrefixParts(text: seq<byte>, v: Json, rest: seq<byte>)
    requires ParseWithOptsSpec(text, false) == Ok(v, rest)
    ensures ParseValueSpec(Skip(text)) == Ok(v, rest) && (v.Array? || v.Object?)
  {
  }

  predicate Prefix(text: seq<byte>, before: seq<byte>, t: Text, rest: seq<byte>, v: Json) {
    && Blanks(before) && TextOk(t) && (t.ArrayText? || t.ObjectText?)
    && text == before + Spell(t) + rest && Meaning(t) == v
  }

  lemma PrefixReads(text: seq<byte>, before: seq<byte>, t: Text, rest: seq<byte>, v: Json)
    requires Prefix(text, before, t, rest, v)
    ensures ParseWithOptsSpec(text, false) == Ok(v, rest)
  {
    SpellStarts(t);
    SkipsTo(before, Spell(t), rest);
    TextReads(t, rest);
    assert (Spell(t) + rest)[0] == Spell(t)[0];
  }

  lemma DocumentIsSpelled(text: seq<byte>, v: Json) returns (before: seq<byte>, t: Text, after: seq<byte>)
    requires ParseWithOptsSpec(text, true) == Ok(v, [])
    ensures Document(text, before, t, after, v)
  {
    var s := Skip(text);
    var p := ParseValueSpec(s);
    DocumentParts(text, v);
    before := BlanksInFront(text);
    t := ReadIsSpelled(s);
    after := BlanksInFront(p.rest);
    assert after + [] == after;
    AppendAssociates(before, Spell(t), after);
  }

  lemma DocumentParts(text: seq<byte>, v: Json)
    requires ParseWithOptsSpec(text, true) == Ok(v, [])
    ensures var p := ParseValueSpec(Skip(text)); p.Ok? && p.value == v && (v.Array? || v.Object?) && Skip(p.rest) == []
  {
  }

  lemma DocumentReads(text: seq<byte>, before: seq<byte>, t: Text, after: seq<byte>, v: Json)
    requires Document(text, before, t, after, v)
    ensures ParseWithOptsSpec(text, true) == Ok(v, [])
  {
    SpellStarts(t);
    SkipsTo(before, Spell(t), after);
    TextReads(t, after);
    SkipBlank(after, []);
    assert after + [] == after;
    assert (Spell(t) + after)[0] == Spell(t)[0];
  }
}
