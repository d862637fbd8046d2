/**
 The printer of net4g/src/cjson.c. Every printing function first adds up how much to
 allocate and then writes; the methods below write into arrays of exactly the sizes
 the source asks for, so that their bounds are the claim that the size pass covers
 the write pass.
 */
module CJsonPrint {
  import opened Bytes
  import opened CJsonNumber
  import opened CJsonParse
  import opened CJsonString

  /** Trees the printer is modelled on: C strings, and numbers that are C `int`s. */
  predicate Printable(t: Json) {
    match t
    case Number(value) => IsInt(value)
    case String(text) => NulFree(text)
    case Array(items) => forall k :: 0 <= k < |items| ==> Printable(items[k])
    case Object(members) => forall k :: 0 <= k < |members| ==> NulFree(members[k].key) && Printable(members[k].value)
    case _ => true
  }

  predicate PrintableItems(items: seq<Json>) {
    forall k :: 0 <= k < |items| ==> Printable(items[k])
  }

  predicate PrintableMembers(members: seq<Member>) {
    forall k :: 0 <= k < |members| ==> NulFree(members[k].key) && Printable(members[k].value)
  }

  // ---- specification ----

  const NULL_WORD: str := [110, 117, 108, 108]
  const FALSE_WORD: str := [102, 97, 108, 115, 101]
  const TRUE_WORD: str := [116, 114, 117, 101]

  function Tabs(n: int): seq<byte> {
    if n <= 0 then [] else [TAB] + Tabs(n - 1)
  }

  function Opt(fmt: bool, s: seq<byte>): seq<byte> {
    if fmt then s else []
  }

  /** The text of a tree at a nesting depth; the depth only shows in formatted objects. */
  function Print(t: Json, depth: nat, fmt: bool): (text: seq<byte>)
    requires Printable(t)
    ensures |text| >= 1 && text[0] > SPACE && text[0] != RBRACKET && text[0] != RBRACE
    decreases t, 0
  {
    match t
    case Null => NULL_WORD
    case False => FALSE_WORD
    case True => TRUE_WORD
    case Number(value) => IntText(value.Floor)
    case String(x) => Quoted(x)
    case Array(items) =>
      if items == [] then [LBRACKET, RBRACKET]
      else ArrayText(PrintItems(items, depth + 1, fmt))
    case Object(members) =>
      if members == [] then [LBRACE] + Opt(fmt, [LF] + Tabs(depth - 1)) + [RBRACE]
      else ObjectText(PrintMembers(members, depth + 1, fmt), depth, fmt)
  }

  function ArrayText(body: seq<byte>): seq<byte> {
    [LBRACKET] + body + [RBRACKET]
  }

  function ObjectText(body: seq<byte>, depth: nat, fmt: bool): seq<byte> {
    [LBRACE] + Opt(fmt, [LF]) + body + Opt(fmt, Tabs(depth)) + [RBRACE]
  }

  function ItemBreak(more: bool, fmt: bool): seq<byte> {
    if more then [COMMA] + Opt(fmt, [SPACE]) else []
  }

  function PrintItems(items: seq<Json>, depth: nat, fmt: bool): (text: seq<byte>)
    requires PrintableItems(items)
    decreases items, 1
  {
    if items == [] then []
    else Print(items[0], depth, fmt) + ItemBreak(|items| > 1, fmt) + PrintItems(items[1..], depth, fmt)
  }

  function MemberText(m: Member, depth: nat, fmt: bool): seq<byte>
    requires NulFree(m.key) && Printable(m.value)
    decreases m, 1
  {
    NamePart(Quoted(m.key), depth, fmt) + Print(m.value, depth, fmt)
  }

  function NamePart(name: seq<byte>, depth: nat, fmt: bool): seq<byte> {
    Opt(fmt, Tabs(depth)) + name + [COLON] + Opt(fmt, [TAB])
  }

  function MemberBreak(more: bool, fmt: bool): seq<byte> {
    (if more then [COMMA] else []) + Opt(fmt, [LF])
  }

  function PrintMembers(members: seq<Member>, depth: nat, fmt: bool): (text: seq<byte>)
    requires PrintableMembers(members)
    decreases members, 1
  {
    if members == [] then []
    else MemberText(members[0], depth, fmt) + MemberBreak(|members| > 1, fmt) + PrintMembers(members[1..], depth, fmt)
  }

  // ---- the printed texts of the children, joined as the writing loops join them ----

  function JoinItems(entries: seq<seq<byte>>, fmt: bool): seq<byte> {
    if entries == [] then []
    else entries[0] + ItemBreak(|entries| > 1, fmt) + JoinItems(entries[1..], fmt)
  }

  function MemberLine(name: seq<byte>, entry: seq<byte>, depth: nat, fmt: bool): seq<byte> {
    NamePart(name, depth, fmt) + entry
  }

  function JoinMembers(names: seq<seq<byte>>, entries: seq<seq<byte>>, depth: nat, fmt: bool): seq<byte>
    requires |names| == |entries|
  {
    if entries == [] then []
    else MemberLine(names[0], entries[0], depth, fmt) + MemberBreak(|entries| > 1, fmt)
         + JoinMembers(names[1..], entries[1..], depth, fmt)
  }

  ghost predicate AreTexts(entries: seq<seq<byte>>, items: seq<Json>, depth: nat, fmt: bool)
    requires PrintableItems(items)
  {
    |entries| == |items| && forall k :: 0 <= k < |items| ==> entries[k] == Print(items[k], depth, fmt)
  }

  ghost predicate AreMemberTexts(names: seq<seq<byte>>, entries: seq<seq<byte>>, members: seq<Member>, depth: nat, fmt: bool)
    requires PrintableMembers(members)
  {
    |names| == |entries| == |members|
    && (forall k :: 0 <= k < |members| ==> names[k] == Quoted(members[k].key))
    && (forall k :: 0 <= k < |members| ==> entries[k] == Print(members[k].value, depth, fmt))
  }

  lemma {:induction false} ItemsJoined(items: seq<Json>, entries: seq<seq<byte>>, depth: nat, fmt: bool)
    requires PrintableItems(items) && AreTexts(entries, items, depth, fmt)
    ensures JoinItems(entries, fmt) == PrintItems(items, depth, fmt)
  {
    if items != [] {
      ItemsJoined(items[1..], entries[1..], depth, fmt);
    }
  }

  lemma {:induction false} MembersJoined(members: seq<Member>, names: seq<seq<byte>>, entries: seq<seq<byte>>, depth: nat, fmt: bool)
    requires PrintableMembers(members) && AreMemberTexts(names, entries, members, depth, fmt)
    ensures JoinMembers(names, entries, depth, fmt) == PrintMembers(members, depth, fmt)
  {
    if members != [] {
      MembersJoined(members[1..], names[1..], entries[1..], depth, fmt);
    }
  }

  // ---- what the size passes add up ----

  function ItemsSize(entries: seq<seq<byte>>, fmt: bool): nat {
    if entries == [] then 0
    else ItemsSize(entries[..|entries| - 1], fmt) + |entries[|entries| - 1]| + 2 + if fmt then 1 else 0
  }

  function MembersSize(names: seq<seq<byte>>, entries: seq<seq<byte>>, depth: nat, fmt: bool): nat
    requires |names| == |entries|
  {
    if entries == [] then 0
    else
      var n := |entries| - 1;
      MembersSize(names[..n], entries[..n], depth, fmt) + MemberSize(names[n], entries[n], depth, fmt)
  }

  function MemberSize(name: seq<byte>, entry: seq<byte>, depth: nat, fmt: bool): nat {
    |entry| + |name| + 2 + if fmt then 2 + depth else 0
  }

  lemma {:induction false} TabsLength(n: int)
    ensures |Tabs(n)| == if n <= 0 then 0 else n
  {
    if n > 0 {
      TabsLength(n - 1);
    }
  }

  lemma {:induction false} ItemsSizeStep(entries: seq<seq<byte>>, fmt: bool)
    requires entries != []
    ensures ItemsSize(entries, fmt) == |entries[0]| + 2 + (if fmt then 1 else 0) + ItemsSize(entries[1..], fmt)
  {
    var n := |entries| - 1;
    if n > 0 {
      ItemsSizeStep(entries[..n], fmt);
      assert entries[..n][1..] == entries[1..][..n - 1];
    }
  }

  lemma {:induction false} MembersSizeStep(names: seq<seq<byte>>, entries: seq<seq<byte>>, depth: nat, fmt: bool)
    requires |names| == |entries| && entries != []
    ensures MembersSize(names, entries, depth, fmt)
         == MemberSize(names[0], entries[0], depth, fmt) + MembersSize(names[1..], entries[1..], depth, fmt)
  {
    var n := |entries| - 1;
    if n > 0 {
      MembersSizeStep(names[..n], entries[..n], depth, fmt);
      assert names[..n][1..] == names[1..][..n - 1] && entries[..n][1..] == entries[1..][..n - 1];
    }
  }

  /** The size pass of `print_array` covers what the writing loop writes. */
  lemma {:induction false} ItemsFit(entries: seq<seq<byte>>, fmt: bool)
    ensures |JoinItems(entries, fmt)| <= ItemsSize(entries, fmt)
  {
    if entries != [] {
      ItemsFit(entries[1..], fmt);
      ItemsSizeStep(entries, fmt);
    }
  }

  /** The size pass of `print_object` covers what the writing loop writes. */
  lemma {:induction false} MembersFit(names: seq<seq<byte>>, entries: seq<seq<byte>>, depth: nat, fmt: bool)
    requires |names| == |entries|
    ensures |JoinMembers(names, entries, depth, fmt)| <= MembersSize(names, entries, depth, fmt)
  {
    if entries != [] {
      MembersFit(names[1..], entries[1..], depth, fmt);
      MembersSizeStep(names, entries, depth, fmt);
      TabsLength(depth);
    }
  }

  // ---- printed texts are C strings ----

  lemma {:induction false} QuotedNulFree(x: seq<byte>)
    requires NulFree(x)
    ensures NulFree(EscapedText(x)) && NulFree(Quoted(x))
  {
    if x != [] {
      QuotedNulFree(x[1..]);
    }
  }

  lemma {:induction false} TabsNulFree(n: int)
    ensures NulFree(Tabs(n))
  {
    if n > 0 {
      TabsNulFree(n - 1);
    }
  }

  lemma NulFreeAppend(a: seq<byte>, b: seq<byte>)
    requires NulFree(a) && NulFree(b)
    ensures NulFree(a + b)
  {
  }

  lemma {:induction false} PrintNulFree(t: Json, depth: nat, fmt: bool)
    requires Printable(t)
    ensures NulFree(Print(t, depth, fmt))
    decreases t, 0
  {
    match t {
      case Null =>
      case False =>
      case True =>
      case Number(value) =>
      case String(x) => QuotedNulFree(x);
      case Array(items) =>
        if items != [] {
          ItemsNulFree(items, depth + 1, fmt);
          NulFreeAppend([LBRACKET] + PrintItems(items, depth + 1, fmt), [RBRACKET]);
        }
      case Object(members) => ObjectNulFree(members, depth, fmt);
    }
  }

  lemma {:induction false} ObjectNulFree(members: seq<Member>, depth: nat, fmt: bool)
    requires Printable(Object(members))
    ensures NulFree(Print(Object(members), depth, fmt))
    decreases members, 2
  {
    if members == [] {
      TabsNulFree(depth - 1);
      NulFreeAppend([LBRACE], Opt(fmt, [LF] + Tabs(depth - 1)));
    } else {
      var lead, body := [LBRACE] + Opt(fmt, [LF]), PrintMembers(members, depth + 1, fmt);
      MembersNulFree(members, depth + 1, fmt);
      TabsNulFree(depth);
      NulFreeAppend(lead, body);
      NulFreeAppend(lead + body, Opt(fmt, Tabs(depth)));
      NulFreeAppend(lead + body + Opt(fmt, Tabs(depth)), [RBRACE]);
    }
  }

  lemma {:induction false} ItemsNulFree(items: seq<Json>, depth: nat, fmt: bool)
    requires PrintableItems(items)
    ensures NulFree(PrintItems(items, depth, fmt))
    decreases items, 1
  {
    if items != [] {
      PrintNulFree(items[0], depth, fmt);
      ItemsNulFree(items[1..], depth, fmt);
    }
  }

  lemma {:induction false} MembersNulFree(members: seq<Member>, depth: nat, fmt: bool)
    requires PrintableMembers(members)
    ensures NulFree(PrintMembers(members, depth, fmt))
    decreases members, 1
  {
    if members != [] {
      PrintNulFree(members[0].value, depth, fmt);
      QuotedNulFree(members[0].key);
      TabsNulFree(depth);
      MembersNulFree(members[1..], depth, fmt);
    }
  }

  // ---- the C code ----

  /** `a` holds the C string `text`. */
  ghost predicate Holds(a: array<byte>, text: seq<byte>)
    reads a
  {
    |text| < a.Length && a[..|text|] == text && a[|text|] == NUL
  }

  /** Reading a C string up to its terminator, as `strlen` and `strcpy` do. */
  method ReadString(a: array<byte>, ghost text: seq<byte>) returns (s: seq<byte>)
    requires Holds(a, text) && NulFree(text)
    ensures s == text
  {
    assert forall k :: 0 <= k < |text| ==> a[k] == a[..|text|][k] != NUL;
    var n := 0;
    while a[n] != NUL
      invariant 0 <= n <= |text|
      decreases |text| - n
    {
      n := n + 1;
    }
    s := a[..n];
  }

  /** `strcpy(out + at, s)`, with the position behind the copied bytes. */
  method StrCpy(out: array<byte>, at: nat, s: seq<byte>) returns (ptr: nat)
    requires at + |s| < out.Length
    modifies out
    ensures ptr == at + |s| && out[..ptr] == old(out[..at]) + s && out[ptr] == NUL
  {
    ptr := at;
    while ptr < at + |s|
      invariant at <= ptr <= at + |s| && out[..ptr] == old(out[..at]) + s[..ptr - at]
    {
      out[ptr] := s[ptr - at];
      ptr := ptr + 1;
    }
    out[ptr] := NUL;
    assert s[..|s|] == s;
  }

  method WriteTabs(out: array<byte>, at: nat, n: int) returns (ptr: nat)
    requires at + |Tabs(n)| <= out.Length
    modifies out
    ensures ptr == at + |Tabs(n)| && out[..ptr] == old(out[..at]) + Tabs(n)
  {
    TabsLength(n);
    ptr := at;
    var i := 0;
    while i < n
      invariant 0 <= i && (i <= n || i == 0) && ptr == at + i
      invariant |Tabs(n - i)| == |Tabs(n)| - i
      invariant out[..ptr] + Tabs(n - i) == old(out[..at]) + Tabs(n)
    {
      AppendAssociates(out[..ptr], [TAB], Tabs(n - i - 1));
      out[ptr] := TAB;
      ptr := ptr + 1;
      i := i + 1;
    }
  }

  /** `cJSON_strdup`. */
  method StrDup(s: seq<byte>) returns (out: array<byte>)
    ensures fresh(out) && Holds(out, s)
  {
    out := new byte[|s| + 1];
    var _ := StrCpy(out, 0, s);
  }

  /** `print_value`: the text, terminated, in a buffer it fits. */
  method PrintValue(t: Json, depth: nat, fmt: bool) returns (out: array<byte>)
    requires Printable(t)
    ensures fresh(out) && Holds(out, Print(t, depth, fmt))
    decreases t, 0
  {
    match t {
      case Null => out := StrDup(NULL_WORD);
      case False => out := StrDup(FALSE_WORD);
      case True => out := StrDup(TRUE_WORD);
      case Number(value) =>
        out := PrintNumber(value);
        assert out[..|IntText(value.Floor)|] == out[..|IntText(value.Floor)| + 1][..|IntText(value.Floor)|];
      case String(x) =>
        out := PrintStringPtr(x);
        assert out[..|Quoted(x)|] == out[..][..|Quoted(x)|];
      case Array(items) => out := PrintArray(items, depth, fmt);
      case Object(members) => out := PrintObject(members, depth, fmt);
    }
  }

  /** A printed child, read back as the C string that is measured and copied. */
  method PrintText(t: Json, depth: nat, fmt: bool) returns (text: seq<byte>)
    requires Printable(t)
    ensures text == Print(t, depth, fmt)
    decreases t, 1
  {
    var ret := PrintValue(t, depth, fmt);
    PrintNulFree(t, depth, fmt);
    text := ReadString(ret, Print(t, depth, fmt));
  }

  method PrintName(key: str) returns (name: seq<byte>)
    requires NulFree(key)
    ensures name == Quoted(key)
  {
    var str := PrintStringPtr(key);
    assert str[..|Quoted(key)|] == str[..][..|Quoted(key)|];
    QuotedNulFree(key);
    name := ReadString(str, Quoted(key));
  }

  /** The first loop of `print_array`: the texts of the children, and the size to allocate. */
  method CollectItems(items: seq<Json>, depth: nat, fmt: bool) returns (entries: seq<seq<byte>>, len: nat)
    requires PrintableItems(items)
    ensures AreTexts(entries, items, depth, fmt) && len == 5 + ItemsSize(entries, fmt)
    decreases items, 3
  {
    entries, len := [], 5;
    var i := 0;
    while i < |items|
      invariant 0 <= i <= |items| && len == 5 + ItemsSize(entries, fmt)
      invariant AreTexts(entries, items[..i], depth, fmt)
    {
      var text := PrintText(items[i], depth, fmt);
      assert (entries + [text])[..i] == entries;
      entries := entries + [text];
      len := len + |text| + 2 + if fmt then 1 else 0;
      i := i + 1;
    }
    assert items[..i] == items;
  }

  /** The body of the writing loop of `print_array`. */
  method WriteItem(out: array<byte>, at: nat, entry: seq<byte>, more: bool, fmt: bool) returns (ptr: nat)
    requires at + |entry| + |ItemBreak(more, fmt)| < out.Length
    modifies out
    ensures ptr == at + |entry + ItemBreak(more, fmt)|
    ensures out[..ptr] == old(out[..at]) + (entry + ItemBreak(more, fmt))
  {
    ptr := StrCpy(out, at, entry);
    if more {
      out[ptr] := COMMA;
      ptr := ptr + 1;
      if fmt {
        out[ptr] := SPACE;
        ptr := ptr + 1;
      }
      out[ptr] := NUL;
    }
  }

  /** The writing loop of `print_array`. */
  method WriteItems(out: array<byte>, at: nat, entries: seq<seq<byte>>, fmt: bool) returns (ptr: nat)
    requires at + |JoinItems(entries, fmt)| < out.Length
    modifies out
    ensures ptr == at + |JoinItems(entries, fmt)| && out[..ptr] == old(out[..at]) + JoinItems(entries, fmt)
  {
    ptr := at;
    ghost var whole := old(out[..at]) + JoinItems(entries, fmt);
    assert entries[0..] == entries;
    var i := 0;
    while i < |entries|
      invariant 0 <= i <= |entries|
      invariant ptr + |JoinItems(entries[i..], fmt)| == |whole|
      invariant out[..ptr] + JoinItems(entries[i..], fmt) == whole
    {
      assert entries[i..][1..] == entries[i + 1..];
      AppendAssociates(out[..ptr], entries[i] + ItemBreak(i != |entries| - 1, fmt), JoinItems(entries[i + 1..], fmt));
      ptr := WriteItem(out, ptr, entries[i], i != |entries| - 1, fmt);
      i := i + 1;
    }
    assert out[..ptr] + [] == out[..ptr];
  }

  /** `print_array` behind the empty case: what it writes fits the `len` bytes it asked for. */
  method ComposeArray(entries: seq<seq<byte>>, len: nat, fmt: bool) returns (out: array<byte>)
    requires len == 5 + ItemsSize(entries, fmt)
    ensures fresh(out) && out.Length == len && Holds(out, ArrayText(JoinItems(entries, fmt)))
  {
    ItemsFit(entries, fmt);
    out := new byte[len];
    out[0] := LBRACKET;
    out[1] := NUL;
    var ptr := WriteItems(out, 1, entries, fmt);
    assert out[..ptr] == [LBRACKET] + JoinItems(entries, fmt);
    out[ptr] := RBRACKET;
    ptr := ptr + 1;
    out[ptr] := NUL;
    assert out[..ptr] == [LBRACKET] + JoinItems(entries, fmt) + [RBRACKET];
  }

  /** `print_array`. */
  method PrintArray(items: seq<Json>, depth: nat, fmt: bool) returns (out: array<byte>)
    requires Printable(Array(items))
    ensures fresh(out) && Holds(out, Print(Array(items), depth, fmt))
    decreases items, 4
  {
    if |items| == 0 {
      out := StrDup([LBRACKET, RBRACKET]);
    } else {
      var entries, len := CollectItems(items, depth + 1, fmt);
      out := ComposeArray(entries, len, fmt);
      ItemsJoined(items, entries, depth + 1, fmt);
    }
  }

  lemma MembersSizeAppend(names: seq<seq<byte>>, entries: seq<seq<byte>>, name: seq<byte>, entry: seq<byte>, depth: nat, fmt: bool)
    requires |names| == |entries|
    ensures MembersSize(names + [name], entries + [entry], depth, fmt)
         == MembersSize(names, entries, depth, fmt) + MemberSize(name, entry, depth, fmt)
  {
  }

  lemma MemberTextsAppend(members: seq<Member>, i: nat, names: seq<seq<byte>>, entries: seq<seq<byte>>,
                          name: seq<byte>, entry: seq<byte>, depth: nat, fmt: bool)
    requires i < |members| && PrintableMembers(members) && AreMemberTexts(names, entries, members[..i], depth, fmt)
    requires name == Quoted(members[i].key) && entry == Print(members[i].value, depth, fmt)
    ensures AreMemberTexts(names + [name], entries + [entry], members[..i + 1], depth, fmt)
  {
  }

  method PrintMember(m: Member, depth: nat, fmt: bool) returns (name: seq<byte>, text: seq<byte>)
    requires NulFree(m.key) && Printable(m.value)
    ensures name == Quoted(m.key) && text == Print(m.value, depth, fmt)
    decreases m, 2
  {
    name := PrintName(m.key);
    text := PrintText(m.value, depth, fmt);
  }

  /** The first loop of `print_object`. */
  method CollectMembers(members: seq<Member>, depth: nat, fmt: bool)
    returns (names: seq<seq<byte>>, entries: seq<seq<byte>>, len: nat)
    requires PrintableMembers(members)
    ensures AreMemberTexts(names, entries, members, depth, fmt)
    ensures len == 7 + (if fmt then depth else 0) + MembersSize(names, entries, depth, fmt)
    decreases members, 3
  {
    names, entries, len := [], [], 7;
    if fmt { len := len + depth; }
    var i := 0;
    while i < |members|
      invariant 0 <= i <= |members| && AreMemberTexts(names, entries, members[..i], depth, fmt)
      invariant len == 7 + (if fmt then depth else 0) + MembersSize(names, entries, depth, fmt)
    {
      var name, text := PrintMember(members[i], depth, fmt);
      MembersSizeAppend(names, entries, name, text, depth, fmt);
      MemberTextsAppend(members, i, names, entries, name, text, depth, fmt);
      names, entries := names + [name], entries + [text];
      len := len + |text| + |name| + 2 + if fmt then 2 + depth else 0;
      i := i + 1;
    }
    assert members[..i] == members;
  }

  method WriteName(out: array<byte>, at: nat, name: seq<byte>, depth: nat, fmt: bool) returns (ptr: nat)
    requires at + |NamePart(name, depth, fmt)| < out.Length
    modifies out
    ensures ptr == at + |NamePart(name, depth, fmt)| && out[..ptr] == old(out[..at]) + NamePart(name, depth, fmt)
  {
    ghost var before, tabs := out[..at], Opt(fmt, Tabs(depth));
    ptr := at;
    if fmt { ptr := WriteTabs(out, ptr, depth); }
    assert out[..ptr] == before + tabs;
    ptr := StrCpy(out, ptr, name);
    assert out[..ptr] == before + tabs + name;
    ghost var named := out[..ptr];
    out[ptr] := COLON;
    ptr := ptr + 1;
    if fmt { out[ptr] := TAB; ptr := ptr + 1; }
    assert out[..ptr] == named + ([COLON] + Opt(fmt, [TAB]));
    NameShape(before, tabs, name, Opt(fmt, [TAB]));
  }

  lemma NameShape(before: seq<byte>, tabs: seq<byte>, name: seq<byte>, gap: seq<byte>)
    ensures before + tabs + name + ([COLON] + gap) == before + (tabs + name + [COLON] + gap)
  {
  }

  /** The body of the writing loop of `print_object`. */
  method WriteMember(out: array<byte>, at: nat, name: seq<byte>, entry: seq<byte>, depth: nat, more: bool, fmt: bool)
    returns (ptr: nat)
    requires at + |MemberLine(name, entry, depth, fmt) + MemberBreak(more, fmt)| < out.Length
    modifies out
    ensures var text := MemberLine(name, entry, depth, fmt) + MemberBreak(more, fmt);
      ptr == at + |text| && out[..ptr] == old(out[..at]) + text
  {
    ptr := WriteName(out, at, name, depth, fmt);
    ptr := StrCpy(out, ptr, entry);
    ghost var before := out[..ptr];
    if more { out[ptr] := COMMA; ptr := ptr + 1; }
    if fmt { out[ptr] := LF; ptr := ptr + 1; }
    out[ptr] := NUL;
    assert out[..ptr] == before + MemberBreak(more, fmt);
  }

  /** The writing loop of `print_object`. */
  method WriteMembers(out: array<byte>, at: nat, names: seq<seq<byte>>, entries: seq<seq<byte>>, depth: nat, fmt: bool)
    returns (ptr: nat)
    requires |names| == |entries| && at + |JoinMembers(names, entries, depth, fmt)| < out.Length
    modifies out
    ensures ptr == at + |JoinMembers(names, entries, depth, fmt)|
    ensures out[..ptr] == old(out[..at]) + JoinMembers(names, entries, depth, fmt)
  {
    ptr := at;
    ghost var whole := old(out[..at]) + JoinMembers(names, entries, depth, fmt);
    assert names[0..] == names && entries[0..] == entries;
    var i := 0;
    while i < |entries|
      invariant 0 <= i <= |entries|
      invariant ptr + |JoinMembers(names[i..], entries[i..], depth, fmt)| == |whole|
      invariant out[..ptr] + JoinMembers(names[i..], entries[i..], depth, fmt) == whole
    {
      assert names[i..][1..] == names[i + 1..] && entries[i..][1..] == entries[i + 1..];
      AppendAssociates(out[..ptr], MemberLine(names[i], entries[i], depth, fmt) + MemberBreak(i != |entries| - 1, fmt),
                       JoinMembers(names[i + 1..], entries[i + 1..], depth, fmt));
      ptr := WriteMember(out, ptr, names[i], entries[i], depth, i != |entries| - 1, fmt);
      i := i + 1;
    }
    assert out[..ptr] + [] == out[..ptr];
  }

  /** `print_object` without children. */
  method PrintEmptyObject(depth: nat, fmt: bool) returns (out: array<byte>)
    ensures fresh(out) && Holds(out, Print(Object([]), depth, fmt))
  {
    TabsLength(depth - 1);
    out := new byte[if fmt then depth + 4 else 3];
    out[0] := LBRACE;
    var ptr := 1;
    if fmt {
      out[ptr] := LF;
      ptr := WriteTabs(out, ptr + 1, depth - 1);
    }
    assert out[..ptr] == [LBRACE] + Opt(fmt, [LF] + Tabs(depth - 1));
    out[ptr] := RBRACE;
    ptr := ptr + 1;
    out[ptr] := NUL;
    assert out[..ptr] == Print(Object([]), depth, fmt);
  }

  /** `print_object` behind the empty case: what it writes fits the `len` bytes it asked for. */
  method ComposeObject(names: seq<seq<byte>>, entries: seq<seq<byte>>, len: nat, depth: nat, fmt: bool) returns (out: array<byte>)
    requires |names| == |entries|
    requires len == 7 + (if fmt then depth + 1 else 0) + MembersSize(names, entries, depth + 1, fmt)
    ensures fresh(out) && out.Length == len
    ensures Holds(out, ObjectText(JoinMembers(names, entries, depth + 1, fmt), depth, fmt))
  {
    MembersFit(names, entries, depth + 1, fmt);
    TabsLength(depth);
    out := new byte[len];
    out[0] := LBRACE;
    var ptr := 1;
    if fmt { out[ptr] := LF; ptr := ptr + 1; }
    out[ptr] := NUL;
    assert out[..ptr] == [LBRACE] + Opt(fmt, [LF]);
    ptr := WriteMembers(out, ptr, names, entries, depth + 1, fmt);
    CloseObject(out, ptr, depth, fmt);
  }

  /** `print_object`. */
  method PrintObject(members: seq<Member>, depth: nat, fmt: bool) returns (out: array<byte>)
    requires Printable(Object(members)) && PrintableMembers(members)
    ensures fresh(out) && Holds(out, Print(Object(members), depth, fmt))
    decreases members, 4
  {
    if |members| == 0 {
      out := PrintEmptyObject(depth, fmt);
    } else {
      var names, entries, len := CollectMembers(members, depth + 1, fmt);
      out := ComposeObject(names, entries, len, depth, fmt);
      ObjectJoined(members, names, entries, depth, fmt);
    }
  }

  lemma ObjectJoined(members: seq<Member>, names: seq<seq<byte>>, entries: seq<seq<byte>>, depth: nat, fmt: bool)
    requires members != [] && PrintableMembers(members) && AreMemberTexts(names, entries, members, depth + 1, fmt)
    ensures Printable(Object(members))
    ensures Print(Object(members), depth, fmt) == ObjectText(JoinMembers(names, entries, depth + 1, fmt), depth, fmt)
  {
    MembersJoined(members, names, entries, depth + 1, fmt);
  }

  /** The end of `print_object`. */
  method CloseObject(out: array<byte>, at: nat, depth: nat, fmt: bool)
    requires at + |Opt(fmt, Tabs(depth))| + 1 < out.Length
    modifies out
    ensures Holds(out, old(out[..at]) + Opt(fmt, Tabs(depth)) + [RBRACE])
  {
    var ptr := at;
    if fmt { ptr := WriteTabs(out, ptr, depth); }
    assert out[..ptr] == old(out[..at]) + Opt(fmt, Tabs(depth));
    out[ptr] := RBRACE;
    ptr := ptr + 1;
    out[ptr] := NUL;
    assert out[..ptr] == old(out[..at]) + Opt(fmt, Tabs(depth)) + [RBRACE];
  }
}
