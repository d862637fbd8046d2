/**
 The recursive-descent parser of net4g/src/cjson.c, from `skip` to
 `cJSON_ParseWithOpts`. A tree is a value here: the sibling chain under a node is
 the sequence of its children. CJsonTree models the chains themselves.
 */
module CJsonParse {
  import opened Bytes
  import opened CJsonNumber
  import opened CJsonString

  datatype Json =
    | Null
    | False
    | True
    | Number(value: real)
    | String(text: str)
    | Array(items: seq<Json>)
    | Object(members: seq<Member>)

  /** A child of an object: the `string` field and the rest of the node. */
  datatype Member = Member(key: str, value: Json)

  // ---- specification ----

  /** `!strncmp(s, "null", 4)`, and so on for the other words. */
  predicate IsNullWord(s: seq<byte>) {
    At(s, 0) == 110 && At(s, 1) == 117 && At(s, 2) == 108 && At(s, 3) == 108
  }

  predicate IsFalseWord(s: seq<byte>) {
    At(s, 0) == 102 && At(s, 1) == 97 && At(s, 2) == 108 && At(s, 3) == 115 && At(s, 4) == 101
  }

  predicate IsTrueWord(s: seq<byte>) {
    At(s, 0) == 116 && At(s, 1) == 114 && At(s, 2) == 117 && At(s, 3) == 101
  }

  /** `skip`: every byte up to the space counts as white space. */
  function Skip(s: seq<byte>): (t: seq<byte>)
    ensures |t| <= |s| && (t != [] ==> t[0] > SPACE)
  {
    if s != [] && s[0] <= SPACE then Skip(s[1..]) else s
  }

  function ParseValueSpec(s: seq<byte>): (p: Parsed<Json>)
    ensures p.Ok? ==> |p.rest| < |s|
    decreases |s|, 0
  {
    if IsNullWord(s) then Ok(Json.Null, s[4..])
    else if IsFalseWord(s) then Ok(False, s[5..])
    else if IsTrueWord(s) then Ok(True, s[4..])
    else if At(s, 0) == QUOTE then
      var p := ParseStringSpec(s);
      if p.Ok? then Ok(String(p.value), p.rest) else if p.Fail? then Fail else Undefined
    else if At(s, 0) == MINUS || IsDigit(At(s, 0)) then
      NumberAdvances(s);
      Ok(Number(NumberValue(s)), s[NumberEnd(s)..])
    else if At(s, 0) == LBRACKET then
      if At(Skip(s[1..]), 0) == RBRACKET then Ok(Array([]), Skip(s[1..])[1..])
      else
        var p := ItemsSpec(s[1..]);
        if p.Ok? then Ok(Array(p.value), p.rest) else if p.Fail? then Fail else Undefined
    else if At(s, 0) == LBRACE then
      if At(Skip(s[1..]), 0) == RBRACE then Ok(Object([]), Skip(s[1..])[1..])
      else
        var p := MembersSpec(s[1..]);
        if p.Ok? then Ok(Object(p.value), p.rest) else if p.Fail? then Fail else Undefined
    else Fail
  }

  /** One child of an array and the white space around it. */
  function ElementSpec(s: seq<byte>): (p: Parsed<Json>)
    ensures p.Ok? ==> |p.rest| < |s|
    decreases |s|, 1
  {
    var v := ParseValueSpec(Skip(s));
    if v.Ok? then Ok(v.value, Skip(v.rest)) else v
  }

  /** The children of a nonempty array, from behind its `[` or a `,` to behind its `]`. */
  function ItemsSpec(s: seq<byte>): (p: Parsed<seq<Json>>)
    ensures p.Ok? ==> |p.rest| < |s|
    decreases |s|, 2
  {
    var e := ElementSpec(s);
    if e.Fail? then Fail else if e.Undefined? then Undefined
    else PrependItems([e.value], ItemsTailSpec(e.rest))
  }

  /** The children behind the first, from a `,` or the closing `]`. */
  function ItemsTailSpec(t: seq<byte>): (p: Parsed<seq<Json>>)
    ensures p.Ok? ==> |p.rest| < |t|
    decreases |t|, 3
  {
    if At(t, 0) == COMMA then ItemsSpec(t[1..])
    else if At(t, 0) == RBRACKET then Ok([], t[1..])
    else Fail
  }

  function PrependItems<T>(xs: seq<T>, p: Parsed<seq<T>>): Parsed<seq<T>> {
    if p.Ok? then Ok(xs + p.value, p.rest) else p
  }

  /** The colon and the value behind a key, and the white space around them. */
  function ColonValueSpec(s: seq<byte>): (p: Parsed<Json>)
    ensures p.Ok? ==> |p.rest| < |s|
    decreases |s|, 2
  {
    var t := Skip(s);
    if At(t, 0) == COLON then ElementSpec(t[1..]) else Fail
  }

  /** One `key : value` of an object. */
  function MemberSpec(s: seq<byte>): (p: Parsed<Member>)
    ensures p.Ok? ==> |p.rest| < |s|
    decreases |s|, 1
  {
    var k := ParseStringSpec(Skip(s));
    if k.Fail? then Fail else if k.Undefined? then Undefined
    else
      var v := ColonValueSpec(k.rest);
      if v.Fail? then Fail else if v.Undefined? then Undefined
      else Ok(Member(k.value, v.value), v.rest)
  }

  /** The children of a nonempty object, from behind its `{` or a `,` to behind its `}`. */
  function MembersSpec(s: seq<byte>): (p: Parsed<seq<Member>>)
    ensures p.Ok? ==> |p.rest| < |s|
    decreases |s|, 2
  {
    var m := MemberSpec(s);
    if m.Fail? then Fail else if m.Undefined? then Undefined
    else PrependItems([m.value], MembersTailSpec(m.rest))
  }

  function MembersTailSpec(t: seq<byte>): (p: Parsed<seq<Member>>)
    ensures p.Ok? ==> |p.rest| < |t|
    decreases |t|, 3
  {
    if At(t, 0) == COMMA then MembersSpec(t[1..])
    else if At(t, 0) == RBRACE then Ok([], t[1..])
    else Fail
  }

  lemma NumberAdvances(s: seq<byte>)
    requires At(s, 0) == MINUS || IsDigit(At(s, 0))
    ensures NumberEnd(s) >= 1
  {
  }

  /** `cJSON_ParseWithOpts`; the rest is what `return_parse_end` points to. */
  function ParseWithOptsSpec(value: seq<byte>, requireNullTerminated: bool): Parsed<Json> {
    var s := Skip(value);
    if At(s, 0) != LBRACKET && At(s, 0) != LBRACE then Fail
    else
      var p := ParseValueSpec(s);
      if !p.Ok? || !requireNullTerminated then p
      else if Skip(p.rest) != [] then Fail
      else Ok(p.value, [])
  }

  // ---- the C code ----

  method SkipSpace(text: seq<byte>, start: nat) returns (i: nat)
    requires start <= |text| && NulFree(text)
    ensures start <= i <= |text| && text[i..] == Skip(text[start..])
  {
    i := start;
    while At(text, i) != NUL && At(text, i) <= SPACE
      invariant start <= i <= |text| && Skip(text[i..]) == Skip(text[start..])
      decreases |text| - i
    {
      assert text[i..][1..] == text[i + 1..];
      i := i + 1;
    }
  }

  /** `parse_value`. */
  method ParseValue(text: seq<byte>, start: nat) returns (c: Cursor<Json>)
    requires start <= |text| && NulFree(text)
    ensures Within(text, c) && Unread(text, c) == ParseValueSpec(text[start..])
    ensures c.Next? ==> start < c.pos
    decreases |text| - start, 1
  {
    var s := text[start..];
    assert forall i :: 0 <= i <= |s| ==> s[i..] == text[start + i..];
    assert At(text, start) == At(s, 0);
    if IsNullWord(s) { return Next(Json.Null, start + 4); }
    if IsFalseWord(s) { return Next(False, start + 5); }
    if IsTrueWord(s) { return Next(True, start + 4); }
    if At(text, start) == QUOTE {
      var p := ParseString(text, start);
      match p {
        case Next(value, pos) => c := Next(String(value), pos);
        case Failed => c := Failed;
        case Wild => c := Wild;
      }
      SameRest(text, start, c);
      return;
    }
    if At(text, start) == MINUS || IsDigit(At(text, start)) {
      var value, end := ParseNumber(s);
      NumberAdvances(s);
      return Next(Number(value), start + end);
    }
    if At(text, start) == LBRACKET {
      c := ParseArray(text, start);
      return;
    }
    if At(text, start) == LBRACE {
      c := ParseObject(text, start);
      return;
    }
    return Failed;
  }

  lemma SameRest<T>(text: seq<byte>, start: nat, c: Cursor<T>)
    requires start <= |text| && Within(text, c)
    ensures c.Next? && |text[c.pos..]| < |text[start..]| ==> start < c.pos
  {
  }

  /** `parse_array`. */
  method ParseArray(text: seq<byte>, start: nat) returns (c: Cursor<Json>)
    requires start < |text| && NulFree(text) && text[start] == LBRACKET
    ensures Within(text, c) && Unread(text, c) == ParseValueSpec(text[start..])
    ensures c.Next? ==> start < c.pos
    decreases |text| - start, 0
  {
    assert text[start..][1..] == text[start + 1..];
    var value := SkipSpace(text, start + 1);
    if At(text, value) == RBRACKET {
      assert text[value..][1..] == text[value + 1..];
      return Next(Array([]), value + 1);
    }
    SkipTwice(text[start + 1..]);
    var p := ParseItems(text, value);
    match p {
      case Next(items, pos) => c := Next(Array(items), pos);
      case Failed => c := Failed;
      case Wild => c := Wild;
    }
  }

  /** The loop of `parse_array` over its children. */
  method ParseItems(text: seq<byte>, start: nat) returns (c: Cursor<seq<Json>>)
    requires start <= |text| && NulFree(text)
    ensures Within(text, c) && Unread(text, c) == ItemsSpec(text[start..])
    ensures c.Next? ==> start < c.pos
    decreases |text| - start, 3
  {
    ghost var whole := ItemsSpec(text[start..]);
    var child := ParseElement(text, start);
    if !child.Next? {
      return if child.Failed? then Failed else Wild;
    }
    var items := [child.value];
    var value := child.pos;
    while At(text, value) == COMMA
      invariant start < value <= |text|
      invariant whole == PrependItems(items, ItemsTailSpec(text[value..]))
      decreases |text| - value
    {
      assert text[value..][1..] == text[value + 1..];
      child := ParseElement(text, value + 1);
      if !child.Next? {
        return if child.Failed? then Failed else Wild;
      }
      PrependItemsTwice(items, [child.value], ItemsTailSpec(text[child.pos..]));
      items := items + [child.value];
      value := child.pos;
    }
    if At(text, value) == RBRACKET {
      assert text[value..][1..] == text[value + 1..];
      assert items + [] == items;
      return Next(items, value + 1);
    }
    return Failed;
  }

  /** `skip(parse_value(child, skip(value)))`. */
  method ParseElement(text: seq<byte>, start: nat) returns (c: Cursor<Json>)
    requires start <= |text| && NulFree(text)
    ensures Within(text, c) && Unread(text, c) == ElementSpec(text[start..])
    ensures c.Next? ==> start < c.pos
    decreases |text| - start, 2
  {
    var i := SkipSpace(text, start);
    c := ParseValue(text, i);
    if c.Next? {
      i := SkipSpace(text, c.pos);
      c := Next(c.value, i);
    }
  }

  /** `parse_object`. */
  method ParseObject(text: seq<byte>, start: nat) returns (c: Cursor<Json>)
    requires start < |text| && NulFree(text) && text[start] == LBRACE
    ensures Within(text, c) && Unread(text, c) == ParseValueSpec(text[start..])
    ensures c.Next? ==> start < c.pos
    decreases |text| - start, 0
  {
    assert text[start..][1..] == text[start + 1..];
    var value := SkipSpace(text, start + 1);
    if At(text, value) == RBRACE {
      assert text[value..][1..] == text[value + 1..];
      return Next(Object([]), value + 1);
    }
    SkipTwice(text[start + 1..]);
    var p := ParseMembers(text, value);
    match p {
      case Next(members, pos) => c := Next(Object(members), pos);
      case Failed => c := Failed;
      case Wild => c := Wild;
    }
  }

  /** The loop of `parse_object` over its children. */
  method ParseMembers(text: seq<byte>, start: nat) returns (c: Cursor<seq<Member>>)
    requires start <= |text| && NulFree(text)
    ensures Within(text, c) && Unread(text, c) == MembersSpec(text[start..])
    ensures c.Next? ==> start < c.pos
    decreases |text| - start, 5
  {
    ghost var whole := MembersSpec(text[start..]);
    var child := ParseMember(text, start);
    if !child.Next? {
      return if child.Failed? then Failed else Wild;
    }
    var members := [child.value];
    var value := child.pos;
    while At(text, value) == COMMA
      invariant start < value <= |text|
      invariant whole == PrependItems(members, MembersTailSpec(text[value..]))
      decreases |text| - value
    {
      assert text[value..][1..] == text[value + 1..];
      child := ParseMember(text, value + 1);
      if !child.Next? {
        return if child.Failed? then Failed else Wild;
      }
      PrependItemsTwice(members, [child.value], MembersTailSpec(text[child.pos..]));
      members := members + [child.value];
      value := child.pos;
    }
    if At(text, value) == RBRACE {
      assert text[value..][1..] == text[value + 1..];
      assert members + [] == members;
      return Next(members, value + 1);
    }
    return Failed;
  }

  /** The body of the loop of `parse_object`: key, colon and value. */
  method ParseMember(text: seq<byte>, start: nat) returns (c: Cursor<Member>)
    requires start <= |text| && NulFree(text)
    ensures Within(text, c) && Unread(text, c) == MemberSpec(text[start..])
    ensures c.Next? ==> start < c.pos
    decreases |text| - start, 4
  {
    var i := SkipSpace(text, start);
    var key := ParseString(text, i);
    if !key.Next? {
      return if key.Failed? then Failed else Wild;
    }
    assert |text[key.pos..]| < |text[start..]|;
    var v := ParseColonValue(text, key.pos);
    if !v.Next? {
      return if v.Failed? then Failed else Wild;
    }
    return Next(Member(key.value, v.value), v.pos);
  }

  method ParseColonValue(text: seq<byte>, start: nat) returns (c: Cursor<Json>)
    requires start <= |text| && NulFree(text)
    ensures Within(text, c) && Unread(text, c) == ColonValueSpec(text[start..])
    ensures c.Next? ==> start < c.pos
    decreases |text| - start, 3
  {
    var i := SkipSpace(text, start);
    if At(text, i) != COLON {
      return Failed;
    }
    assert text[i..][1..] == text[i + 1..];
    c := ParseElement(text, i + 1);
  }

  /** `cJSON_ParseWithOpts`. */
  method ParseWithOpts(value: seq<byte>, requireNullTerminated: bool) returns (c: Cursor<Json>)
    requires NulFree(value)
    ensures Within(value, c) && Unread(value, c) == ParseWithOptsSpec(value, requireNullTerminated)
  {
    assert value[0..] == value;
    var i := SkipSpace(value, 0);
    if At(value, i) != LBRACKET && At(value, i) != LBRACE {
      return Failed;
    }
    c := ParseValue(value, i);
    if c.Next? && requireNullTerminated {
      i := SkipSpace(value, c.pos);
      if At(value, i) != NUL {
        return Failed;
      }
      c := Next(c.value, i);
    }
  }

  lemma SkipTwice(s: seq<byte>)
    ensures Skip(Skip(s)) == Skip(s)
    ensures ElementSpec(Skip(s)) == ElementSpec(s) && MemberSpec(Skip(s)) == MemberSpec(s)
    ensures ItemsSpec(Skip(s)) == ItemsSpec(s) && MembersSpec(Skip(s)) == MembersSpec(s)
  {
  }

  lemma PrependItemsTwice<T>(xs: seq<T>, ys: seq<T>, p: Parsed<seq<T>>)
    ensures PrependItems([], p) == p
    ensures PrependItems(xs, PrependItems(ys, p)) == PrependItems(xs + ys, p)
  {
    if p.Ok? {
      assert [] + p.value == p.value;
      assert xs + (ys + p.value) == xs + ys + p.value;
    }
  }
}
