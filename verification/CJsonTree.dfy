/**
 Editing trees in net4g/src/cjson.c: the items of an array or object are a chain of siblings,
 doubly linked with null at both ends.
 */
module CJsonTree {
  import opened Bytes
  import opened Wrappers

  /** What an item holds, apart from its links and its name. */
  datatype Payload = Payload(kind: int, valuestring: Option<str>, valueint: int, valuedouble: real)

  class Item {
    var next: Item?
    var prev: Item?
    var child: Item?
    var payload: Payload
    var isReference: bool
    var name: Option<str>

    /** `cJSON_New_Item` */
    constructor ()
      ensures next == prev == child == null && !isReference && name == None
    {
      next, prev, child := null, null, null;
      payload, isReference, name := Payload(0, None, 0, 0.0), false, None;
    }
  }

  // ---- chains of siblings ----

  function Nth(s: seq<Item>, k: int): Item? {
    if 0 <= k < |s| then s[k] else null
  }

  ghost predicate Distinct(s: seq<Item>) {
    forall i, j :: 0 <= i < j < |s| ==> s[i] != s[j]
  }

  ghost predicate Chain(first: Item?, s: seq<Item>)
    reads s`next, s`prev
  {
    && first == Nth(s, 0) && Distinct(s)
    && (forall k {:trigger s[k].next} :: 0 <= k < |s| ==> s[k].next == Nth(s, k + 1))
    && (forall k {:trigger s[k].prev} :: 0 <= k < |s| ==> s[k].prev == Nth(s, k - 1))
  }

  /** The items of an array or object. */
  ghost predicate Holds(owner: Item, s: seq<Item>)
    reads owner`child, s`next, s`prev
  {
    Chain(owner.child, s) && owner !in s
  }

  /** `cJSON_GetArraySize` */
  method GetArraySize(owner: Item, ghost s: seq<Item>) returns (i: nat)
    requires Holds(owner, s)
    ensures i == |s|
  {
    var c := owner.child;
    i := 0;
    while c != null
      invariant i <= |s| && c == Nth(s, i)
      decreases |s| - i
    {
      i := i + 1;
      c := c.next;
    }
  }

  /** The walk that starts most operations: an index below zero counts as zero. */
  method Walk(owner: Item, which: int, ghost s: seq<Item>) returns (c: Item?)
    requires Holds(owner, s)
    ensures c == Nth(s, if which < 0 then 0 else which)
  {
    c := owner.child;
    var left := which;
    ghost var i := 0;
    while c != null && left > 0
      invariant 0 <= i <= |s| && c == Nth(s, i) && (which <= 0 ==> i == 0 && left == which) && (which > 0 ==> left == which - i >= 0)
      decreases |s| - i
    {
      c := c.next;
      left := left - 1;
      i := i + 1;
    }
  }

  /** `cJSON_AddItemToArray` */
  method AddItemToArray(owner: Item, item: Item?, ghost s: seq<Item>)
    requires Holds(owner, s) && (item != null ==> item !in s && item != owner && item.next == null && item.prev == null)
    modifies owner`child, s`next, (if item == null then {} else {item})`prev
    ensures Holds(owner, if item == null then s else s + [item])
  {
    if item != null {
      Append(owner, item, s);
    }
  }

  method Append(owner: Item, item: Item, ghost s: seq<Item>)
    requires Holds(owner, s) && item !in s && item != owner && item.next == null && item.prev == null
    modifies owner`child, s`next, item`prev
    ensures Holds(owner, s + [item])
  {
    var c := owner.child;
    if c == null {
      owner.child := item;
      assert s + [item] == [item];
    } else {
      ghost var i := 0;
      while c.next != null
        invariant 0 <= i < |s| && c == s[i]
        decreases |s| - i
      {
        i := i + 1;
        c := c.next;
      }
      c.next := item;
      item.prev := c;
    }
  }

  /** What is left when an item is skipped is a chain. */
  lemma ChainWithout(s: seq<Item>, w: nat)
    requires w < |s| && Distinct(s)
    requires forall j {:trigger s[j].next} :: 0 <= j < |s| && j != w ==> s[j].next == if j + 1 == w then Nth(s, w + 1) else Nth(s, j + 1)
    requires forall j {:trigger s[j].prev} :: 0 <= j < |s| && j != w ==> s[j].prev == if j - 1 == w then Nth(s, w - 1) else Nth(s, j - 1)
    ensures Chain(Nth(s[..w] + s[w + 1..], 0), s[..w] + s[w + 1..]) && s[w] !in s[..w] + s[w + 1..]
  {
  }

  /** `cJSON_DetachItemFromArray` */
  method DetachItemFromArray(owner: Item, which: int, ghost s: seq<Item>) returns (c: Item?)
    requires Holds(owner, s)
    modifies owner`child, s`next, s`prev
    ensures var w := if which < 0 then 0 else which;
      && c == Nth(s, w)
      && (w >= |s| ==> Holds(owner, s))
      && (w < |s| ==> Holds(owner, s[..w] + s[w + 1..]) && c.next == null && c.prev == null && c !in s[..w] + s[w + 1..])
  {
    c := Walk(owner, which, s);
    if c != null {
      Unlink(owner, c, s, if which < 0 then 0 else which);
    }
  }

  method Unlink(owner: Item, c: Item, ghost s: seq<Item>, ghost w: nat)
    requires Holds(owner, s) && w < |s| && c == s[w]
    modifies owner`child, s`next, s`prev
    ensures Holds(owner, s[..w] + s[w + 1..]) && c.next == null && c.prev == null && c !in s[..w] + s[w + 1..]
  {
    assert c.prev == Nth(s, w - 1) && c.next == Nth(s, w + 1);
    if c.prev != null {
      c.prev.next := c.next;
    }
    if c.next != null {
      c.next.prev := c.prev;
    }
    if c == owner.child {
      owner.child := c.next;
    }
    c.prev, c.next := null, null;
    ChainWithout(s, w);
  }

  lemma ChainWith(s: seq<Item>, w: nat, item: Item)
    requires w < |s| && Distinct(s) && item !in s && item.next == Nth(s, w + 1) && item.prev == Nth(s, w - 1)
    requires forall j {:trigger s[j].next} :: 0 <= j < |s| && j != w ==> s[j].next == if j + 1 == w then item else Nth(s, j + 1)
    requires forall j {:trigger s[j].prev} :: 0 <= j < |s| && j != w ==> s[j].prev == if j - 1 == w then item else Nth(s, j - 1)
    ensures Chain(Nth(s[w := item], 0), s[w := item])
  {
  }

  /** `cJSON_ReplaceItemInArray`, but for the deletion of the old item. */
  method ReplaceItemInArray(owner: Item, which: int, newitem: Item, ghost s: seq<Item>)
    requires Holds(owner, s) && newitem !in s && newitem != owner
    modifies owner`child, s`next, s`prev, newitem`next, newitem`prev
    ensures var w := if which < 0 then 0 else which;
      && (w >= |s| ==> Holds(owner, s) && newitem.next == old(newitem.next) && newitem.prev == old(newitem.prev))
      && (w < |s| ==> Holds(owner, s[w := newitem]) && s[w].next == null && s[w].prev == null)
  {
    var c := Walk(owner, which, s);
    if c != null {
      Replace(owner, c, newitem, s, if which < 0 then 0 else which);
    }
  }

  method Replace(owner: Item, c: Item, newitem: Item, ghost s: seq<Item>, ghost w: nat)
    requires Holds(owner, s) && w < |s| && c == s[w] && newitem !in s && newitem != owner
    modifies owner`child, s`next, s`prev, newitem`next, newitem`prev
    ensures Holds(owner, s[w := newitem]) && c.next == null && c.prev == null
  {
    assert c.prev == Nth(s, w - 1) && c.next == Nth(s, w + 1);
    newitem.next := c.next;
    newitem.prev := c.prev;
    if newitem.next != null {
      newitem.next.prev := newitem;
    }
    if c == owner.child {
      owner.child := newitem;
    } else {
      newitem.prev.next := newitem;
    }
    c.prev, c.next := null, null;
    ChainWith(s, w, newitem);
  }

  // ---- names ----

  /** `tolower` on a byte. */
  function Lower(b: byte): byte {
    if 65 <= b <= 90 then b + 32 else b
  }

  predicate SameFold(s: str, t: str) {
    |s| == |t| && forall k :: 0 <= k < |s| ==> Lower(s[k]) == Lower(t[k])
  }

  /** Equal but for case; a missing name equals only a missing name. */
  predicate SameName(a: Option<str>, b: Option<str>) {
    if a.Some? && b.Some? then SameFold(a.value, b.value) else a == b
  }

  predicate CString(a: Option<str>) {
    a.Some? ==> NulFree(a.value)
  }

  /** Byte by byte: the same, or the capital (65 to 90) and the small one of a letter. */
  predicate SameLetter(b: byte, c: byte) {
    b == c || (65 <= b <= 90 && c == b + 32) || (65 <= c <= 90 && b == c + 32)
  }

  lemma SameFoldInBytes(s: str, t: str)
    ensures SameFold(s, t) <==> |s| == |t| && forall k :: 0 <= k < |s| ==> SameLetter(s[k], t[k])
  {
    forall k | 0 <= k < |s| && k < |t| ensures SameLetter(s[k], t[k]) <==> Lower(s[k]) == Lower(t[k]) {
    }
  }

  lemma SameNameIsEquivalence(a: Option<str>, b: Option<str>, c: Option<str>)
    ensures SameName(a, a) && (SameName(a, b) ==> SameName(b, a)) && (SameName(a, b) && SameName(b, c) ==> SameName(a, c))
  {
  }

  /** `cJSON_strcasecmp`: zero just for equal names. */
  method Strcasecmp(s1: Option<str>, s2: Option<str>) returns (r: int)
    requires CString(s1) && CString(s2)
    ensures r == 0 <==> SameName(s1, s2)
  {
    if s1.None? {
      return if s2.None? then 0 else 1;
    }
    if s2.None? {
      return 1;
    }
    var a, b, i := s1.value, s2.value, 0;
    while Lower(At(a, i)) == Lower(At(b, i))
      invariant i <= |a| && i <= |b| && forall k :: 0 <= k < i ==> Lower(a[k]) == Lower(b[k])
      decreases |a| - i
    {
      if At(a, i) == NUL {
        return 0;
      }
      i := i + 1;
    }
    return Lower(At(a, i)) - Lower(At(b, i));
  }

  ghost predicate CNames(s: seq<Item>)
    reads s`name
  {
    forall k :: 0 <= k < |s| ==> CString(s[k].name)
  }

  /** The first item with a name is at i; if there is none, i is the number of items. */
  ghost predicate FirstNamed(s: seq<Item>, name: str, i: nat)
    reads s`name
  {
    && i <= |s| && (i < |s| ==> SameName(s[i].name, Some(name)))
    && forall j :: 0 <= j < i ==> !SameName(s[j].name, Some(name))
  }

  /** The search loop of the operations on objects. */
  method FindNamed(owner: Item, name: str, ghost s: seq<Item>) returns (c: Item?, i: nat)
    requires Holds(owner, s) && CNames(s) && NulFree(name)
    ensures FirstNamed(s, name, i) && c == Nth(s, i)
  {
    c, i := owner.child, 0;
    while c != null
      invariant i <= |s| && c == Nth(s, i) && forall j :: 0 <= j < i ==> !SameName(s[j].name, Some(name))
      decreases |s| - i
    {
      var r := Strcasecmp(c.name, Some(name));
      if r == 0 {
        return;
      }
      i := i + 1;
      c := c.next;
    }
  }

  lemma FirstNamedUnique(s: seq<Item>, name: str, i: nat, j: nat)
    requires FirstNamed(s, name, i) && FirstNamed(s, name, j)
    ensures i == j
  {
  }

  /** `cJSON_GetObjectItem` */
  method GetObjectItem(owner: Item, name: str, ghost s: seq<Item>) returns (c: Item?)
    requires Holds(owner, s) && CNames(s) && NulFree(name)
    ensures forall i: nat :: FirstNamed(s, name, i) ==> c == Nth(s, i)
  {
    var k;
    c, k := FindNamed(owner, name, s);
    forall i: nat | FirstNamed(s, name, i)
      ensures i == k
    {
      FirstNamedUnique(s, name, i, k);
    }
  }

  /** `cJSON_AddItemToObject` */
  method AddItemToObject(owner: Item, name: str, item: Item, ghost s: seq<Item>)
    requires Holds(owner, s) && item !in s && item != owner && item.next == null && item.prev == null
    modifies owner`child, s`next, item`prev, item`name
    ensures Holds(owner, s + [item]) && item.name == Some(name)
  {
    item.name := Some(name);
    Append(owner, item, s);
  }

  method DetachAt(owner: Item, k: nat, ghost s: seq<Item>) returns (c: Item)
    requires Holds(owner, s) && k < |s|
    modifies owner`child, s`next, s`prev
    ensures c == s[k] && Holds(owner, s[..k] + s[k + 1..]) && c.next == null && c.prev == null
  {
    var d := DetachItemFromArray(owner, k, s);
    c := d;
  }

  /** `cJSON_DetachItemFromObject` */
  method DetachItemFromObject(owner: Item, name: str, ghost s: seq<Item>) returns (c: Item?, ghost i: nat)
    requires Holds(owner, s) && CNames(s) && NulFree(name)
    modifies owner`child, s`next, s`prev
    ensures FirstNamed(s, name, i) && c == Nth(s, i)
    ensures Holds(owner, if i == |s| then s else s[..i] + s[i + 1..])
    ensures c != null ==> c.next == null && c.prev == null
  {
    var k;
    c, k := FindNamed(owner, name, s);
    i := k;
    if c != null {
      c := DetachAt(owner, k, s);
    }
  }

  /** `cJSON_ReplaceItemInObject` */
  method ReplaceItemInObject(owner: Item, name: str, newitem: Item, ghost s: seq<Item>) returns (ghost i: nat)
    requires Holds(owner, s) && CNames(s) && NulFree(name) && newitem !in s && newitem != owner
    modifies owner`child, s`next, s`prev, newitem`next, newitem`prev, newitem`name
    ensures FirstNamed(s, name, i)
    ensures i < |s| ==> Holds(owner, s[i := newitem]) && newitem.name == Some(name)
    ensures i == |s| ==> Holds(owner, s) && newitem.name == old(newitem.name)
  {
    var c, k := FindNamed(owner, name, s);
    i := k;
    if c != null {
      newitem.name := Some(name);
      ReplaceItemInArray(owner, k, newitem, s);
    }
  }

  /** `update_item_def_add_new`: the first item with the name, in whatever case, is replaced; if there
      is none, the new item is added at the end. */
  method UpdateItemDefAddNew(owner: Item, name: str, newitem: Item, ghost s: seq<Item>) returns (ghost i: nat)
    requires Holds(owner, s) && CNames(s) && NulFree(name) && newitem !in s && newitem != owner
    requires newitem.next == null && newitem.prev == null
    modifies owner`child, s`next, s`prev, newitem`next, newitem`prev, newitem`name
    ensures FirstNamed(s, name, i) && newitem.name == Some(name)
    ensures Holds(owner, if i < |s| then s[i := newitem] else s + [newitem])
  {
    var c, k := FindNamed(owner, name, s);
    i := k;
    if c != null {
      newitem.name := Some(name);
      ReplaceItemInArray(owner, k, newitem, s);
    } else {
      AddItemToObject(owner, name, newitem, s);
    }
  }

  /** After an update the new item is the one found under the name. */
  method UpdateThenGet(owner: Item, name: str, newitem: Item, ghost s: seq<Item>) returns (c: Item?)
    requires Holds(owner, s) && CNames(s) && NulFree(name) && newitem !in s && newitem != owner
    requires newitem.next == null && newitem.prev == null
    modifies owner`child, s`next, s`prev, newitem`next, newitem`prev, newitem`name
    ensures c == newitem
  {
    ghost var i := UpdateItemDefAddNew(owner, name, newitem, s);
    ghost var t := if i < |s| then s[i := newitem] else s + [newitem];
    c := GetObjectItem(owner, name, t);
    assert t[i] == newitem && SameName(t[i].name, Some(name));
    assert forall k :: 0 <= k < i ==> t[k] == s[k];
    assert FirstNamed(t, name, i);
  }
}
