/**
 The intrusive circular list of ikcc_service/src/include/common/list.h. A list with its head is a
 ring; every operation that rewires a few links amounts to an operation on the sequence of entries.
 */
module ListHead {

  class Node {
    var next: Node?
    var prev: Node?

    /** `INIT_LIST_HEAD` */
    constructor ()
      ensures Ring(this, [])
    {
      next, prev := this, this;
    }
  }

  ghost predicate Edge(a: Node, b: Node)
    reads a, b
  {
    a.next == b && b.prev == a
  }

  ghost predicate Distinct(c: seq<Node>) {
    forall i, j :: 0 <= i < j < |c| ==> c[i] != c[j]
  }

  /** Neighbours point to each other. */
  ghost predicate Linked(c: seq<Node>)
    reads c
  {
    forall i :: 0 <= i < |c| - 1 ==> Edge(c[i], c[i + 1])
  }

  /** The entries of a list in order, from its head round to its head. */
  ghost predicate Ring(head: Node, s: seq<Node>)
    reads head, s
  {
    Distinct([head] + s) && Linked([head] + s + [head])
  }

  lemma HeadNotIn(head: Node, s: seq<Node>)
    requires Distinct([head] + s)
    ensures head !in s
  {
    forall i | 0 <= i < |s|
      ensures s[i] != head
    {
      assert ([head] + s)[i + 1] == s[i] && ([head] + s)[0] == head;
    }
  }

  /** The chain of a list: its head, its entries, and its head again. */
  ghost function Around(head: Node, s: seq<Node>): seq<Node> {
    [head] + s + [head]
  }

  /** `__list_add` between two neighbours of a list. */
  method InsertBetween(added: Node, prev: Node, next: Node, ghost head: Node, ghost s: seq<Node>, ghost k: nat)
    requires Ring(head, s) && added !in [head] + s && k <= |s|
    requires prev == Around(head, s)[k] && next == Around(head, s)[k + 1]
    modifies added, prev, next
    ensures Ring(head, s[..k] + [added] + s[k..])
  {
    ghost var c := Around(head, s);
    assert forall i :: 0 <= i < |c| - 1 ==> Edge(c[i], c[i + 1]);
    next.prev := added;
    added.next := next;
    added.prev := prev;
    prev.next := added;
    ghost var t := s[..k] + [added] + s[k..];
    ghost var d := Around(head, t);
    forall i | 0 <= i < |d| - 1
      ensures Edge(d[i], d[i + 1])
    {
      if i < k {
        assert d[i] == c[i] && d[i + 1] == c[i + 1];
      } else if i > k + 1 {
        assert d[i] == c[i - 1] && d[i + 1] == c[i];
      }
    }
    DistinctInsert([head] + s, k + 1, added);
    assert [head] + t == ([head] + s)[..k + 1] + [added] + ([head] + s)[k + 1..];
  }

  lemma DistinctInsert(c: seq<Node>, k: nat, x: Node)
    requires Distinct(c) && x !in c && k <= |c|
    ensures Distinct(c[..k] + [x] + c[k..])
  {
  }

  lemma DistinctRemove(c: seq<Node>, k: nat)
    requires Distinct(c) && k < |c|
    ensures Distinct(c[..k] + c[k + 1..]) && c[k] !in c[..k] + c[k + 1..]
  {
  }

  /** `list_add` */
  method ListAdd(added: Node, head: Node, ghost s: seq<Node>)
    requires Ring(head, s) && added !in [head] + s
    modifies added, head, s
    ensures Ring(head, [added] + s)
  {
    ghost var c := Around(head, s);
    assert Edge(c[0], c[1]);
    InsertBetween(added, head, head.next, head, s, 0);
    assert s[..0] + [added] + s[0..] == [added] + s;
  }

  /** `list_add_tail` */
  method ListAddTail(added: Node, head: Node, ghost s: seq<Node>)
    requires Ring(head, s) && added !in [head] + s
    modifies added, head, s
    ensures Ring(head, s + [added])
  {
    ghost var c := Around(head, s);
    assert Edge(c[|s|], c[|s| + 1]);
    InsertBetween(added, head.prev, head, head, s, |s|);
    assert s[..|s|] + [added] + s[|s|..] == s + [added];
  }

  /** `__list_del_entry`: the neighbours of an entry are joined. */
  method Unlink(entry: Node, ghost head: Node, ghost s: seq<Node>, ghost k: nat)
    requires Ring(head, s) && k < |s| && entry == s[k]
    modifies head, s
    ensures Ring(head, s[..k] + s[k + 1..]) && entry !in [head] + (s[..k] + s[k + 1..])
  {
    ghost var c := Around(head, s);
    assert Edge(c[k], c[k + 1]) && Edge(c[k + 1], c[k + 2]);
    assert forall i :: 0 <= i < |c| - 1 ==> Edge(c[i], c[i + 1]);
    var prev, next := entry.prev, entry.next;
    next.prev := prev;
    prev.next := next;
    ghost var t := s[..k] + s[k + 1..];
    ghost var d := Around(head, t);
    forall i | 0 <= i < |d| - 1
      ensures Edge(d[i], d[i + 1])
    {
      if i < k {
        assert d[i] == c[i] && d[i + 1] == c[i + 1];
      } else if i > k {
        assert d[i] == c[i + 1] && d[i + 1] == c[i + 2];
      }
    }
    DistinctWithout(head, s, k);
  }

  lemma DistinctWithout(head: Node, s: seq<Node>, k: nat)
    requires Distinct([head] + s) && k < |s|
    ensures Distinct([head] + (s[..k] + s[k + 1..])) && s[k] !in [head] + (s[..k] + s[k + 1..])
  {
    DistinctRemove([head] + s, k + 1);
    assert [head] + (s[..k] + s[k + 1..]) == ([head] + s)[..k + 1] + ([head] + s)[k + 2..];
  }

  /** `list_del`: the entry is left with poisoned links, here null. */
  method ListDel(entry: Node, ghost head: Node, ghost s: seq<Node>, ghost k: nat)
    requires Ring(head, s) && k < |s| && entry == s[k]
    modifies head, s
    ensures Ring(head, s[..k] + s[k + 1..]) && entry.next == null && entry.prev == null
  {
    Unlink(entry, head, s, k);
    entry.next, entry.prev := null, null;
  }

  /** `INIT_LIST_HEAD` on an existing node. */
  method InitListHead(list: Node)
    modifies list
    ensures Ring(list, [])
  {
    list.next := list;
    list.prev := list;
    assert [list] + [] + [list] == [list, list];
  }

  /** `list_del_init` */
  method ListDelInit(entry: Node, ghost head: Node, ghost s: seq<Node>, ghost k: nat)
    requires Ring(head, s) && k < |s| && entry == s[k]
    modifies head, s
    ensures Ring(head, s[..k] + s[k + 1..]) && Ring(entry, [])
  {
    Unlink(entry, head, s, k);
    InitListHead(entry);
  }

  /** `list_replace`: the new node takes the place of an entry, or of the head. */
  method ListReplace(replaced: Node, added: Node, ghost head: Node, ghost s: seq<Node>, ghost k: nat)
    requires Ring(head, s) && k <= |s| && replaced == ([head] + s)[k] && added !in [head] + s
    modifies added, head, s
    ensures Ring(([head] + s)[k := added][0], ([head] + s)[k := added][1..])
    ensures replaced.next == old(replaced.next) && (|s| > 0 ==> replaced.prev == old(replaced.prev))
  {
    ghost var c := Around(head, s);
    assert forall i :: 0 <= i < |c| - 1 ==> Edge(c[i], c[i + 1]);
    assert Edge(c[k], c[k + 1]);
    assert k > 0 ==> Edge(c[k - 1], c[k]);
    assert Edge(c[|s|], c[|s| + 1]);
    added.next := replaced.next;
    added.next.prev := added;
    added.prev := replaced.prev;
    added.prev.next := added;
    ghost var r := ([head] + s)[k := added];
    ghost var d := Around(r[0], r[1..]);
    forall i | 0 <= i < |d| - 1
      ensures Edge(d[i], d[i + 1])
    {
      assert d[i] == if i == k then added else c[i];
      assert d[i + 1] == if i + 1 == k || (k == 0 && i == |s|) then added else c[i + 1];
    }
    assert [r[0]] + r[1..] == r;
  }

  /** `list_replace_init` */
  method ListReplaceInit(replaced: Node, added: Node, ghost head: Node, ghost s: seq<Node>, ghost k: nat)
    requires Ring(head, s) && k <= |s| && replaced == ([head] + s)[k] && added !in [head] + s
    modifies added, head, s
    ensures Ring(([head] + s)[k := added][0], ([head] + s)[k := added][1..]) && Ring(replaced, [])
  {
    ListReplace(replaced, added, head, s, k);
    InitListHead(replaced);
  }

  /** Two lists without a common node. */
  ghost predicate Disjoint(a: Node, s: seq<Node>, b: Node, t: seq<Node>) {
    a != b && a !in t && b !in s && forall x :: x in s ==> x !in t
  }

  /** Taking an entry out of one list leaves another alone, and so does adding it there. */
  method UnlinkBeside(entry: Node, ghost from: Node, ghost s: seq<Node>, ghost k: nat, ghost head: Node, ghost t: seq<Node>)
    requires Ring(from, s) && Ring(head, t) && k < |s| && entry == s[k] && Disjoint(from, s, head, t)
    modifies from, s
    ensures Ring(from, s[..k] + s[k + 1..]) && Ring(head, t)
    ensures entry !in [head] + t && entry !in [from] + (s[..k] + s[k + 1..])
    ensures Disjoint(from, s[..k] + s[k + 1..], head, t)
  {
    ghost var c := Around(head, t);
    assert forall i :: 0 <= i < |c| - 1 ==> Edge(c[i], c[i + 1]);
    assert forall i :: 0 <= i < |t| ==> t[i] in t;
    Unlink(entry, from, s, k);
    forall i | 0 <= i < |c| - 1
      ensures Edge(c[i], c[i + 1])
    {
      assert 0 < i ==> c[i] == t[i - 1];
      assert i < |t| ==> c[i + 1] == t[i];
    }
  }

  method AddBeside(entry: Node, head: Node, ghost t: seq<Node>, ghost from: Node, ghost rest: seq<Node>)
    requires Ring(from, rest) && Ring(head, t) && entry !in [head] + t && entry !in [from] + rest
    requires Disjoint(from, rest, head, t)
    modifies entry, head, t
    ensures Ring(from, rest) && Ring(head, [entry] + t)
  {
    ghost var c := Around(from, rest);
    assert forall i :: 0 <= i < |c| - 1 ==> Edge(c[i], c[i + 1]);
    assert forall i :: 0 <= i < |rest| ==> rest[i] in rest && rest[i] in [from] + rest;
    ListAdd(entry, head, t);
    forall i | 0 <= i < |c| - 1
      ensures Edge(c[i], c[i + 1])
    {
      assert 0 < i ==> c[i] == rest[i - 1];
      assert i < |rest| ==> c[i + 1] == rest[i];
    }
  }

  method AddTailBeside(entry: Node, head: Node, ghost t: seq<Node>, ghost from: Node, ghost rest: seq<Node>)
    requires Ring(from, rest) && Ring(head, t) && entry !in [head] + t && entry !in [from] + rest
    requires Disjoint(from, rest, head, t)
    modifies entry, head, t
    ensures Ring(from, rest) && Ring(head, t + [entry])
  {
    ghost var c := Around(from, rest);
    assert forall i :: 0 <= i < |c| - 1 ==> Edge(c[i], c[i + 1]);
    assert forall i :: 0 <= i < |rest| ==> rest[i] in rest && rest[i] in [from] + rest;
    ListAddTail(entry, head, t);
    forall i | 0 <= i < |c| - 1
      ensures Edge(c[i], c[i + 1])
    {
      assert 0 < i ==> c[i] == rest[i - 1];
      assert i < |rest| ==> c[i + 1] == rest[i];
    }
  }

  /** `list_move`: from one list to the front of another. */
  method ListMove(list: Node, head: Node, ghost from: Node, ghost s: seq<Node>, ghost k: nat, ghost t: seq<Node>)
    requires Ring(from, s) && Ring(head, t) && k < |s| && list == s[k] && Disjoint(from, s, head, t)
    modifies from, s, head, t
    ensures Ring(from, s[..k] + s[k + 1..]) && Ring(head, [list] + t)
  {
    UnlinkBeside(list, from, s, k, head, t);
    AddBeside(list, head, t, from, s[..k] + s[k + 1..]);
  }

  /** `list_move_tail` likewise. */
  method ListMoveTail(list: Node, head: Node, ghost from: Node, ghost s: seq<Node>, ghost k: nat, ghost t: seq<Node>)
    requires Ring(from, s) && Ring(head, t) && k < |s| && list == s[k] && Disjoint(from, s, head, t)
    modifies from, s, head, t
    ensures Ring(from, s[..k] + s[k + 1..]) && Ring(head, t + [list])
  {
    UnlinkBeside(list, from, s, k, head, t);
    AddTailBeside(list, head, t, from, s[..k] + s[k + 1..]);
  }

  /** Both, within one list. */
  method ListMoveWithin(list: Node, head: Node, ghost s: seq<Node>, ghost k: nat)
    requires Ring(head, s) && k < |s| && list == s[k]
    modifies head, s
    ensures Ring(head, [list] + (s[..k] + s[k + 1..]))
  {
    Unlink(list, head, s, k);
    ListAdd(list, head, s[..k] + s[k + 1..]);
  }

  method ListMoveTailWithin(list: Node, head: Node, ghost s: seq<Node>, ghost k: nat)
    requires Ring(head, s) && k < |s| && list == s[k]
    modifies head, s
    ensures Ring(head, s[..k] + s[k + 1..] + [list])
  {
    Unlink(list, head, s, k);
    ListAddTail(list, head, s[..k] + s[k + 1..]);
  }

  /** `list_empty` */
  method ListEmpty(head: Node, ghost s: seq<Node>) returns (r: bool)
    requires Ring(head, s)
    ensures r == (s == [])
  {
    assert Edge(Around(head, s)[0], Around(head, s)[1]);
    r := head.next == head;
  }

  /** `list_is_singular` */
  method ListIsSingular(head: Node, ghost s: seq<Node>) returns (r: bool)
    requires Ring(head, s)
    ensures r == (|s| == 1)
  {
    ghost var c := Around(head, s);
    assert Edge(c[0], c[1]) && Edge(c[|s|], c[|s| + 1]);
    assert |s| > 1 ==> c[1] == ([head] + s)[1] && c[|s|] == ([head] + s)[|s|];
    var empty := ListEmpty(head, s);
    r := !empty && head.next == head.prev;
  }

  /** `list_is_last` */
  method ListIsLast(list: Node, head: Node, ghost s: seq<Node>, ghost k: nat) returns (r: bool)
    requires Ring(head, s) && k < |s| && list == s[k]
    ensures r == (k == |s| - 1)
  {
    ghost var c := Around(head, s);
    assert Edge(c[k + 1], c[k + 2]);
    assert k < |s| - 1 ==> c[k + 2] == ([head] + s)[k + 2] && ([head] + s)[0] == head;
    r := list.next == head;
  }

  /** `list_rotate_left` */
  method ListRotateLeft(head: Node, ghost s: seq<Node>)
    requires Ring(head, s)
    modifies head, s
    ensures Ring(head, if s == [] then [] else s[1..] + [s[0]])
  {
    var empty := ListEmpty(head, s);
    if !empty {
      assert Edge(Around(head, s)[0], Around(head, s)[1]);
      var first := head.next;
      ListMoveTailWithin(first, head, s, 0);
      assert s[..0] + s[1..] + [first] == s[1..] + [s[0]];
    }
  }

  /** `__list_cut_position` after the entry at k. */
  method CutAfter(list: Node, head: Node, entry: Node, ghost s: seq<Node>, ghost k: nat)
    requires Ring(head, s) && list !in [head] + s && k < |s| && entry == s[k]
    modifies list, head, s
    ensures Ring(list, s[..k + 1]) && Ring(head, s[k + 1..])
  {
    ghost var c := Around(head, s);
    assert forall i :: 0 <= i < |c| - 1 ==> Edge(c[i], c[i + 1]);
    assert Edge(c[0], c[1]) && Edge(c[k + 1], c[k + 2]);
    var newFirst := entry.next;
    list.next := head.next;
    list.next.prev := list;
    list.prev := entry;
    entry.next := list;
    head.next := newFirst;
    newFirst.prev := head;
    ghost var d, e := Around(list, s[..k + 1]), Around(head, s[k + 1..]);
    forall i | 0 <= i < |d| - 1
      ensures Edge(d[i], d[i + 1])
    {
      assert 0 < i ==> d[i] == c[i];
      assert i < k + 1 ==> d[i + 1] == c[i + 1];
    }
    forall i | 0 <= i < |e| - 1
      ensures Edge(e[i], e[i + 1])
    {
      assert 0 < i ==> e[i] == c[k + 1 + i];
      assert e[i + 1] == c[k + 2 + i];
    }
    DistinctParts(head, s, list, k + 1);
  }

  lemma DistinctParts(head: Node, s: seq<Node>, list: Node, n: nat)
    requires Distinct([head] + s) && list !in [head] + s && n <= |s|
    ensures Distinct([list] + s[..n]) && Distinct([head] + s[n..])
  {
    var c := [head] + s;
    forall i, j | 0 <= i < j < |[list] + s[..n]|
      ensures ([list] + s[..n])[i] != ([list] + s[..n])[j]
    {
      assert ([list] + s[..n])[j] == c[j] && (i > 0 ==> ([list] + s[..n])[i] == c[i]);
    }
    forall i, j | 0 <= i < j < |[head] + s[n..]|
      ensures ([head] + s[n..])[i] != ([head] + s[n..])[j]
    {
      assert ([head] + s[n..])[j] == c[j + n] && ([head] + s[n..])[i] == c[if i == 0 then 0 else i + n];
    }
  }

  /** `list_cut_position`. An empty list leaves the other one untouched; so does a list of one entry
      if the position is neither it nor the head. */
  method ListCutPosition(list: Node, head: Node, entry: Node, ghost s: seq<Node>, ghost k: nat)
    requires Ring(head, s) && list !in [head] + s && k <= |s| && entry == ([head] + s)[k]
    modifies list, head, s
    ensures s != [] ==> Ring(list, s[..k]) && Ring(head, s[k..])
    ensures s == [] ==> Ring(head, []) && list.next == old(list.next) && list.prev == old(list.prev)
  {
    var empty := ListEmpty(head, s);
    if empty {
      return;
    }
    assert Edge(Around(head, s)[0], Around(head, s)[1]);
    var singular := ListIsSingular(head, s);
    if singular && head.next != entry && head != entry {
      return;
    }
    if entry == head {
      assert k == 0;
      InitListHead(list);
    } else {
      CutAfter(list, head, entry, s, k - 1);
    }
  }

  /** `__list_splice` of a list that is not empty, between two neighbours. */
  method SpliceBetween(list: Node, prev: Node, next: Node, ghost l: seq<Node>, ghost head: Node, ghost s: seq<Node>, ghost k: nat)
    requires Ring(list, l) && l != [] && Ring(head, s) && Disjoint(list, l, head, s) && k <= |s|
    requires prev == Around(head, s)[k] && next == Around(head, s)[k + 1]
    modifies l, head, s
    ensures Ring(head, s[..k] + l + s[k..])
  {
    ghost var c := Around(head, s);
    Inside(list, l);
    Inside(head, s);
    assert Edge(Around(list, l)[0], Around(list, l)[1]) && Edge(Around(list, l)[|l|], Around(list, l)[|l| + 1]);
    assert Edge(c[k], c[k + 1]);
    NodesApart(list, l, head, s);
    Join(list.next, list.prev, prev, next, l, c, k);
    Assemble(l, head, s, k);
    DistinctSplice(list, l, head, s, k);
  }

  /** The edges of a list, by position. */
  lemma Inside(head: Node, s: seq<Node>)
    requires Ring(head, s)
    ensures forall i :: 0 <= i <= |s| ==> Edge(Around(head, s)[i], Around(head, s)[i + 1])
    ensures forall i :: 0 <= i < |s| - 1 ==> Edge(s[i], s[i + 1])
    ensures forall i, j :: 0 <= i < j <= |s| ==> Around(head, s)[i] != Around(head, s)[j]
    ensures forall i, j :: 0 <= i < j < |s| ==> s[i] != s[j]
    ensures s != [] ==> head.next == s[0] && head.prev == s[|s| - 1]
  {
    var c := Around(head, s);
    assert forall i :: 0 <= i <= |s| ==> c[i] == ([head] + s)[i];
    assert forall i :: 0 <= i < |s| ==> s[i] == c[i + 1];
    assert Edge(c[0], c[1]) && Edge(c[|s|], c[|s| + 1]);
    forall i | 0 <= i < |s| - 1
      ensures Edge(s[i], s[i + 1])
    {
      assert Edge(c[i + 1], c[i + 2]);
    }
  }

  lemma NodesApart(list: Node, l: seq<Node>, head: Node, s: seq<Node>)
    requires Disjoint(list, l, head, s)
    ensures forall i, j :: 0 <= i < |l| && 0 <= j < |s| + 2 ==> l[i] != Around(head, s)[j]
  {
    forall i, j | 0 <= i < |l| && 0 <= j < |s| + 2
      ensures l[i] != Around(head, s)[j]
    {
      assert l[i] in l;
      assert 0 < j <= |s| ==> Around(head, s)[j] == s[j - 1] && s[j - 1] in s;
    }
  }

  /** The four links of `__list_splice`. */
  method Join(first: Node, last: Node, prev: Node, next: Node, ghost l: seq<Node>, ghost c: seq<Node>, ghost k: nat)
    requires l != [] && first == l[0] && last == l[|l| - 1] && k < |c| - 1 && prev == c[k] && next == c[k + 1]
    requires c[|c| - 1] == c[0]
    requires forall i, j :: 0 <= i < |l| && 0 <= j < |c| ==> l[i] != c[j]
    requires forall i, j :: 0 <= i < j < |l| ==> l[i] != l[j]
    requires forall i, j :: 0 <= i < j < |c| - 1 ==> c[i] != c[j]
    requires Linked(l) && Linked(c)
    modifies first, last, prev, next
    ensures Linked(l) && Edge(prev, first) && Edge(last, next)
    ensures forall i :: 0 <= i < |c| - 1 && i != k ==> Edge(c[i], c[i + 1])
  {
    assert forall i :: 0 <= i < |c| - 1 ==> Edge(c[i], c[i + 1]);
    assert forall i :: 0 <= i < |l| - 1 ==> Edge(l[i], l[i + 1]);
    first.prev := prev;
    prev.next := first;
    last.next := next;
    next.prev := last;
  }

  lemma Assemble(l: seq<Node>, head: Node, s: seq<Node>, k: nat)
    requires l != [] && k <= |s| && Linked(l)
    requires Edge(Around(head, s)[k], l[0]) && Edge(l[|l| - 1], Around(head, s)[k + 1])
    requires forall i :: 0 <= i <= |s| && i != k ==> Edge(Around(head, s)[i], Around(head, s)[i + 1])
    ensures Linked(Around(head, s[..k] + l + s[k..]))
  {
    var c, d := Around(head, s), Around(head, s[..k] + l + s[k..]);
    forall i | 0 <= i < |d| - 1
      ensures Edge(d[i], d[i + 1])
    {
      assert d[i] == if i <= k then c[i] else if i <= k + |l| then l[i - k - 1] else c[i - |l|];
      assert d[i + 1] == if i + 1 <= k then c[i + 1] else if i + 1 <= k + |l| then l[i - k] else c[i + 1 - |l|];
      assert k < i < k + |l| ==> Edge(l[i - k - 1], l[i - k]);
    }
  }

  lemma DistinctSplice(list: Node, l: seq<Node>, head: Node, s: seq<Node>, k: nat)
    requires Distinct([list] + l) && Distinct([head] + s) && Disjoint(list, l, head, s) && k <= |s|
    ensures Distinct([head] + (s[..k] + l + s[k..]))
  {
    var t, c := [head] + (s[..k] + l + s[k..]), [head] + s;
    forall i, j | 0 <= i < j < |t|
      ensures t[i] != t[j]
    {
      assert t[i] == if i <= k then c[i] else if i <= k + |l| then l[i - k - 1] else c[i - |l|];
      assert t[j] == if j <= k then c[j] else if j <= k + |l| then l[j - k - 1] else c[j - |l|];
      NotShared(list, l, head, s, i, j, k);
    }
  }

  lemma NotShared(list: Node, l: seq<Node>, head: Node, s: seq<Node>, i: nat, j: nat, k: nat)
    requires Distinct([list] + l) && Disjoint(list, l, head, s) && k <= |s| && i < j < 1 + |s| + |l|
    ensures forall x, y :: 0 <= x < |l| && 0 <= y < |[head] + s| ==> l[x] != ([head] + s)[y]
    ensures forall x, y :: 0 <= x < y < |l| ==> l[x] != l[y]
  {
    forall x, y | 0 <= x < |l| && 0 <= y < |[head] + s|
      ensures l[x] != ([head] + s)[y]
    {
      assert l[x] in l;
      assert y > 0 ==> ([head] + s)[y] in s;
    }
    assert forall x :: 0 <= x < |l| ==> l[x] == ([list] + l)[x + 1];
  }

  /** `list_splice` and `list_splice_tail`; the head of the spliced list keeps dangling links. */
  method ListSplice(list: Node, head: Node, ghost l: seq<Node>, ghost s: seq<Node>)
    requires Ring(list, l) && Ring(head, s) && Disjoint(list, l, head, s)
    modifies l, head, s
    ensures Ring(head, l + s)
  {
    var empty := ListEmpty(list, l);
    if !empty {
      assert Edge(Around(head, s)[0], Around(head, s)[1]);
      SpliceBetween(list, head, head.next, l, head, s, 0);
      assert s[..0] + l + s[0..] == l + s;
    } else {
      assert l + s == s;
    }
  }

  method ListSpliceTail(list: Node, head: Node, ghost l: seq<Node>, ghost s: seq<Node>)
    requires Ring(list, l) && Ring(head, s) && Disjoint(list, l, head, s)
    modifies l, head, s
    ensures Ring(head, s + l)
  {
    var empty := ListEmpty(list, l);
    if !empty {
      assert Edge(Around(head, s)[|s|], Around(head, s)[|s| + 1]);
      SpliceBetween(list, head.prev, head, l, head, s, |s|);
      assert s[..|s|] + l + s[|s|..] == s + l;
    } else {
      assert s + l == s;
    }
  }

  method InitBeside(list: Node, ghost head: Node, ghost s: seq<Node>)
    requires Ring(head, s) && list !in [head] + s
    modifies list
    ensures Ring(head, s) && Ring(list, [])
  {
    ghost var c := Around(head, s);
    assert forall i :: 0 <= i < |c| - 1 ==> Edge(c[i], c[i + 1]);
    assert forall i :: 0 <= i < |s| ==> s[i] in [head] + s;
    InitListHead(list);
    forall i | 0 <= i < |c| - 1
      ensures Edge(c[i], c[i + 1])
    {
      assert 0 < i ==> c[i] == s[i - 1];
      assert i < |s| ==> c[i + 1] == s[i];
    }
  }

  /** `list_splice_init` and `list_splice_tail_init` leave an empty list behind. */
  method ListSpliceInit(list: Node, head: Node, ghost l: seq<Node>, ghost s: seq<Node>)
    requires Ring(list, l) && Ring(head, s) && Disjoint(list, l, head, s)
    modifies list, l, head, s
    ensures Ring(head, l + s) && Ring(list, [])
  {
    var empty := ListEmpty(list, l);
    if !empty {
      HeadNotIn(list, l);
      ListSplice(list, head, l, s);
      InitBeside(list, head, l + s);
    } else {
      assert l + s == s;
    }
  }

  method ListSpliceTailInit(list: Node, head: Node, ghost l: seq<Node>, ghost s: seq<Node>)
    requires Ring(list, l) && Ring(head, s) && Disjoint(list, l, head, s)
    modifies list, l, head, s
    ensures Ring(head, s + l) && Ring(list, [])
  {
    var empty := ListEmpty(list, l);
    if !empty {
      HeadNotIn(list, l);
      ListSpliceTail(list, head, l, s);
      InitBeside(list, head, s + l);
    } else {
      assert s + l == s;
    }
  }

  /** Cutting a list at any entry and splicing the part back restores it. */
  method CutAndSplice(list: Node, head: Node, entry: Node, ghost s: seq<Node>, ghost k: nat)
    requires Ring(head, s) && s != [] && list !in [head] + s && k <= |s| && entry == ([head] + s)[k]
    modifies list, head, s
    ensures Ring(head, s)
  {
    ListCutPosition(list, head, entry, s, k);
    assert s[..k] + s[k..] == s;
    assert Distinct([head] + (s[..k] + s[k..]));
    PartsDisjoint(head, s, list, k);
    ListSplice(list, head, s[..k], s[k..]);
  }

  lemma PartsDisjoint(head: Node, s: seq<Node>, list: Node, k: nat)
    requires Distinct([head] + s) && list !in [head] + s && k <= |s|
    ensures Disjoint(list, s[..k], head, s[k..])
  {
    var c := [head] + s;
    forall x | x in s[..k]
      ensures x !in s[k..]
    {
      var i :| 0 <= i < k && s[..k][i] == x;
      assert c[i + 1] == x;
      assert forall j :: 0 <= j < |s| - k ==> s[k..][j] == c[k + 1 + j];
    }
    HeadNotIn(head, s);
  }
}
