/**
 The table of names and values of net4g/src/hash_nvram.c: 65 buckets of linked tuples, and a list of
 tuples that were taken out. It behaves as a finite map.
 */
module HashNvram {
  import opened Bytes
  import opened Wrappers

  const BUCKETS: nat := 65

  const NVRAM_SPACE: nat := 0x8000

  const ENOMEM: int := 12

  /** A byte as a signed `char`. */
  function Signed(c: byte): int {
    if c >= 128 then c - 256 else c
  }

  function Step(h: int, c: byte): int {
    (31 * h + Signed(c)) % 0x1_0000_0000
  }

  function Hash(s: str): int {
    if s == [] then 0 else Step(Hash(s[..|s| - 1]), s[|s| - 1])
  }

  function Index(s: str): (i: nat)
    ensures i < BUCKETS
  {
    Hash(s) % BUCKETS
  }

  /** `hash`, and the reduction to a bucket. */
  method IndexOf(s: str) returns (i: nat)
    ensures i == Index(s)
  {
    var h, k := 0, 0;
    while k < |s|
      invariant 0 <= k <= |s| && h == Hash(s[..k])
    {
      assert s[..k + 1][..k] == s[..k];
      h := Step(h, s[k]);
      k := k + 1;
    }
    assert s[..k] == s;
    return h % BUCKETS;
  }

  predicate IsIndex(at: str -> nat, s: str) {
    at(s) == Index(s)
  }

  class Tuple {
    const name: str
    var value: str
    var next: Tuple?

    constructor (name: str, value: str, next: Tuple?)
      ensures this.name == name && this.value == value && this.next == next
    {
      this.name, this.value, this.next := name, value, next;
    }
  }

  /** A list linked from `head` to the end. */
  ghost predicate Chain(head: Tuple?, s: seq<Tuple>)
    reads s`next
  {
    head == Nth(s, 0) && forall k {:trigger s[k].next} :: 0 <= k < |s| ==> s[k].next == Nth(s, k + 1)
  }

  function Nth(s: seq<Tuple>, k: nat): Tuple? {
    if k < |s| then s[k] else null
  }

  predicate Apart(s: seq<Tuple>) {
    forall j, k :: 0 <= j < k < |s| ==> s[j].name != s[k].name
  }

  predicate Has(s: seq<Tuple>, name: str) {
    exists k :: 0 <= k < |s| && s[k].name == name
  }

  lemma ChainCons(u: Tuple, s: seq<Tuple>)
    requires Chain(u.next, s)
    ensures Chain(u, [u] + s)
  {
  }

  /** What unlinking an entry leaves is a chain, if the entry before it skips it. */
  lemma ChainWithout(s: seq<Tuple>, k: nat)
    requires k < |s| && Apart(s)
    requires forall j {:trigger s[j].next} :: 0 <= j < |s| && j != k ==>
      s[j].next == if j + 1 == k then Nth(s, k + 1) else Nth(s, j + 1)
    ensures Chain(Nth(s[..k] + s[k + 1..], 0), s[..k] + s[k + 1..])
  {
  }

  lemma NamesWithout(s: seq<Tuple>, k: nat)
    requires k < |s| && Apart(s)
    ensures var t := s[..k] + s[k + 1..];
      Apart(t) && s[k] !in t && !Has(t, s[k].name) && forall n :: Has(s, n) && n != s[k].name ==> Has(t, n)
  {
    var t := s[..k] + s[k + 1..];
    assert forall j :: 0 <= j < |t| ==> t[j] == s[if j < k then j else j + 1];
    forall n | Has(s, n) && n != s[k].name
      ensures Has(t, n)
    {
      var j :| 0 <= j < |s| && s[j].name == n;
      assert t[if j < k then j else j - 1].name == n;
    }
  }

  /** One cell of `nvram_hash` with the chain it leads to. */
  class Bucket {
    var head: Tuple?
    ghost var s: seq<Tuple>
    ghost var contents: map<str, str>

    ghost predicate Valid()
      reads this, s
    {
      && Chain(head, s) && Apart(s)
      && (forall k :: 0 <= k < |s| ==> s[k].name in contents && contents[s[k].name] == s[k].value)
      && (forall n :: n in contents ==> Has(s, n))
    }

    constructor ()
      ensures Valid() && contents == map[] && s == []
    {
      head, s, contents := null, [], map[];
    }

    /** The search loop: the tuple with a name, and the one before it. */
    method Find(name: str) returns (t: Tuple?, prev: Tuple?, ghost k: nat)
      requires Valid()
      ensures t == null <==> name !in contents
      ensures t != null ==> k < |s| && t == s[k] && t.name == name && prev == if k == 0 then null else s[k - 1]
    {
      prev, t, k := null, head, 0;
      while t != null && t.name != name
        invariant 0 <= k <= |s| && t == Nth(s, k) && (forall j :: 0 <= j < k ==> s[j].name != name)
        invariant prev == if k == 0 then null else s[k - 1]
        decreases |s| - k
      {
        prev := t;
        t := t.next;
        k := k + 1;
      }
    }

    /** `hash_nvram_get` in its bucket. */
    method Get(name: str) returns (value: Option<str>)
      requires Valid()
      ensures value == if name in contents then Some(contents[name]) else None
    {
      var t, prev, k := Find(name);
      if t == null {
        return None;
      }
      return Some(t.value);
    }

    /** `hash_nvram_set` in its bucket: a tuple that is there gets its new value in place, a new one
        goes to the front. A value that does not fit changes nothing. */
    method Set(name: str, value: str) returns (status: int)
      requires Valid()
      modifies this, s
      ensures Valid() && forall k :: 0 <= k < |s| ==> s[k] in old(s) || (fresh(s[k]) && s[k].name == name)
      ensures |value| + 1 > NVRAM_SPACE ==> status == -ENOMEM && contents == old(contents) && head == old(head) && s == old(s)
      ensures |value| + 1 <= NVRAM_SPACE ==> status == 0 && contents == old(contents)[name := value]
    {
      var t, prev, k := Find(name);
      if |value| + 1 > NVRAM_SPACE {
        return -ENOMEM;
      }
      if t != null {
        Change(t, value, k);
      } else {
        Add(name, value);
      }
      return 0;
    }

    method Change(t: Tuple, value: str, ghost k: nat)
      requires Valid() && k < |s| && t == s[k]
      modifies this`contents, t`value
      ensures Valid() && contents == old(contents)[t.name := value]
    {
      if t.value != value {
        t.value := value;
      }
      contents := contents[t.name := value];
    }

    method Add(name: str, value: str)
      requires Valid() && name !in contents
      modifies this
      ensures Valid() && contents == old(contents)[name := value]
      ensures |s| == |old(s)| + 1 && s[1..] == old(s) && fresh(s[0]) && s[0].name == name
    {
      var u := new Tuple(name, value, head);
      ChainCons(u, s);
      HasCons(u, s);
      head := u;
      s := [u] + s;
      contents := contents[name := value];
    }

    lemma HasCons(u: Tuple, t: seq<Tuple>)
      ensures Has([u] + t, u.name) && forall n :: Has(t, n) ==> Has([u] + t, n)
    {
      assert ([u] + t)[0].name == u.name;
      forall n | Has(t, n)
        ensures Has([u] + t, n)
      {
        var k :| 0 <= k < |t| && t[k].name == n;
        assert ([u] + t)[k + 1].name == n;
      }
    }

    /** The first half of `hash_nvram_unset`: the tuple with a name is taken out of its chain. */
    method Remove(name: str) returns (t: Tuple?)
      requires Valid()
      modifies this, s`next
      ensures Valid() && contents == old(contents) - {name}
      ensures t == null ==> name !in old(contents) && s == old(s)
      ensures t != null ==> t in old(s) && t !in s && t.name == name
      ensures forall k :: 0 <= k < |s| ==> s[k] in old(s)
    {
      var prev;
      ghost var k;
      t, prev, k := Find(name);
      if t != null {
        Unlink(t, prev, k);
      } else {
        assert contents - {name} == contents;
      }
    }

    method Unlink(t: Tuple, prev: Tuple?, ghost k: nat)
      requires Valid() && k < |s| && t == s[k] && prev == if k == 0 then null else s[k - 1]
      modifies this, s`next
      ensures Valid() && contents == old(contents) - {t.name} && s == old(s)[..k] + old(s)[k + 1..] && t !in s
    {
      Skip(t, prev, k);
      Forget(t, k);
    }

    /** `*prev = t->next` */
    method Skip(t: Tuple, prev: Tuple?, ghost k: nat)
      requires Chain(head, s) && Apart(s) && k < |s| && t == s[k] && prev == if k == 0 then null else s[k - 1]
      modifies this`head, s`next
      ensures Chain(head, s[..k] + s[k + 1..])
    {
      assert t.next == Nth(s, k + 1);
      if prev == null {
        head := t.next;
      } else {
        prev.next := t.next;
      }
      ChainWithout(s, k);
    }

    ghost method Forget(t: Tuple, k: nat)
      requires k < |s| && t == s[k] && Chain(head, s[..k] + s[k + 1..]) && Apart(s)
      requires (forall k :: 0 <= k < |s| ==> s[k].name in contents && contents[s[k].name] == s[k].value)
      requires (forall n :: n in contents ==> Has(s, n))
      modifies this`s, this`contents
      ensures Valid() && contents == old(contents) - {t.name} && s == old(s)[..k] + old(s)[k + 1..] && t !in s
    {
      NamesWithout(s, k);
      ghost var was := s;
      s := s[..k] + s[k + 1..];
      contents := contents - {t.name};
      assert forall j :: 0 <= j < |s| ==> s[j] == was[if j < k then j else j + 1];
    }
  }

  class Nvram {
    const buckets: seq<Bucket>
    var dead: Tuple?
    ghost const at: str -> nat
    ghost var corpses: seq<Tuple>
    ghost var nodes: set<Tuple>

    constructor ()
      ensures Valid() && (forall n :: Lookup(n) == None) && nodes == {} && forall i :: 0 <= i < |buckets| ==> fresh(buckets[i])
    {
      var cells: seq<Bucket> := [];
      while |cells| < BUCKETS
        invariant |cells| <= BUCKETS
        invariant forall j :: 0 <= j < |cells| ==> fresh(cells[j]) && cells[j].s == [] && cells[j].contents == map[]
        invariant forall j {:trigger cells[j].Valid()} :: 0 <= j < |cells| ==> cells[j].Valid()
        invariant forall j, k :: 0 <= j < k < |cells| ==> cells[j] != cells[k]
      {
        var cell := new Bucket();
        cells := cells + [cell];
      }
      buckets := cells;
      at := Index;
      dead, corpses, nodes := null, [], {};
    }

    /** The cells are different objects, and a tuple is in the cell of its hash. */
    ghost predicate Shape()
      reads this, buckets
    {
      && |buckets| == BUCKETS && (forall n :: at(n) < BUCKETS) && (forall n :: IsIndex(at, n))
      && (forall i, j :: 0 <= i < j < BUCKETS ==> buckets[i] != buckets[j])
      && (forall i, k :: 0 <= i < BUCKETS && 0 <= k < |buckets[i].s| ==>
            buckets[i].s[k] in nodes && at(buckets[i].s[k].name) == i)
    }

    /** What was taken out hangs on the dead list, and is in no cell. */
    ghost predicate Buried()
      reads this, buckets, nodes
    {
      && (forall k :: 0 <= k < |corpses| ==> corpses[k] in nodes) && Chain(dead, corpses)
      && (forall i, k :: 0 <= i < |buckets| && 0 <= k < |corpses| ==> corpses[k] !in buckets[i].s)
    }

    ghost predicate Cells()
      reads this, buckets, nodes
      requires Shape()
    {
      forall j {:trigger buckets[j].Valid()} :: 0 <= j < BUCKETS ==> buckets[j].Valid()
    }

    ghost predicate Valid()
      reads this, buckets, nodes
    {
      Shape() && Cells() && Buried()
    }

    /** The table as a function of names. */
    ghost function Lookup(name: str): Option<str>
      requires Shape()
      reads this, buckets
    {
      var m := buckets[at(name)].contents;
      if name in m then Some(m[name]) else None
    }

    /** `hash_nvram_get` */
    method Get(name: Option<str>) returns (value: Option<str>)
      requires Valid()
      ensures value == if name.Some? then Lookup(name.value) else None
    {
      if name.None? {
        return None;
      }
      assert IsIndex(at, name.value);
      var i := IndexOf(name.value);
      assert buckets[i].Valid();
      value := buckets[i].Get(name.value);
    }

    /** Cells do not share tuples. */
    lemma CellsApart(i: nat, j: nat)
      requires Shape() && i < BUCKETS && j < BUCKETS && i != j
      ensures buckets[i] != buckets[j] && forall x :: x in buckets[i].s ==> x !in buckets[j].s
    {
    }

    /** What a change in one cell leaves alone: the other cells, and the dead list. */
    method SetIn(i: nat, name: str, value: str) returns (status: int)
      requires Valid() && i == at(name)
      modifies buckets[i], buckets[i].s
      ensures (forall j {:trigger buckets[j].Valid()} :: 0 <= j < BUCKETS ==> buckets[j].Valid()) && Chain(dead, corpses)
      ensures forall j :: 0 <= j < BUCKETS && j != i ==> buckets[j].s == old(buckets[j].s) && buckets[j].contents == old(buckets[j].contents)
      ensures forall k :: 0 <= k < |buckets[i].s| ==>
        buckets[i].s[k] in old(buckets[i].s) || (fresh(buckets[i].s[k]) && buckets[i].s[k].name == name)
      ensures |value| + 1 > NVRAM_SPACE ==> status == -ENOMEM && buckets[i].contents == old(buckets[i].contents)
      ensures |value| + 1 <= NVRAM_SPACE ==> status == 0 && buckets[i].contents == old(buckets[i].contents)[name := value]
    {
      forall j | 0 <= j < BUCKETS && j != i
        ensures buckets[i] != buckets[j] && forall x :: x in buckets[j].s ==> x !in buckets[i].s
      {
        CellsApart(j, i);
      }
      assert forall k :: 0 <= k < |corpses| ==> corpses[k] !in buckets[i].s;
      assert buckets[i].Valid();
      status := buckets[i].Set(name, value);
    }

    /** The whole table after a change in one cell. */
    method SetCell(i: nat, name: str, value: str) returns (status: int)
      requires Valid() && i == at(name)
      modifies this`nodes, buckets[i], buckets[i].s
      ensures Valid() && fresh(nodes - old(nodes))
      ensures forall j :: 0 <= j < BUCKETS && j != i ==> buckets[j].contents == old(buckets[j].contents)
      ensures |value| + 1 > NVRAM_SPACE ==> status == -ENOMEM && buckets[i].contents == old(buckets[i].contents)
      ensures |value| + 1 <= NVRAM_SPACE ==> status == 0 && buckets[i].contents == old(buckets[i].contents)[name := value]
    {
      ghost var was := buckets[i].s;
      assert forall k :: 0 <= k < |was| ==> was[k] in nodes && at(was[k].name) == i;
      status := SetIn(i, name, value);
      Admit(nodes + set x | x in buckets[i].s);
    }

    /** `hash_nvram_set`; a value that does not fit changes nothing. */
    method Set(name: str, value: str) returns (status: int)
      requires Valid()
      modifies this`nodes, buckets, nodes
      ensures Valid() && fresh(nodes - old(nodes))
      ensures |value| + 1 > NVRAM_SPACE ==> status == -ENOMEM && forall n :: Lookup(n) == old(Lookup(n))
      ensures |value| + 1 <= NVRAM_SPACE ==> status == 0 && forall n :: Lookup(n) == if n == name then Some(value) else old(Lookup(n))
    {
      assert IsIndex(at, name);
      var i := IndexOf(name);
      assert forall k :: 0 <= k < |buckets[i].s| ==> buckets[i].s[k] in nodes;
      status := SetCell(i, name, value);
    }

    /** New tuples are taken into account. */
    ghost method Admit(more: set<Tuple>)
      requires nodes <= more && Buried() && |buckets| == BUCKETS && (forall n :: at(n) < BUCKETS) && (forall n :: IsIndex(at, n))
      requires forall i, j :: 0 <= i < j < BUCKETS ==> buckets[i] != buckets[j]
      requires forall i, k :: 0 <= i < BUCKETS && 0 <= k < |buckets[i].s| ==>
        buckets[i].s[k] in more && at(buckets[i].s[k].name) == i
      modifies this`nodes
      ensures nodes == more && Shape() && Buried()
    {
      nodes := more;
    }

    /** Taking a tuple out of its cell leaves the other cells and the dead list alone. */
    method RemoveIn(i: nat, name: str) returns (t: Tuple?)
      requires Valid() && i == at(name)
      modifies buckets[i], buckets[i].s`next
      ensures (forall j {:trigger buckets[j].Valid()} :: 0 <= j < BUCKETS ==> buckets[j].Valid()) && Chain(dead, corpses)
      ensures forall j :: 0 <= j < BUCKETS && j != i ==> buckets[j].s == old(buckets[j].s) && buckets[j].contents == old(buckets[j].contents)
      ensures forall k :: 0 <= k < |buckets[i].s| ==> buckets[i].s[k] in old(buckets[i].s)
      ensures buckets[i].contents == old(buckets[i].contents) - {name}
      ensures t != null ==> t in old(buckets[i].s) && t !in buckets[i].s
    {
      forall j | 0 <= j < BUCKETS && j != i
        ensures buckets[i] != buckets[j] && forall x :: x in buckets[j].s ==> x !in buckets[i].s
      {
        CellsApart(j, i);
      }
      assert forall k :: 0 <= k < |corpses| ==> corpses[k] !in buckets[i].s;
      assert buckets[i].Valid();
      t := buckets[i].Remove(name);
    }

    method Withdraw(i: nat, name: str) returns (t: Tuple?)
      requires Valid() && i == at(name)
      modifies buckets[i], buckets[i].s`next
      ensures Valid()
      ensures forall j :: 0 <= j < BUCKETS && j != i ==> buckets[j].contents == old(buckets[j].contents)
      ensures buckets[i].contents == old(buckets[i].contents) - {name}
      ensures t != null ==> t in nodes && t !in corpses && forall j :: 0 <= j < BUCKETS ==> t !in buckets[j].s
    {
      ghost var was := buckets[i].s;
      assert forall k :: 0 <= k < |was| ==> was[k] in nodes && at(was[k].name) == i;
      t := RemoveIn(i, name);
    }

    /** A tuple goes to the front of the dead list. */
    method Bury(t: Tuple)
      requires Valid() && t in nodes && t !in corpses && forall j :: 0 <= j < BUCKETS ==> t !in buckets[j].s
      modifies this`dead, this`corpses, t`next
      ensures Valid()
    {
      assert forall k :: 0 <= k < |corpses| ==> corpses[k] != t;
      t.next := dead;
      ChainCons(t, corpses);
      dead := t;
      corpses := [t] + corpses;
    }

    /** `hash_nvram_unset` */
    method Unset(name: Option<str>) returns (status: int)
      requires Valid()
      modifies this`dead, this`corpses, buckets, nodes
      ensures Valid() && status == 0
      ensures forall n :: Lookup(n) == if name == Some(n) then None else old(Lookup(n))
    {
      status := 0;
      if name.None? {
        return;
      }
      assert IsIndex(at, name.value);
      var i := IndexOf(name.value);
      assert forall k :: 0 <= k < |buckets[i].s| ==> buckets[i].s[k] in nodes;
      var t := Withdraw(i, name.value);
      if t != null {
        Bury(t);
      }
    }

    /** The inner loop of `hash_nvram_getall`: copies of the tuples of one cell, in front of `l`. */
    method CopyCell(b: Bucket, l: Tuple?, ghost copies: seq<Tuple>) returns (r: Tuple?, ghost more: seq<Tuple>)
      requires b.Valid() && Chain(l, copies)
      ensures Chain(r, more + copies) && Mirrors(more, b.s, |b.s|) && forall k :: 0 <= k < |more| ==> fresh(more[k])
    {
      r, more := l, [];
      var t := b.head;
      ghost var k := 0;
      assert more + copies == copies;
      while t != null
        invariant 0 <= k <= |b.s| && t == Nth(b.s, k) && Chain(r, more + copies)
        invariant Mirrors(more, b.s, k) && forall j :: 0 <= j < |more| ==> fresh(more[j])
        decreases |b.s| - k
      {
        ghost var next := Nth(b.s, k + 1);
        assert t.next == next;
        r, more := CopyTuple(t, r, more, copies, b.s, k);
        t := t.next;
        k := k + 1;
      }
    }

    method CopyTuple(t: Tuple, l: Tuple?, ghost more: seq<Tuple>, ghost copies: seq<Tuple>, ghost s: seq<Tuple>, ghost k: nat)
      returns (x: Tuple, ghost all: seq<Tuple>)
      requires k < |s| && t == s[k] && Chain(l, more + copies) && Mirrors(more, s, k)
      ensures fresh(x) && all == [x] + more && Chain(x, all + copies) && Mirrors(all, s, k + 1)
    {
      x := new Tuple(t.name, t.value, l);
      ChainCons(x, more + copies);
      all := [x] + more;
      assert [x] + (more + copies) == all + copies;
      assert forall j :: 1 <= j < |all| ==> all[j] == more[j - 1];
    }

    /** The first k tuples, in reverse. */
    ghost predicate Mirrors(more: seq<Tuple>, s: seq<Tuple>, k: nat)
      reads more, s
    {
      k <= |s| && |more| == k &&
      forall j :: 0 <= j < k ==> more[j].name == s[k - 1 - j].name && more[j].value == s[k - 1 - j].value
    }

    /** The names and values of a list of copies are those of the table for the first i cells, each
        once. */
    ghost predicate Covers(copies: seq<Tuple>, i: nat)
      requires Shape()
      reads this, buckets, copies
    {
      && Apart(copies)
      && (forall k :: 0 <= k < |copies| ==> at(copies[k].name) < i && Lookup(copies[k].name) == Some(copies[k].value))
      && (forall n :: at(n) < i && Lookup(n).Some? ==> Has(copies, n))
    }

    lemma CoversMore(copies: seq<Tuple>, i: nat, more: seq<Tuple>)
      requires Shape() && i < BUCKETS && buckets[i].Valid() && Covers(copies, i)
      requires Mirrors(more, buckets[i].s, |buckets[i].s|)
      ensures Covers(more + copies, i + 1)
    {
      var s, all := buckets[i].s, more + copies;
      forall k | 0 <= k < |more|
        ensures at(more[k].name) == i && Lookup(more[k].name) == Some(more[k].value)
      {
        assert at(s[|s| - 1 - k].name) == i;
      }
      assert forall k :: 0 <= k < |all| ==> all[k] == if k < |more| then more[k] else copies[k - |more|];
      forall n | at(n) < i + 1 && Lookup(n).Some?
        ensures Has(all, n)
      {
        if at(n) == i {
          var k :| 0 <= k < |s| && s[k].name == n;
          assert more[|s| - 1 - k].name == n;
          assert all[|s| - 1 - k].name == n;
        } else {
          var k :| 0 <= k < |copies| && copies[k].name == n;
          assert all[|more| + k].name == n;
        }
      }
    }

    /** `hash_nvram_getall`: a new list with every name of the table once, and its value. */
    method GetAll() returns (l: Tuple?, ghost copies: seq<Tuple>)
      requires Valid()
      ensures Chain(l, copies) && forall k :: 0 <= k < |copies| ==> fresh(copies[k])
      ensures Covers(copies, BUCKETS)
    {
      l, copies := null, [];
      var i := 0;
      while i < BUCKETS
        invariant 0 <= i <= BUCKETS && Chain(l, copies) && (forall k :: 0 <= k < |copies| ==> fresh(copies[k]))
        invariant Covers(copies, i)
      {
        l, copies := CopyNext(i, l, copies);
        i := i + 1;
      }
    }

    method CopyNext(i: nat, l: Tuple?, ghost copies: seq<Tuple>) returns (r: Tuple?, ghost all: seq<Tuple>)
      requires Valid() && i < BUCKETS && Chain(l, copies) && Covers(copies, i)
      ensures Chain(r, all) && Covers(all, i + 1)
      ensures forall k :: 0 <= k < |all| ==> fresh(all[k]) || all[k] in copies
    {
      assert buckets[i].Valid();
      ghost var more;
      r, more := CopyCell(buckets[i], l, copies);
      CoversMore(copies, i, more);
      all := more + copies;
    }
  }

  // ---- runs ----

  datatype Operation = SetOf(name: str, value: str) | UnsetOf(name: str)

  /** What an operation means for a finite map. */
  function Apply(m: map<str, str>, op: Operation): map<str, str> {
    match op
    case SetOf(n, v) => if |v| + 1 > NVRAM_SPACE then m else m[n := v]
    case UnsetOf(n) => m - {n}
  }

  function ApplyAll(ops: seq<Operation>): map<str, str> {
    if ops == [] then map[] else Apply(ApplyAll(ops[..|ops| - 1]), ops[|ops| - 1])
  }

  function At(m: map<str, str>, n: str): Option<str> {
    if n in m then Some(m[n]) else None
  }

  method Perform(h: Nvram, op: Operation, ghost m: map<str, str>)
    requires h.Valid() && forall n :: h.Lookup(n) == At(m, n)
    modifies h, h.buckets, h.nodes
    ensures h.Valid() && fresh(h.nodes - old(h.nodes)) && forall n :: h.Lookup(n) == At(Apply(m, op), n)
  {
    match op
    case SetOf(name, value) =>
      var status := h.Set(name, value);
    case UnsetOf(name) =>
      var status := h.Unset(Some(name));
  }

  /** After any sequence of operations a look-up finds what the finite map holds. */
  method PerformAll(ops: seq<Operation>) returns (h: Nvram)
    ensures h.Valid() && forall n :: h.Lookup(n) == At(ApplyAll(ops), n)
  {
    h := new Nvram();
    var i := 0;
    while i < |ops|
      invariant 0 <= i <= |ops| && fresh(h) && h.Valid() && fresh(h.nodes)
      invariant (forall j :: 0 <= j < |h.buckets| ==> fresh(h.buckets[j])) && forall n :: h.Lookup(n) == At(ApplyAll(ops[..i]), n)
    {
      assert ops[..i + 1][..i] == ops[..i];
      Perform(h, ops[i], ApplyAll(ops[..i]));
      i := i + 1;
    }
    assert ops[..i] == ops;
  }
}
