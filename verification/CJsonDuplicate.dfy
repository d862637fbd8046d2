/**
 `cJSON_Duplicate` of net4g/src/cjson.c: the copy of a tree of items, made of new items only.
 */
module CJsonDuplicate {
  import opened CJsonTree

  /** Which items a tree consists of. */
  datatype Shape = Shape(node: Item, kids: seq<Shape>)

  function Roots(kids: seq<Shape>): seq<Item> {
    seq(|kids|, k requires 0 <= k < |kids| => kids[k].node)
  }

  /** The items of a tree, each in front of those below it, and of several trees. */
  function Nodes(t: Shape): seq<Item>
    decreases t, 1
  {
    [t.node] + NodesOf(t.kids)
  }

  function NodesOf(kids: seq<Shape>): seq<Item>
    decreases kids, 0
  {
    if kids == [] then [] else NodesOf(kids[..|kids| - 1]) + Nodes(kids[|kids| - 1])
  }

  /** Pairwise different items of a set. */
  predicate Different(nodes: seq<Item>, items: set<Item>) {
    && (forall i, j :: 0 <= i < j < |nodes| ==> nodes[i] != nodes[j])
    && forall i :: 0 <= i < |nodes| ==> nodes[i] in items
  }

  lemma DifferentAppend(a: seq<Item>, b: seq<Item>, items: set<Item>, more: set<Item>)
    requires Different(a, items) && Different(b, more) && items !! more
    ensures Different(a + b, items + more)
  {
  }

  /** One more copy: no item is at two places. */
  lemma DifferentMore(kids: seq<Shape>, child: Shape, tops: set<Item>, under: set<Item>, more: set<Item>)
    requires Different(NodesOf(kids), tops + under) && Different(Nodes(child), {child.node} + more)
    requires child.node !in tops && child.node !in under && tops !! more && under !! more
    ensures Different(NodesOf(kids + [child]), (tops + {child.node}) + (under + more))
  {
    assert (kids + [child])[..|kids|] == kids;
    DifferentAppend(NodesOf(kids), Nodes(child), tops + under, {child.node} + more);
    assert tops + under + ({child.node} + more) == (tops + {child.node}) + (under + more);
  }

  lemma DifferentWhole(newitem: Item, kids: seq<Shape>, items: set<Item>)
    requires Different(NodesOf(kids), items) && newitem !in items
    ensures Different(Nodes(Shape(newitem, kids)), {newitem} + items)
  {
    DifferentAppend([newitem], NodesOf(kids), {newitem}, items);
  }

  /** Every item's children are the roots of the subtrees, in order, as a chain of siblings; all
      items under the root are in the set. */
  ghost predicate Tree(t: Shape, deep: set<Item>)
    reads t.node`child, deep`next, deep`prev, deep`child
  {
    && (forall k :: 0 <= k < |t.kids| ==> t.kids[k].node in deep)
    && Chain(t.node.child, Roots(t.kids))
    && forall k :: 0 <= k < |t.kids| ==> Tree(t.kids[k], deep)
  }

  /** The second item is a copy of the first, without the mark of a reference. */
  ghost predicate SameItem(a: Item, b: Item)
    reads a`payload, a`name, b`payload, b`name, b`isReference
  {
    a.payload == b.payload && a.name == b.name && !b.isReference
  }

  /** The same at every place of two trees of the same shape. */
  ghost predicate SameTree(a: Shape, b: Shape, all: set<Item>)
    reads all`payload, all`name, all`isReference
  {
    && a.node in all && b.node in all && SameItem(a.node, b.node) && |a.kids| == |b.kids|
    && forall k :: 0 <= k < |a.kids| ==> SameTree(a.kids[k], b.kids[k], all)
  }

  lemma {:induction false} TreeGrows(t: Shape, deep: set<Item>, more: set<Item>)
    requires Tree(t, deep) && deep <= more
    ensures Tree(t, more)
  {
    forall k | 0 <= k < |t.kids|
      ensures Tree(t.kids[k], more)
    {
      TreeGrows(t.kids[k], deep, more);
    }
  }

  lemma {:induction false} SameTreeGrows(a: Shape, b: Shape, all: set<Item>, more: set<Item>)
    requires SameTree(a, b, all) && all <= more
    ensures SameTree(a, b, more)
  {
    forall k | 0 <= k < |a.kids|
      ensures SameTree(a.kids[k], b.kids[k], more)
    {
      SameTreeGrows(a.kids[k], b.kids[k], all, more);
    }
  }

  /** A child is linked behind the last one. */
  method LinkChild(parent: Item, last: Item?, newchild: Item, ghost roots: seq<Item>)
    requires Chain(parent.child, roots) && last == Nth(roots, |roots| - 1) && newchild !in roots
    requires newchild.next == null && newchild.prev == null && parent !in roots && parent != newchild
    modifies parent`child, roots`next, newchild`prev
    ensures Chain(parent.child, roots + [newchild])
  {
    if last != null {
      last.next := newchild;
      newchild.prev := last;
    } else {
      parent.child := newchild;
      assert roots == [];
    }
  }

  /** `cJSON_Duplicate`: an equal tree of new items; the source is not touched. */
  method Duplicate(item: Item?, recurse: bool, ghost t: Shape, ghost deep: set<Item>)
    returns (r: Item?, ghost copy: Shape, ghost news: set<Item>)
    requires item != null ==> item == t.node && Tree(t, deep)
    ensures item == null ==> r == null
    ensures item != null ==> r == copy.node && fresh(r) && fresh(news) && r !in news && r.next == null && r.prev == null
    ensures item != null ==> Tree(copy, news) && SameItem(item, r)
    ensures item != null ==> Different(Nodes(copy), {r} + news)
    ensures item != null && recurse ==> SameTree(t, copy, {item, r} + deep + news)
    ensures item != null && !recurse ==> copy.kids == [] && r.child == null
    decreases t, 2
  {
    if item == null {
      r, copy, news := null, t, {};
      return;
    }
    var newitem := new Item();
    newitem.payload, newitem.name, newitem.isReference := item.payload, item.name, false;
    r, copy, news := newitem, Shape(newitem, []), {};
    DifferentWhole(newitem, [], {});
    if recurse {
      copy, news := DuplicateChildren(item, newitem, t, deep);
    }
  }

  /** The copies made so far are trees over a set of items. */
  ghost predicate Trees(kids: seq<Shape>, tops: set<Item>, under: set<Item>)
    requires forall j :: 0 <= j < |kids| ==> kids[j].node in tops
    reads tops`child, under`next, under`prev, under`child
  {
    forall j {:trigger Tree(kids[j], under)} :: 0 <= j < |kids| ==> Tree(kids[j], under)
  }

  /** And each equals its original. */
  ghost predicate Equal(originals: seq<Shape>, kids: seq<Shape>, all: set<Item>)
    reads all`payload, all`name, all`isReference
  {
    |kids| <= |originals| &&
    forall j {:trigger SameTree(originals[j], kids[j], all)} :: 0 <= j < |kids| ==> SameTree(originals[j], kids[j], all)
  }

  /** The roots of the copies, what is below them, and the new item are different. */
  ghost predicate Apart(newitem: Item, kids: seq<Shape>, tops: set<Item>, under: set<Item>) {
    (forall j :: 0 <= j < |kids| ==> kids[j].node in tops) && tops !! under && newitem !in tops && newitem !in under
  }

  ghost predicate Copied(newitem: Item, kids: seq<Shape>, tops: set<Item>, under: set<Item>, t: Shape, deep: set<Item>)
    reads newitem`child, tops, under, deep
  {
    Apart(newitem, kids, tops, under) && Chain(newitem.child, Roots(kids)) && Trees(kids, tops, under) &&
    Equal(t.kids, kids, deep + tops + under)
  }

  lemma TreesGrow(kids: seq<Shape>, tops: set<Item>, under: set<Item>, tops': set<Item>, under': set<Item>)
    requires (forall j :: 0 <= j < |kids| ==> kids[j].node in tops) && Trees(kids, tops, under) && tops <= tops' && under <= under'
    ensures Trees(kids, tops', under')
  {
    forall j | 0 <= j < |kids|
      ensures Tree(kids[j], under')
    {
      assert Tree(kids[j], under);
      TreeGrows(kids[j], under, under');
    }
  }

  lemma EqualGrows(originals: seq<Shape>, kids: seq<Shape>, all: set<Item>, more: set<Item>)
    requires Equal(originals, kids, all) && all <= more
    ensures Equal(originals, kids, more)
  {
    forall j | 0 <= j < |kids|
      ensures SameTree(originals[j], kids[j], more)
    {
      assert SameTree(originals[j], kids[j], all);
      SameTreeGrows(originals[j], kids[j], all, more);
    }
  }

  /** One more copy at the end. */
  lemma OneMore(originals: seq<Shape>, kids: seq<Shape>, child: Shape, tops: set<Item>, under: set<Item>, all: set<Item>)
    requires (forall j :: 0 <= j < |kids| ==> kids[j].node in tops) && child.node in tops
    requires Trees(kids, tops, under) && Tree(child, under)
    requires Equal(originals, kids, all) && |kids| < |originals| && SameTree(originals[|kids|], child, all)
    ensures forall j :: 0 <= j < |kids + [child]| ==> (kids + [child])[j].node in tops
    ensures Trees(kids + [child], tops, under) && Equal(originals, kids + [child], all)
    ensures Roots(kids + [child]) == Roots(kids) + [child.node]
  {
  }

  /** Linking the new child touches none of the trees. */
  method Attach(newitem: Item, nptr: Item?, newchild: Item, ghost kids: seq<Shape>, ghost tops: set<Item>, ghost under: set<Item>,
                ghost child: Shape, ghost originals: seq<Shape>, ghost all: set<Item>)
    requires Apart(newitem, kids, tops, under) && Chain(newitem.child, Roots(kids)) && Trees(kids, tops, under)
    requires Equal(originals, kids, all) && |kids| < |originals| && SameTree(originals[|kids|], child, all)
    requires nptr == Nth(Roots(kids), |kids| - 1) && newchild == child.node && newchild.next == null && newchild.prev == null
    requires newchild in tops && newchild !in Roots(kids) && Tree(child, under)
    modifies newitem`child, Roots(kids)`next, newchild`prev
    ensures Apart(newitem, kids + [child], tops, under) && Chain(newitem.child, Roots(kids + [child]))
    ensures Trees(kids + [child], tops, under) && Equal(originals, kids + [child], all)
  {
    assert forall j :: 0 <= j < |kids| ==> Roots(kids)[j] == kids[j].node;
    LinkChild(newitem, nptr, newchild, Roots(kids));
    OneMore(originals, kids, child, tops, under, all);
  }

  /** What is known of the trees so far, and of the new one, over all their items. */
  lemma AllGrow(cptr: Item, kids: seq<Shape>, child: Shape, tops: set<Item>, under: set<Item>, more: set<Item>, t: Shape, deep: set<Item>)
    requires |kids| < |t.kids| && cptr in deep && (forall j :: 0 <= j < |kids| ==> kids[j].node in tops)
    requires Trees(kids, tops, under) && Tree(child, more) && Equal(t.kids, kids, deep + tops + under)
    requires SameTree(t.kids[|kids|], child, {cptr, child.node} + deep + more)
    ensures var tops', under' := tops + {child.node}, under + more;
      && (forall j :: 0 <= j < |kids| ==> kids[j].node in tops')
      && Trees(kids, tops', under') && Tree(child, under') && Equal(t.kids, kids, deep + tops' + under')
      && SameTree(t.kids[|kids|], child, deep + tops' + under')
  {
    var tops', under' := tops + {child.node}, under + more;
    TreesGrow(kids, tops, under, tops', under');
    TreeGrows(child, more, under');
    EqualGrows(t.kids, kids, deep + tops + under, deep + tops' + under');
    SameTreeGrows(t.kids[|kids|], child, {cptr, child.node} + deep + more, deep + tops' + under');
  }

  /** One more child is copied and linked. */
  method NextChild(cptr: Item, newitem: Item, nptr: Item?, ghost kids: seq<Shape>, ghost tops: set<Item>, ghost under: set<Item>,
                   ghost t: Shape, ghost deep: set<Item>)
    returns (newchild: Item, ghost child: Shape, ghost more: set<Item>)
    requires |kids| < |t.kids| && cptr == t.kids[|kids|].node && cptr in deep && Tree(t.kids[|kids|], deep)
    requires Copied(newitem, kids, tops, under, t, deep) && nptr == Nth(Roots(kids), |kids| - 1)
    modifies newitem`child, Roots(kids)`next
    ensures newchild == child.node && fresh(newchild) && fresh(more) && Different(Nodes(child), {newchild} + more)
    ensures Copied(newitem, kids + [child], tops + {newchild}, under + more, t, deep)
    decreases t, 0
  {
    newchild, child, more := Duplicate(cptr, true, t.kids[|kids|], deep);
    ghost var tops', under' := tops + {newchild}, under + more;
    AllGrow(cptr, kids, child, tops, under, more, t, deep);
    assert forall j :: 0 <= j < |kids| ==> Roots(kids)[j] in tops;
    Attach(newitem, nptr, newchild, kids, tops', under', child, t.kids, deep + tops' + under');
  }

  /** The walk over the children. */
  method DuplicateChildren(item: Item, newitem: Item, ghost t: Shape, ghost deep: set<Item>)
    returns (ghost copy: Shape, ghost news: set<Item>)
    requires item == t.node && Tree(t, deep) && item != newitem && newitem !in deep
    requires newitem.child == null && SameItem(item, newitem)
    modifies newitem`child
    ensures copy.node == newitem && fresh(news) && newitem !in news
    ensures Tree(copy, news) && SameTree(t, copy, {item, newitem} + deep + news)
    ensures Different(Nodes(copy), {newitem} + news)
    decreases t, 1
  {
    var cptr, nptr: Item? := item.child, null;
    ghost var kids, tops, under := [], {}, {};
    assert Roots([]) == [];
    while cptr != null
      invariant |kids| <= |t.kids| && cptr == Nth(Roots(t.kids), |kids|) && nptr == Nth(Roots(kids), |kids| - 1)
      invariant Copied(newitem, kids, tops, under, t, deep) && fresh(tops) && fresh(under) && Different(NodesOf(kids), tops + under)
      decreases |t.kids| - |kids|
    {
      assert Roots(t.kids)[|kids|].next == Nth(Roots(t.kids), |kids| + 1);
      ghost var child, more;
      nptr, child, more := NextChild(cptr, newitem, nptr, kids, tops, under, t, deep);
      DifferentMore(kids, child, tops, under, more);
      kids, tops, under := kids + [child], tops + {child.node}, under + more;
      cptr := cptr.next;
    }
    copy, news := Shape(newitem, kids), tops + under;
    DifferentWhole(newitem, kids, tops + under);
    Finished(item, newitem, kids, tops, under, t, deep);
  }

  /** All children copied: the whole tree is. */
  lemma Finished(item: Item, newitem: Item, kids: seq<Shape>, tops: set<Item>, under: set<Item>, t: Shape, deep: set<Item>)
    requires Copied(newitem, kids, tops, under, t, deep) && |kids| == |t.kids| && item == t.node && SameItem(item, newitem)
    ensures Tree(Shape(newitem, kids), tops + under)
    ensures SameTree(t, Shape(newitem, kids), {item, newitem} + deep + (tops + under))
  {
    TreesGrow(kids, tops, under, tops, tops + under);
    EqualGrows(t.kids, kids, deep + tops + under, {item, newitem} + deep + (tops + under));
    forall j | 0 <= j < |kids|
      ensures Tree(kids[j], tops + under) && SameTree(t.kids[j], kids[j], {item, newitem} + deep + (tops + under))
    {
    }
  }
}
