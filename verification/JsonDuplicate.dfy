/** cJSON_Duplicate. */
module JsonDuplicate {
  import opened Bytes
  import opened JsonText
  import opened Memory
  import opened JsonTree
  import opened JsonView
  import opened JsonBuild

  /** A node that is on no list and no reference, with a value, a text and a name of its own. */
  ghost predicate IsCopy(copy: Node, kind: Kind, n: int, text: seq<byte>, name: seq<byte>, self: set<object>)
    reads copy`next, copy`prev, copy`isReference, copy`kind, copy`valueint, copy`valuestring, copy`name
  {
    && copy.next == null && copy.prev == null && !copy.isReference
    && copy.kind == kind && copy.valueint == n
    && TextOf(copy.valuestring) == text && TextOf(copy.name) == name
    && (copy.name != null ==> copy.name != copy.valuestring)
    && Self(copy) == self
  }

  /** The item itself, copied: its strings are copied too, and it is no reference. */
  method CopyItem(heap: Heap, item: Node) returns (copy: Node, ghost self: set<object>)
    requires Some(item.valuestring) + Some(item.name) <= heap.live
    modifies heap
    ensures fresh(copy) && fresh(self) && copy in self && copy.child == null
    ensures IsCopy(copy, item.kind, item.valueint, TextOf(item.valuestring), TextOf(item.name), self)
    ensures heap.live == old(heap.live) + self && heap.strays == old(heap.strays)
  {
    copy := new Node();
    heap.live := heap.live + {copy};
    copy.kind, copy.isReference, copy.valueint := item.kind, false, item.valueint;
    if item.valuestring != null {
      copy.valuestring := heap.StrDup(item.valuestring);
    }
    if item.name != null {
      copy.name := heap.StrDup(item.name);
    }
    self := Self(copy);
  }

  /** cJSON_Duplicate: a tree of its own, all of it new, that stands for the same value. */
  method Duplicate(heap: Heap, item: Node, recurse: bool, ghost t: Tree)
    returns (copy: Node, ghost d: Tree, ghost own: set<object>)
    requires t.node == item && (recurse ==> Shape(t)) && Reach(if recurse then t else Tree(item, [])) <= heap.live
    modifies heap
    ensures copy == d.node && fresh(own) && heap.live == old(heap.live) + own && heap.strays == old(heap.strays)
    ensures BuiltItem(d, old(Member(TextOf(item.name), Value(if recurse then t else Tree(item, [])))), own)
    decreases t, 1
  {
    hide Built, Grown, Value, ValueOf, Items, Shape, Nodes, NodesAll, IsCopy, Reach;
    ReachHasOwn(if recurse then t else Tree(item, []));
    ghost var kind, n, text, name := item.kind, item.valueint, TextOf(item.valuestring), TextOf(item.name);
    ghost var kids, ms, self, below := [], [], {}, {};
    ValueStep(if recurse then t else Tree(item, []));
    TreeIsAllocated(t);
    NothingIsBuilt();
    copy, self := CopyItem(heap, item);
    if recurse {
      ms := Items(t.kids);
      kids, below := DuplicateKids(heap, copy, item, t);
    }
    d, own := Tree(copy, kids), self + below;
    FinishCopy(copy, kids, ms, below, kind, n, text, name, self);
  }

  /** The loop over the children. */
  method DuplicateKids(heap: Heap, copy: Node, item: Node, ghost t: Tree)
    returns (ghost kids: seq<Tree>, ghost own: set<object>)
    requires t.node == item && Shape(t) && Reach(t) <= heap.live && copy.child == null && copy !in Nodes(t)
    modifies heap, copy`child
    ensures fresh(own) && heap.live == old(heap.live) + own && heap.strays == old(heap.strays)
    ensures Built(kids, old(Items(t.kids)), own) && copy.child == NodeAt(kids, 0)
    decreases t, 0
  {
    hide Built, Grown, Value, ValueOf, Items, Shape, Nodes, NodesAll, NextLinked, Reach, Source;
    ghost var ms, all, reach := [], Items(t.kids), Reach(t);
    kids, own := [], {};
    TreeIsAllocated(t);
    NothingIsBuilt();
    SourceStarts(t);
    var cptr, nptr: Node? := item.child, null;
    while cptr != null
      invariant |kids| <= |t.kids| == |all| && cptr == NodeAt(t.kids, |kids|) && Source(t, all, reach)
      invariant Built(kids, ms, own) && fresh(own) && ms == all[..|kids|]
      invariant copy.child == NodeAt(kids, 0) && nptr == NodeAt(kids, |kids| - 1)
      invariant heap.live == old(heap.live) + own && heap.strays == old(heap.strays)
      decreases |t.kids| - |kids|
    {
      ghost var k := |kids|;
      SourceAt(t, all, reach, k);
      var newchild, u, own' := Duplicate(heap, cptr, true, t.kids[k]);
      BuiltRoots(kids, ms, own);
      BuiltRoots([u], [all[k]], own');
      Attach(copy, nptr, newchild, kids, ms, own, u, all[k], own');
      kids, ms, own := kids + [u], ms + [all[k]], own + own';
      nptr := newchild;
      SourceAt(t, all, reach, k);
      cptr := cptr.next;
    }
    assert all[..|all|] == all;
  }

  /** The tree that is copied, which stays as it is. */
  ghost predicate Source(t: Tree, all: seq<Member>, reach: set<object>)
    reads Nodes(t)
  {
    RootsAreNodes(t.kids);
    BelowIsInside(t.kids);
    Shape(t) && Items(t.kids) == all && Reach(t) == reach
  }

  lemma FinishCopy(n: Node, kids: seq<Tree>, ms: seq<Member>, own: set<object>,
                   kind: Kind, v: int, text: seq<byte>, name: seq<byte>, self: set<object>)
    requires Built(kids, ms, own) && n.child == NodeAt(kids, 0)
    requires IsCopy(n, kind, v, text, name, self) && self !! own
    ensures BuiltItem(Tree(n, kids), Member(name, ValueOf(kind, v, text, ms)), self + own)
  {
    Finish(n, kids, ms, own);
    hide OwnedAll, OwnAll, ShapeAll, NodesAll, Linked, Below, BuiltItem;
  }

  lemma SourceStarts(t: Tree)
    requires Shape(t)
    ensures Source(t, Items(t.kids), Reach(t)) && t.node.child == NodeAt(t.kids, 0) && |Items(t.kids)| == |t.kids|
  {
    ItemsCount(t.kids);
    hide Value, Items, Reach;
  }

  lemma SourceAt(t: Tree, all: seq<Member>, reach: set<object>, k: nat)
    requires Source(t, all, reach) && k < |t.kids|
    ensures Shape(t.kids[k]) && NextAt(t.kids, k) && Reach(t.kids[k]) <= reach
    ensures |all| == |t.kids| && all[k] == Member(TextOf(t.kids[k].node.name), Value(t.kids[k]))
  {
    ItemAt(t.kids, k);
    ReachHasKid(t, k);
    hide Value, Items, ShapeAll, Reach;
  }
}
