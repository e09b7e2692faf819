/** Lists of trees as they are built, item by item. */
module JsonBuild {
  import opened JsonText
  import opened JsonTree
  import opened JsonTreeEdit
  import opened JsonView

  /** Trees that own exactly own, borrow nothing, and stand for the members ms. */
  ghost predicate Grown(ts: seq<Tree>, ms: seq<Member>, own: set<object>)
    reads own
  {
    BelowIsInside(ts);
    && (forall n :: n in NodesAll(ts) ==> n in own)
    && OwnedAll(ts) && OwnAll(ts) == own
    && ShapeAll(ts) && Items(ts) == ms
    && (forall n :: n in NodesAll(ts) ==> !n.isReference)
  }

  /** Such trees as one linked list. */
  ghost predicate Built(ts: seq<Tree>, ms: seq<Member>, own: set<object>)
    reads own
  {
    RootsAreNodes(ts);
    Grown(ts, ms, own) && Linked(ts)
  }

  /** One such tree, on no list. */
  ghost predicate BuiltItem(t: Tree, m: Member, own: set<object>)
    reads own
  {
    Built([t], [m], own)
  }

  lemma GrownConcat(ts: seq<Tree>, ms: seq<Member>, own: set<object>, us: seq<Tree>, ns: seq<Member>, own': set<object>)
    requires Grown(ts, ms, own) && Grown(us, ns, own') && own !! own'
    ensures Grown(ts + us, ms + ns, own + own')
  {
    hide OwnedAll, OwnAll, ShapeAll, Items, NodesAll, Below;
    OwnedConcat(ts, us);
    OwnConcat(ts, us);
    ShapeConcat(ts, us);
    ItemsConcat(ts, us);
  }

  /** Hangs one more item behind the last of a list. */
  method LinkBehind(parent: Node, last: Node?, item: Node, ghost ts: seq<Tree>, ghost u: Tree)
    requires Linked(ts) && Linked([u]) && AllApart(ts + [u])
    requires parent.child == NodeAt(ts, 0) && last == NodeAt(ts, |ts| - 1) && item == u.node
    modifies parent`child, Roots(ts)`next, item`prev
    ensures Linked(ts + [u]) && parent.child == NodeAt(ts + [u], 0)
  {
    ghost var n, us := |ts|, ts + [u];
    if last != null {
      assert us[n].node == item && us[n - 1].node == last;
      last.next := item;
      item.prev := last;
    } else {
      assert us == [u];
      parent.child := item;
    }
    forall i | 0 <= i <= n ensures LinkAt(us, i) {
      assert i == n ==> old(LinkAt([u], 0));
      assert i < n ==> old(LinkAt(ts, i)) && us[i].node == ts[i].node != us[n].node;
      assert i < n - 1 ==> us[i].node != us[n - 1].node;
    }
  }

  /** The same on lists being built. */
  method Attach(parent: Node, last: Node?, item: Node, ghost ts: seq<Tree>, ghost ms: seq<Member>,
                ghost own: set<object>,
                ghost u: Tree, ghost m: Member, ghost own': set<object>)
    requires Built(ts, ms, own) && BuiltItem(u, m, own') && own !! own' && parent !in own + own'
    requires parent.child == NodeAt(ts, 0) && last == NodeAt(ts, |ts| - 1) && item == u.node
    modifies parent`child, Roots(ts)`next, item`prev
    ensures Built(ts + [u], ms + [m], own + own') && parent.child == NodeAt(ts + [u], 0)
    ensures Grown(ts, ms, own)
  {
    hide OwnedAll, OwnAll, ShapeAll, Items, NodesAll, Below, Self, Linked, Roots;
    NodesAreAllocated(ts);
    NodesAreAllocated([u]);
    ListsAreApart(ts, [u]);
    LinkBehind(parent, last, item, ts, u);
    GrownConcat(ts, ms, own, [u], [m], own');
  }

  /** A node with children that are built: a tree that is grown. */
  lemma GrownItem(n: Node, kids: seq<Tree>, ms: seq<Member>, own: set<object>)
    requires Built(kids, ms, own) && n.child == NodeAt(kids, 0) && !n.isReference
    requires Self(n) !! own && (n.name != null ==> n.name != n.valuestring)
    ensures Grown([Tree(n, kids)], [Member(TextOf(n.name), Value(Tree(n, kids)))], Self(n) + own)
  {
    var t := Tree(n, kids);
    OwnedAlone(t);
    forall i | 0 <= i < |kids| ensures NextAt(kids, i) {
      assert LinkAt(kids, i);
    }
    assert n in Self(n) && NodesAll([t]) == {n} + NodesAll(kids);
    hide OwnedAll, OwnAll, NodesAll, Linked, Below, Self;
    assert Owned(t) && Own(t) == Self(n) + own;
    hide Owned, Own;
    assert Shape(t);
    hide Shape, Value;
    ShowsAlone(t);
  }

  /** On no list, it is built. */
  lemma Finish(n: Node, kids: seq<Tree>, ms: seq<Member>, own: set<object>)
    requires Built(kids, ms, own) && n.child == NodeAt(kids, 0) && !n.isReference && n.next == null && n.prev == null
    requires Self(n) !! own && (n.name != null ==> n.name != n.valuestring)
    ensures BuiltItem(Tree(n, kids), Member(TextOf(n.name), Value(Tree(n, kids))), Self(n) + own)
  {
    GrownItem(n, kids, ms, own);
    assert LinkAt([Tree(n, kids)], 0);
    hide Grown, Self, Value;
  }

  lemma ShowsAlone(t: Tree)
    ensures ShapeAll([t]) == Shape(t) && Items([t]) == [Member(TextOf(t.node.name), Value(t))]
  {
    assert [t][1..] == [];
    hide Shape, Value;
  }

  lemma NothingIsBuilt()
    ensures Built([], [], {})
  {
  }

  lemma BuiltRoots(ts: seq<Tree>, ms: seq<Member>, own: set<object>)
    requires Built(ts, ms, own)
    ensures forall n :: n in Roots(ts) ==> n in own
    ensures forall t :: t in ts ==> t.node in own
  {
    RootsAreNodes(ts);
    hide OwnedAll, OwnAll, ShapeAll, Items, NodesAll, Linked, Below;
    forall t | t in ts ensures t.node in Roots(ts) {
    }
  }
}
