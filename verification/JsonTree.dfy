/** The tree of cJSON as it lies in memory: doubly linked children, borrowed parts, and who frees what. */
module JsonTree {
  import opened Memory

  datatype Kind = FalseKind | TrueKind | NullKind | NumberKind | StringKind | ArrayKind | ObjectKind

  /** struct cJSON; the type field is split into its kind and its cJSON_IsReference bit,
      and the field string is called name. */
  class Node {
    var next: Node?
    var prev: Node?
    var child: Node?
    var kind: Kind
    var isReference: bool
    var valuestring: CString?
    var valueint: int
    var name: CString?

    constructor ()
      ensures next == null && prev == null && child == null && kind == FalseKind && !isReference
      ensures valuestring == null && valueint == 0 && name == null
    {
      next, prev, child := null, null, null;
      kind, isReference := FalseKind, false;
      valuestring, valueint, name := null, 0, null;
    }
  }

  /** A node and the trees of the nodes on its child list. */
  datatype Tree = Tree(node: Node, kids: seq<Tree>)

  ghost function NodeAt(ts: seq<Tree>, i: int): Node? {
    if 0 <= i < |ts| then ts[i].node else null
  }

  ghost function Roots(ts: seq<Tree>): set<Node> {
    set i | 0 <= i < |ts| :: ts[i].node
  }

  ghost function Nodes(t: Tree): set<Node> {
    {t.node} + NodesAll(t.kids)
  }

  ghost function NodesAll(ts: seq<Tree>): set<Node> {
    if ts == [] then {} else Nodes(ts[0]) + NodesAll(ts[1..])
  }

  /** The nodes under the roots. */
  ghost function Below(ts: seq<Tree>): set<Node> {
    if ts == [] then {} else NodesAll(ts[0].kids) + Below(ts[1..])
  }

  /** Item i leads to its neighbours. */
  ghost predicate LinkAt(ts: seq<Tree>, i: nat)
    requires i < |ts|
    reads ts[i].node`next, ts[i].node`prev
  {
    ts[i].node.next == NodeAt(ts, i + 1) && ts[i].node.prev == NodeAt(ts, i - 1)
  }

  /** The roots are a list: next and prev lead from each to its neighbours, and end in null. */
  ghost predicate Linked(ts: seq<Tree>)
    reads Roots(ts)`next, Roots(ts)`prev
  {
    forall i :: 0 <= i < |ts| ==> LinkAt(ts, i)
  }

  ghost function Some(s: CString?): set<object> {
    if s == null then {} else {s}
  }

  /** What a node owns itself: its name, and its text unless that is borrowed. */
  ghost function Self(n: Node): set<object>
    reads n`name, n`valuestring, n`isReference
  {
    {n} + Some(n.name) + (if n.isReference then {} else Some(n.valuestring))
  }

  ghost function Own(t: Tree): set<object>
    reads Nodes(t)`name, Nodes(t)`valuestring, Nodes(t)`isReference
    decreases t
  {
    Self(t.node) + OwnAll(t.kids)
  }

  ghost function OwnAll(ts: seq<Tree>): set<object>
    reads NodesAll(ts)`name, NodesAll(ts)`valuestring, NodesAll(ts)`isReference
    decreases ts
  {
    if ts == [] then {} else Own(ts[0]) + OwnAll(ts[1..])
  }

  /** A tree that owns all its parts, and owns each of them once. A reference owns no children. */
  ghost predicate Owned(t: Tree)
    reads Nodes(t)`name, Nodes(t)`valuestring, Nodes(t)`isReference, Nodes(t)`child
    reads NodesAll(t.kids)`next, NodesAll(t.kids)`prev
    decreases t
  {
    var n := t.node;
    BelowIsInside(t.kids);
    && (if n.isReference then t.kids == [] else n.child == NodeAt(t.kids, 0))
    && (n.name != null && !n.isReference ==> n.name != n.valuestring)
    && OwnedAll(t.kids) && LinkedKids(t)
    && Self(n) !! OwnAll(t.kids)
  }

  ghost predicate LinkedKids(t: Tree)
    reads NodesAll(t.kids)`next, NodesAll(t.kids)`prev
  {
    RootsAreNodes(t.kids);
    Linked(t.kids)
  }

  ghost predicate OwnedAll(ts: seq<Tree>)
    reads NodesAll(ts)`name, NodesAll(ts)`valuestring, NodesAll(ts)`isReference, NodesAll(ts)`child
    reads Below(ts)`next, Below(ts)`prev
    decreases ts
  {
    ts == [] || (Owned(ts[0]) && OwnedAll(ts[1..]) && Own(ts[0]) !! OwnAll(ts[1..]))
  }

  lemma RootsAreNodes(ts: seq<Tree>)
    ensures Roots(ts) <= NodesAll(ts)
  {
    if ts != [] {
      RootsAreNodes(ts[1..]);
      forall n | n in Roots(ts) ensures n in NodesAll(ts) {
        var i :| 0 <= i < |ts| && ts[i].node == n;
        if i > 0 {
          assert ts[1..][i - 1].node == n;
        }
      }
    }
  }

  lemma BelowIsInside(ts: seq<Tree>)
    ensures Below(ts) <= NodesAll(ts)
  {
  }

  lemma {:induction false} OwnConcat(a: seq<Tree>, b: seq<Tree>)
    ensures NodesAll(a + b) == NodesAll(a) + NodesAll(b)
    ensures Below(a + b) == Below(a) + Below(b)
    ensures OwnAll(a + b) == OwnAll(a) + OwnAll(b)
  {
    hide Own, Nodes;
    if a == [] {
      assert a + b == b;
    } else {
      assert (a + b)[1..] == a[1..] + b;
      OwnConcat(a[1..], b);
    }
  }

  /** A list of trees can be cut anywhere: the two parts are owned, and share nothing. */
  lemma {:induction false} OwnedConcat(a: seq<Tree>, b: seq<Tree>)
    ensures OwnedAll(a + b) <==> OwnedAll(a) && OwnedAll(b) && OwnAll(a) !! OwnAll(b)
  {
    hide Own, Nodes, Owned, Below;
    if a == [] {
      assert a + b == b;
    } else {
      assert (a + b)[1..] == a[1..] + b;
      OwnedConcat(a[1..], b);
      OwnConcat(a[1..], b);
    }
  }

  lemma {:induction false} NodesAreOwn(ts: seq<Tree>)
    ensures forall n :: n in NodesAll(ts) ==> n in OwnAll(ts)
  {
    hide Self;
    if ts != [] {
      TreeIsOwn(ts[0]);
      NodesAreOwn(ts[1..]);
      hide Own, Nodes;
    }
  }

  lemma {:induction false} TreeIsOwn(t: Tree)
    ensures t.node in Own(t) && forall n :: n in Nodes(t) ==> n in Own(t)
    ensures forall n :: n in NodesAll(t.kids) ==> n in Own(t)
  {
    NodesAreOwn(t.kids);
    assert t.node in Self(t.node);
    hide Self, NodesAll, OwnAll;
  }

  lemma {:induction false} NodesAreAllocated(ts: seq<Tree>)
    ensures forall n :: n in NodesAll(ts) ==> allocated(n)
    ensures forall n :: n in Below(ts) ==> allocated(n)
    ensures forall n :: n in Roots(ts) ==> allocated(n)
  {
    RootsAreNodes(ts);
    if ts != [] {
      var t := ts[0];
      assert allocated(t.node);
      assert NodesAll(ts) == {t.node} + NodesAll(t.kids) + NodesAll(ts[1..]);
      NodesAreAllocated(t.kids);
      NodesAreAllocated(ts[1..]);
      hide NodesAll;
    }
  }

  lemma TreeIsAllocated(t: Tree)
    ensures forall n :: n in Nodes(t) ==> allocated(n)
    ensures forall n :: n in NodesAll(t.kids) ==> allocated(n)
  {
    NodesAreAllocated(t.kids);
  }

  lemma Nothing()
    ensures OwnAll([]) == {} && NodesAll([]) == {} && Below([]) == {}
  {
  }

  /** The first of a list of trees, and the others. */
  lemma First(ts: seq<Tree>)
    requires ts != [] && OwnedAll(ts)
    ensures Owned(ts[0]) && OwnedAll(ts[1..]) && Own(ts[0]) !! OwnAll(ts[1..])
    ensures OwnAll(ts) == Own(ts[0]) + OwnAll(ts[1..])
    ensures NodesAll(ts) == Nodes(ts[0]) + NodesAll(ts[1..])
    ensures Roots(ts) == {ts[0].node} + Roots(ts[1..])
  {
    hide Own, Nodes, Owned;
    forall n | n in Roots(ts) ensures n in {ts[0].node} + Roots(ts[1..]) {
      var i :| 0 <= i < |ts| && ts[i].node == n;
      assert i > 0 ==> ts[1..][i - 1].node == n;
    }
  }

  /** Roots differ from one another and from all that lies below. */
  lemma {:induction false} RootsApart(ts: seq<Tree>)
    requires OwnedAll(ts)
    ensures Roots(ts) !! Below(ts)
    ensures forall i, j :: 0 <= i < j < |ts| ==> ts[i].node != ts[j].node
  {
    if ts != [] {
      First(ts);
      RootsApart(ts[1..]);
      TreeIsOwn(ts[0]);
      NodesAreOwn(ts[0].kids);
      NodesAreOwn(ts[1..]);
      RootsAreNodes(ts[1..]);
      BelowIsInside(ts[1..]);
      assert ts[0].node in Self(ts[0].node) && ts[0].node in Nodes(ts[0]);
      assert NodesAll(ts[0].kids) <= Nodes(ts[0]);
      assert ts[0].node !in NodesAll(ts[0].kids);
      forall j | 0 < j < |ts| ensures ts[j].node in NodesAll(ts[1..]) {
        assert ts[1..][j - 1] == ts[j] && ts[j].node in Roots(ts[1..]);
      }
      hide Self, Own, Nodes, NodesAll, OwnAll, Owned, OwnedAll;
    }
  }

  // ---------- cJSON_Delete ----------

  /** The next pointers alone, which is what cJSON_Delete follows. */
  ghost predicate NextAt(ts: seq<Tree>, i: nat)
    requires i < |ts|
    reads ts[i].node`next
  {
    ts[i].node.next == NodeAt(ts, i + 1)
  }

  ghost predicate NextLinked(ts: seq<Tree>)
    reads Roots(ts)`next
  {
    forall i :: 0 <= i < |ts| ==> NextAt(ts, i)
  }

  /** A list of trees that owns the objects in own, ready to be deleted. */
  ghost predicate Deletable(ts: seq<Tree>, own: set<object>)
    reads own
  {
    RootsAreNodes(ts);
    BelowIsInside(ts);
    (forall n :: n in NodesAll(ts) ==> n in own) && OwnedAll(ts) && NextLinked(ts) && OwnAll(ts) == own
  }

  ghost predicate DeletableItem(t: Tree, own: set<object>)
    reads own
  {
    (forall n :: n in Nodes(t) ==> n in own) && Owned(t) && Own(t) == own
  }

  /** What is left of a list once its first item is taken off. */
  lemma TakeOff(ts: seq<Tree>, own: set<object>)
    requires ts != [] && Deletable(ts, own)
    ensures var first := Own(ts[0]);
            && first <= own && DeletableItem(ts[0], first) && Deletable(ts[1..], own - first)
    ensures ts[0].node in own && ts[0].node.next == NodeAt(ts[1..], 0)
  {
    hide Own, Nodes, NodesAll, OwnAll, Owned, OwnedAll;
    First(ts);
    TreeIsOwn(ts[0]);
    NodesAreOwn(ts[1..]);
    assert NextAt(ts, 0);
    forall i | 0 <= i < |ts[1..]| ensures NextAt(ts[1..], i) {
      assert NextAt(ts, i + 1) && ts[1..][i] == ts[i + 1];
    }
    assert OwnAll(ts[1..]) == own - Own(ts[0]);
  }

  /** Deletes a chain of items: whatever they own is freed, once; what they borrow is left alone. */
  method Delete(heap: Heap, c: Node?, ghost ts: seq<Tree>, ghost own: set<object>)
    requires Deletable(ts, own) && c == NodeAt(ts, 0)
    requires own <= heap.live && heap !in own
    modifies heap`live, own
    ensures heap.live == old(heap.live) - own
    decreases ts, 0
  {
    hide Deletable, DeletableItem, Own;
    var cur := c;
    ghost var k, rest := 0, own;
    assert ts[0..] == ts;
    while cur != null
      invariant 0 <= k <= |ts| && cur == NodeAt(ts, k)
      invariant rest <= own && Deletable(ts[k..], rest)
      invariant heap.live == old(heap.live) - (own - rest)
      decreases |ts| - k
    {
      TakeOff(ts[k..], rest);
      assert ts[k..][1..] == ts[k + 1..];
      var next := cur.next;
      ghost var first := Own(ts[k]);
      DeleteItem(heap, cur, ts[k], first);
      k, rest := k + 1, rest - first;
      cur := next;
    }
    assert ts[k..] == [];
    NothingToDelete(rest);
  }

  lemma NothingToDelete(own: set<object>)
    requires Deletable([], own)
    ensures own == {}
  {
  }

  /** One round of the loop of cJSON_Delete. */
  method DeleteItem(heap: Heap, c: Node, ghost t: Tree, ghost own: set<object>)
    requires DeletableItem(t, own) && c == t.node
    requires own <= heap.live && heap !in own
    modifies heap`live, own
    ensures heap.live == old(heap.live) - own
    decreases t, 1
  {
    ghost var below := KidsAreDeletable(t, own);
    hide Deletable, DeletableItem;
    if !c.isReference && c.child != null {
      Delete(heap, c.child, t.kids, below);
    }
    if !c.isReference && c.valuestring != null {
      heap.Free(c.valuestring);
    }
    if c.name != null {
      heap.Free(c.name);
    }
    heap.Free(c);
  }

  lemma KidsAreDeletable(t: Tree, own: set<object>) returns (below: set<object>)
    requires DeletableItem(t, own)
    ensures own == Self(t.node) + below && Self(t.node) !! below
    ensures t.node.isReference || t.node.child == null ==> below == {}
    ensures Deletable(t.kids, below) && (!t.node.isReference ==> t.node.child == NodeAt(t.kids, 0))
    ensures t.node.name != null && !t.node.isReference ==> t.node.name != t.node.valuestring
  {
    below := OwnAll(t.kids);
    NodesAreOwn(t.kids);
    forall i | 0 <= i < |t.kids| ensures NextAt(t.kids, i) {
      assert LinkAt(t.kids, i);
    }
    hide NodesAll, OwnAll, OwnedAll;
    Nothing();
  }

  /** One tree, as a list that can be deleted. */
  lemma AloneIsDeletable(t: Tree)
    requires Owned(t) && Linked([t])
    ensures Deletable([t], Own(t)) && allocated(Own(t))
  {
    OwnedAlone(t);
    NodesAreOwn([t]);
    assert LinkAt([t], 0);
    assert NextAt([t], 0);
    hide Own, Nodes, NodesAll, OwnAll, Owned, OwnedAll;
  }

  lemma OwnedAlone(t: Tree)
    ensures OwnedAll([t]) == Owned(t) && OwnAll([t]) == Own(t)
    ensures NodesAll([t]) == Nodes(t) && Below([t]) == NodesAll(t.kids) && Roots([t]) == {t.node}
  {
    assert [t][1..] == [];
    assert Roots([t]) == {t.node} by {
      assert [t][0] == t;
    }
    hide Own, Nodes, Owned;
  }
}
