/** Editing a child list: append, detach, replace and delete, by place and by name. */
module JsonTreeEdit {
  import opened Memory
  import opened JsonTree

  /** What an owned tree is made of. */
  lemma Open(t: Tree)
    requires Owned(t) && !t.node.isReference
    ensures t.node.child == NodeAt(t.kids, 0) && Linked(t.kids) && OwnedAll(t.kids)
    ensures Self(t.node) !! OwnAll(t.kids) && Own(t) == Self(t.node) + OwnAll(t.kids)
    ensures t.node.name != null ==> t.node.name != t.node.valuestring
  {
    hide OwnAll, OwnedAll, Linked, Self;
  }

  /** Owned pieces that are linked make an owned tree. */
  lemma Join(n: Node, a: seq<Tree>, b: seq<Tree>)
    requires OwnedAll(a) && OwnedAll(b) && OwnAll(a) !! OwnAll(b)
    requires Self(n) !! OwnAll(a) + OwnAll(b) && (n.name != null ==> n.name != n.valuestring)
    requires !n.isReference && n.child == NodeAt(a + b, 0) && Linked(a + b)
    ensures Owned(Tree(n, a + b)) && Own(Tree(n, a + b)) == Self(n) + OwnAll(a) + OwnAll(b)
  {
    OwnedConcat(a, b);
    OwnConcat(a, b);
    hide OwnAll, OwnedAll, Linked;
  }

  /** suffix_object */
  method SuffixObject(prev: Node, item: Node)
    modifies prev`next, item`prev
    ensures prev.next == item && item.prev == prev
  {
    prev.next := item;
    item.prev := prev;
  }

  predicate AllApart(ts: seq<Tree>) {
    forall i, j :: 0 <= i < j < |ts| ==> ts[i].node != ts[j].node
  }

  /** Hangs the list us behind the list ts. */
  method Chain(parent: Node, item: Node, ghost ts: seq<Tree>, ghost us: seq<Tree>)
    requires parent.child == NodeAt(ts, 0) && Linked(ts)
    requires item == NodeAt(us, 0) && Linked(us) && AllApart(ts + us)
    modifies parent`child, Roots(ts)`next, item`prev
    ensures parent.child == NodeAt(ts + us, 0) && Linked(ts + us)
  {
    var c := parent.child;
    if c == null {
      parent.child := item;
      assert ts == [] && Linked(us) && ts + us == us;
    } else {
      ghost var k := 0;
      while c != null && c.next != null
        invariant 0 <= k < |ts| && c == ts[k].node
        decreases |ts| - k
      {
        assert LinkAt(ts, k);
        c, k := c.next, k + 1;
      }
      assert LinkAt(ts, k);
      SuffixObject(c, item);
      var n := |ts|;
      assert (ts + us)[n].node == item && (ts + us)[n - 1].node == c;
      forall i | 0 <= i < |ts + us| ensures LinkAt(ts + us, i) {
        if i < n {
          assert old(LinkAt(ts, i)) && (ts + us)[i].node == ts[i].node != item;
          assert i < n - 1 ==> (ts + us)[i].node != c;
        } else {
          assert old(LinkAt(us, i - n)) && (ts + us)[i] == us[i - n] && (ts + us)[i].node != c;
          assert i > n ==> (ts + us)[i].node != item;
        }
      }
    }
  }

  /** The place an index asks for: a negative one asks for the first. */
  function Place(which: int): nat {
    if which < 0 then 0 else which
  }

  /** cJSON_GetArrayItem, and the loop that the edits by place begin with. */
  method GetArrayItem(parent: Node, which: int, ghost ts: seq<Tree>) returns (c: Node?)
    requires parent.child == NodeAt(ts, 0) && Linked(ts)
    ensures c == NodeAt(ts, Place(which))
  {
    c := parent.child;
    var left := which;
    ghost var k := 0;
    while c != null && left > 0
      invariant 0 <= k <= |ts| && c == NodeAt(ts, k)
      invariant k + Place(left) == Place(which) || (c == null && k <= Place(which))
      decreases |ts| - k
    {
      assert LinkAt(ts, k);
      c, left, k := c.next, left - 1, k + 1;
    }
  }

  /** The list without its item i. */
  function Without<T>(ts: seq<T>, i: nat): seq<T>
    requires i < |ts|
  {
    ts[..i] + ts[i + 1..]
  }

  /** Takes item i out of its list. */
  method Unlink(parent: Node, c: Node, ghost ts: seq<Tree>, ghost i: nat)
    requires i < |ts| && c == ts[i].node && AllApart(ts)
    requires parent.child == NodeAt(ts, 0) && Linked(ts)
    modifies parent`child, Roots(ts)`next, Roots(ts)`prev
    ensures parent.child == NodeAt(Without(ts, i), 0) && Linked(Without(ts, i)) && Linked([ts[i]])
  {
    assert LinkAt(ts, i);
    if c.prev != null {
      c.prev.next := c.next;
    }
    if c.next != null {
      c.next.prev := c.prev;
    }
    if c == parent.child {
      parent.child := c.next;
    }
    c.prev, c.next := null, null;
    ghost var us := Without(ts, i);
    assert LinkAt([ts[i]], 0);
    forall j | 0 <= j < |us| ensures LinkAt(us, j) {
      assert old(LinkAt(ts, if j < i then j else j + 1));
    }
  }

  /** Puts a new item in the place of item i. */
  method Swap(parent: Node, c: Node, item: Node, ghost ts: seq<Tree>, ghost i: nat, ghost u: Tree)
    requires i < |ts| && c == ts[i].node && item == u.node && AllApart(ts + [u])
    requires parent.child == NodeAt(ts, 0) && Linked(ts)
    modifies parent`child, Roots(ts)`next, Roots(ts)`prev, item`next, item`prev
    ensures parent.child == NodeAt(ts[i := u], 0) && Linked(ts[i := u]) && Linked([ts[i]])
  {
    assert LinkAt(ts, i);
    assert (ts + [u])[|ts|] == u;
    assert forall j :: 0 <= j < |ts| ==> (ts + [u])[j] == ts[j] && ts[j].node != item;
    item.next := c.next;
    item.prev := c.prev;
    if item.next != null {
      item.next.prev := item;
    }
    if c == parent.child {
      parent.child := item;
    } else {
      item.prev.next := item;
    }
    c.next, c.prev := null, null;
    ghost var us := ts[i := u];
    assert LinkAt([ts[i]], 0);
    forall j | 0 <= j < |us| ensures LinkAt(us, j) {
      assert old(LinkAt(ts, j));
    }
  }

  /** Two lists that share nothing: no link of one is read for the other. */
  lemma ListsAreApart(ts: seq<Tree>, us: seq<Tree>)
    requires OwnedAll(ts) && OwnedAll(us) && OwnAll(ts) !! OwnAll(us)
    ensures AllApart(ts + us) && (forall u :: u in us ==> u.node in Roots(us))
    ensures Roots(ts) !! Below(ts) + Below(us) && Roots(us) !! Below(ts) + Below(us)
  {
    OwnedConcat(ts, us);
    OwnConcat(ts, us);
    RootsApart(ts + us);
    hide OwnedAll, OwnAll, Below;
    forall i | 0 <= i < |ts| ensures ts[i].node in Roots(ts + us) {
      assert (ts + us)[i] == ts[i];
    }
    forall i | 0 <= i < |us| ensures us[i].node in Roots(ts + us) {
      assert (ts + us)[|ts| + i] == us[i];
    }
  }

  lemma Apart(n: Node, ts: seq<Tree>, us: seq<Tree>)
    requires OwnedAll(ts) && OwnedAll(us) && OwnAll(ts) !! OwnAll(us)
    requires Self(n) !! OwnAll(ts) + OwnAll(us)
    ensures AllApart(ts + us) && n !in NodesAll(ts) && n !in NodesAll(us)
    ensures Roots(ts) !! Below(ts) + Below(us) && Roots(us) !! Below(ts) + Below(us)
  {
    ListsAreApart(ts, us);
    NodesAreOwn(ts);
    NodesAreOwn(us);
    assert n in Self(n);
    hide OwnAll, OwnedAll, NodesAll, Below, Self;
  }

  /** cJSON_AddItemToArray. The item may be the first of a chain: all of it is appended. */
  method AddItemToArray(parent: Node, item: Node?, ghost t: Tree, ghost us: seq<Tree>)
    requires Owned(t) && t.node == parent && !parent.isReference
    requires OwnedAll(us) && Linked(us) && item == NodeAt(us, 0) && Own(t) !! OwnAll(us)
    modifies parent`child, Roots(t.kids)`next, Roots(us)`prev
    ensures var t' := Tree(parent, t.kids + us); Owned(t') && Own(t') == old(Own(t) + OwnAll(us))
  {
    hide OwnAll, OwnedAll, NodesAll, Below, Owned, Own, Linked, Self;
    if item == null {
      assert us == [] && t.kids + us == t.kids;
      Nothing();
      return;
    }
    ghost var ts := t.kids;
    Open(t);
    Apart(parent, ts, us);
    NodesAreAllocated(ts);
    NodesAreAllocated(us);
    Chain(parent, item, ts, us);
    assert OwnedAll(ts) && OwnedAll(us);
    Join(parent, ts, us);
  }

  /** The pieces a list is cut into when its item i is taken out. */
  lemma CutOut(n: Node, ts: seq<Tree>, i: nat)
    requires i < |ts| && OwnedAll(ts) && Self(n) !! OwnAll(ts)
    ensures var a, b := ts[..i], ts[i + 1..];
      && OwnedAll(a) && OwnedAll(b) && Owned(ts[i]) && AllApart(ts)
      && OwnAll(a) !! OwnAll(b) && Own(ts[i]) !! OwnAll(a) + OwnAll(b)
      && OwnAll(ts) == OwnAll(a) + Own(ts[i]) + OwnAll(b)
      && n !in Nodes(ts[i]) && n !in NodesAll(a) && n !in NodesAll(b)
      && Roots(ts) !! Below(a) + Below(b) + NodesAll(ts[i].kids)
      && Below(a) + Below(b) + NodesAll(ts[i].kids) <= NodesAll(ts)
  {
    assert n in Self(n);
    hide OwnAll, OwnedAll, NodesAll, Below, Self, Own, Owned, Nodes, Roots;
    var a, x, b := ts[..i], [ts[i]], ts[i + 1..];
    assert ts == a + (x + b);
    OwnedConcat(a, x + b);
    OwnConcat(a, x + b);
    OwnedConcat(x, b);
    OwnConcat(x, b);
    OwnedAlone(ts[i]);
    RootsApart(ts);
    NodesAreOwn(ts);
    BelowIsInside(ts);
  }

  /** The function cJSON_DetachItemFromArray: the list without one item, and that item whole. */
  method DetachItemFromArray(parent: Node, which: int, ghost t: Tree) returns (c: Node?)
    requires Owned(t) && t.node == parent && !parent.isReference
    modifies parent`child, Roots(t.kids)`next, Roots(t.kids)`prev
    ensures c == NodeAt(t.kids, Place(which))
    ensures c == null ==> Owned(t) && Own(t) == old(Own(t))
    ensures c != null ==>
      var i := Place(which);
      var t' := Tree(parent, Without(t.kids, i));
      && Owned(t') && Owned(t.kids[i]) && Linked([t.kids[i]])
      && Own(t.kids[i]) == old(Own(t.kids[i])) && Own(t') == old(Own(t)) - Own(t.kids[i])
      && Own(t.kids[i]) <= old(Own(t))
  {
    hide OwnAll, OwnedAll, NodesAll, Below, Owned, Own, Linked, Self, Nodes, Roots, Without;
    ghost var ts := t.kids;
    Open(t);
    NodesAreAllocated(ts);
    TreeIsAllocated(t);
    ghost var i := Place(which);
    if i < |ts| {
      TreeIsAllocated(ts[i]);
    }
    c := GetArrayItem(parent, which, ts);
    if c == null {
      return;
    }
    CutOut(parent, ts, i);
    NodesAreAllocated(ts[..i]);
    NodesAreAllocated(ts[i + 1..]);
    TreeIsAllocated(ts[i]);
    Unlink(parent, c, ts, i);
    JoinWithout(parent, ts, i);
  }

  lemma JoinWithout(n: Node, ts: seq<Tree>, i: nat)
    requires i < |ts|
    requires var a, b := ts[..i], ts[i + 1..];
      && OwnedAll(a) && OwnedAll(b) && OwnAll(a) !! OwnAll(b)
      && Self(n) !! OwnAll(a) + OwnAll(b)
    requires n.name != null ==> n.name != n.valuestring
    requires !n.isReference && n.child == NodeAt(Without(ts, i), 0) && Linked(Without(ts, i))
    ensures var t' := Tree(n, Without(ts, i));
      Owned(t') && Own(t') == Self(n) + OwnAll(ts[..i]) + OwnAll(ts[i + 1..])
  {
    Join(n, ts[..i], ts[i + 1..]);
  }

  /** What goes when the item at that place goes. */
  ghost function OwnAt(ts: seq<Tree>, i: nat): set<object>
    reads if i < |ts| then Nodes(ts[i]) else {}
  {
    if i < |ts| then Own(ts[i]) else {}
  }

  /** cJSON_DeleteItemFromArray: what the item owns is freed, and nothing else. */
  method DeleteItemFromArray(heap: Heap, parent: Node, which: int, ghost t: Tree)
    requires Owned(t) && t.node == parent && !parent.isReference
    requires Own(t) <= heap.live && heap !in Own(t)
    modifies heap`live, parent`child, Roots(t.kids)`next, Roots(t.kids)`prev, OwnAt(t.kids, Place(which))
    ensures var i := Place(which);
      if i < |t.kids| then
        var t' := Tree(parent, Without(t.kids, i));
        && Owned(t') && Own(t') == old(Own(t)) - old(Own(t.kids[i]))
        && heap.live == old(heap.live) - old(Own(t.kids[i]))
      else
        Owned(t) && Own(t) == old(Own(t)) && heap.live == old(heap.live)
  {
    hide OwnAll, OwnedAll, NodesAll, Below, Owned, Own, Linked, Self, Nodes, Roots, Without, Deletable;
    LinksAreOwn(t);
    TreeIsAllocated(t);
    var c := DetachItemFromArray(parent, which, t);
    ghost var i := Place(which);
    if c != null {
      ghost var t' := Tree(parent, Without(t.kids, i));
      AloneIsDeletable(t.kids[i]);
      TreeIsOwn(t');
      TreeIsAllocated(t');
      Delete(heap, c, [t.kids[i]], Own(t.kids[i]));
    }
  }

  lemma LinksAreOwn(t: Tree)
    ensures t.node in Own(t) && forall n :: n in Roots(t.kids) ==> n in Own(t)
  {
    TreeIsOwn(t);
    RootsAreNodes(t.kids);
    hide Own, NodesAll;
  }

  /** The pieces around item i, and a new item in its place, make an owned tree. */
  lemma JoinReplaced(n: Node, ts: seq<Tree>, i: nat, u: Tree)
    requires i < |ts| && Owned(u)
    requires var a, b := ts[..i], ts[i + 1..];
      && OwnedAll(a) && OwnedAll(b) && OwnAll(a) !! OwnAll(b)
      && Own(u) !! OwnAll(a) + OwnAll(b) && Self(n) !! OwnAll(a) + OwnAll(b) + Own(u)
    requires n.name != null ==> n.name != n.valuestring
    requires !n.isReference && n.child == NodeAt(ts[i := u], 0) && Linked(ts[i := u])
    ensures var t' := Tree(n, ts[i := u]);
      Owned(t') && Own(t') == Self(n) + OwnAll(ts[..i]) + Own(u) + OwnAll(ts[i + 1..])
  {
    hide Own, Owned, OwnAll, OwnedAll, Self, Linked;
    var a, b := ts[..i], ts[i + 1..];
    InFront(u, b);
    assert ts[i := u] == a + ([u] + b);
    Join(n, a, [u] + b);
  }

  lemma InFront(u: Tree, b: seq<Tree>)
    ensures OwnAll([u] + b) == Own(u) + OwnAll(b)
    ensures OwnedAll([u] + b) <==> Owned(u) && OwnedAll(b) && Own(u) !! OwnAll(b)
  {
    assert ([u] + b)[1..] == b;
    hide Own, Owned;
  }

  /** A new item shares nothing with the list it goes into. */
  lemma NewIsApart(n: Node, ts: seq<Tree>, u: Tree)
    requires OwnedAll(ts) && Owned(u) && OwnAll(ts) !! Own(u) && Self(n) !! OwnAll(ts) + Own(u)
    ensures AllApart(ts + [u]) && n !in Nodes(u) && n !in NodesAll(u.kids)
    ensures Roots(ts) !! Nodes(u) + NodesAll(u.kids) && u.node !in NodesAll(ts) && u.node !in NodesAll(u.kids)
    ensures Below(ts) <= NodesAll(ts) && Roots(ts) <= NodesAll(ts)
  {
    OwnedAlone(u);
    Apart(n, ts, [u]);
    TreeIsOwn(u);
    NodesAreOwn(ts);
    RootsAreNodes(ts);
    BelowIsInside(ts);
    assert NodesAll(u.kids) <= Nodes(u);
    hide Own, Owned, OwnAll, OwnedAll, NodesAll, Self, Roots, Below;
  }

  /** The exchange of cJSON_ReplaceItemInArray, before the old item is deleted. */
  method Exchange(parent: Node, c: Node, item: Node, ghost t: Tree, ghost i: nat, ghost u: Tree)
    requires Owned(t) && t.node == parent && !parent.isReference && i < |t.kids| && c == t.kids[i].node
    requires Owned(u) && u.node == item && Own(t) !! Own(u)
    modifies parent`child, Roots(t.kids)`next, Roots(t.kids)`prev, item`next, item`prev
    ensures var t' := Tree(parent, t.kids[i := u]);
      && Owned(t') && Own(t') == old(Own(t)) - old(Own(t.kids[i])) + old(Own(u))
      && Owned(t.kids[i]) && Linked([t.kids[i]]) && Own(t.kids[i]) == old(Own(t.kids[i])) <= old(Own(t))
  {
    hide OwnAll, OwnedAll, NodesAll, Below, Owned, Own, Linked, Self, Nodes, Roots;
    ghost var ts := t.kids;
    Open(t);
    NewIsApart(parent, ts, u);
    CutOut(parent, ts, i);
    NodesAreAllocated(ts[..i]);
    NodesAreAllocated(ts[i + 1..]);
    TreeIsAllocated(ts[i]);
    TreeIsAllocated(u);
    Swap(parent, c, item, ts, i, u);
    JoinReplaced(parent, ts, i, u);
  }

  /** cJSON_ReplaceItemInArray: the new item takes the place of the old one, which is deleted. */
  method ReplaceItemInArray(heap: Heap, parent: Node, which: int, item: Node, ghost t: Tree, ghost u: Tree)
    requires Owned(t) && t.node == parent && !parent.isReference
    requires Owned(u) && u.node == item && Own(t) !! Own(u)
    requires Own(t) + Own(u) <= heap.live && heap !in Own(t) + Own(u)
    modifies heap`live, parent`child, Roots(t.kids)`next, Roots(t.kids)`prev, OwnAt(t.kids, Place(which))
    modifies item`next, item`prev
    ensures var i := Place(which);
      if i < |t.kids| then
        var t' := Tree(parent, t.kids[i := u]);
        && Owned(t') && Own(t') == old(Own(t)) - old(Own(t.kids[i])) + old(Own(u))
        && heap.live == old(heap.live) - old(Own(t.kids[i]))
      else
        && Owned(t) && Own(t) == old(Own(t)) && Owned(u) && Own(u) == old(Own(u))
        && item.next == old(item.next) && item.prev == old(item.prev) && heap.live == old(heap.live)
  {
    hide OwnAll, OwnedAll, NodesAll, Below, Owned, Own, Linked, Self, Nodes, Roots, Deletable;
    LinksAreOwn(t);
    TreeIsAllocated(t);
    TreeIsAllocated(u);
    Open(t);
    NodesAreAllocated(t.kids);
    ghost var i := Place(which);
    if i < |t.kids| {
      TreeIsAllocated(t.kids[i]);
    }
    var c := GetArrayItem(parent, which, t.kids);
    if c == null {
      return;
    }
    Exchange(parent, c, item, t, i, u);
    ghost var t' := Tree(parent, t.kids[i := u]);
    AloneIsDeletable(t.kids[i]);
    TreeIsOwn(t');
    TreeIsAllocated(t');
    Delete(heap, c, [t.kids[i]], Own(t.kids[i]));
  }
}
