/** Items by name, and items that borrow from others. */
module JsonTreeNames {
  import opened Bytes
  import opened Memory
  import opened JsonTree
  import opened JsonTreeEdit

  // ---------- names ----------

  /** tolower in the C locale. */
  function Lower(b: byte): byte {
    if 65 <= b <= 90 then b + 32 else b
  }

  /** Names match without regard to case; a missing name matches only a missing name. */
  predicate SameName(s1: CString?, s2: CString?) {
    if s1 == null || s2 == null then s1 == s2
    else |s1.text| == |s2.text| && forall i :: 0 <= i < |s1.text| ==> Lower(s1.text[i]) == Lower(s2.text[i])
  }

  /** Two letters of the alphabet, one small and one capital. */
  predicate IsCasePair(a: byte, b: byte) {
    (65 <= a <= 90 && 97 <= b <= 122 && b as int - a as int == 32)
    || (97 <= a <= 122 && 65 <= b <= 90 && a as int - b as int == 32)
  }

  /** So names match iff they are as long and equal but for the case of letters from A to Z. */
  lemma NamesMatchIff(s1: CString, s2: CString)
    ensures SameName(s1, s2) <==>
      |s1.text| == |s2.text|
      && forall i :: 0 <= i < |s1.text| ==> s1.text[i] == s2.text[i] || IsCasePair(s1.text[i], s2.text[i])
  {
    forall i | 0 <= i < |s1.text| && i < |s2.text|
      ensures Lower(s1.text[i]) == Lower(s2.text[i])
        <==> s1.text[i] == s2.text[i] || IsCasePair(s1.text[i], s2.text[i])
    {
    }
  }

  /** cJSON_strcasecmp, zero iff the names match. */
  method StrCaseCmp(ghost heap: Heap, s1: CString?, s2: CString?) returns (r: int)
    requires Some(s1) + Some(s2) <= heap.live
    ensures r == 0 <==> SameName(s1, s2)
  {
    if s1 == null {
      return if s1 == s2 then 0 else 1;
    }
    if s2 == null {
      return 1;
    }
    var i := 0;
    while Lower(At(s1.text, i)) == Lower(At(s2.text, i))
      invariant 0 <= i <= |s1.text| && i <= |s2.text|
      invariant forall k :: 0 <= k < i ==> Lower(s1.text[k]) == Lower(s2.text[k])
      decreases |s1.text| - i
    {
      if At(s1.text, i) == 0 {
        return 0;
      }
      i := i + 1;
    }
    return (Lower(At(s1.text, i)) as int) - (Lower(At(s2.text, i)) as int);
  }

  /** The place of the first item, from place k on, whose name matches. */
  ghost function PlaceOf(ts: seq<Tree>, s: CString?, k: nat): (i: nat)
    requires k <= |ts|
    reads Roots(ts)`name
    ensures k <= i <= |ts| && (i < |ts| ==> SameName(ts[i].node.name, s))
    ensures forall j :: k <= j < i ==> !SameName(ts[j].node.name, s)
    decreases |ts| - k
  {
    if k == |ts| then k
    else
      assert ts[k].node in Roots(ts);
      if SameName(ts[k].node.name, s) then k else PlaceOf(ts, s, k + 1)
  }

  /** The names on a list can be read. */
  ghost predicate Readable(ts: seq<Tree>, live: set<object>)
    reads Roots(ts)`name
  {
    forall n :: n in Roots(ts) ==> Some(n.name) <= live
  }

  lemma {:induction false} OwnIsReadable(ts: seq<Tree>, live: set<object>)
    requires OwnAll(ts) <= live
    ensures Readable(ts, live)
  {
    hide Nodes, NodesAll;
    if ts != [] {
      NameIsOwn(ts[0]);
      OwnIsReadable(ts[1..], live);
      hide Own, OwnAll;
      forall n | n in Roots(ts) ensures Some(n.name) <= live {
        var i :| 0 <= i < |ts| && ts[i].node == n;
        assert i > 0 ==> ts[1..][i - 1].node == n && n in Roots(ts[1..]);
      }
    }
  }

  /** cJSON_GetObjectItem, and the loop that the edits by name begin with. */
  method GetObjectItem(ghost heap: Heap, parent: Node, s: CString?, ghost ts: seq<Tree>) returns (c: Node?, i: nat)
    requires parent.child == NodeAt(ts, 0) && Linked(ts) && Readable(ts, heap.live) && Some(s) <= heap.live
    ensures i == PlaceOf(ts, s, 0) && c == NodeAt(ts, i)
  {
    c, i := parent.child, 0;
    while c != null
      invariant 0 <= i <= |ts| && c == NodeAt(ts, i) && PlaceOf(ts, s, 0) == PlaceOf(ts, s, i)
      decreases |ts| - i
    {
      assert ts[i].node in Roots(ts);
      var r := StrCaseCmp(heap, c.name, s);
      if r == 0 {
        return;
      }
      assert LinkAt(ts, i);
      c, i := c.next, i + 1;
    }
  }

  /** The function cJSON_DetachItemFromObject. */
  method DetachItemFromObject(ghost heap: Heap, parent: Node, s: CString?, ghost t: Tree) returns (c: Node?)
    requires Owned(t) && t.node == parent && !parent.isReference && Own(t) + Some(s) <= heap.live
    modifies parent`child, Roots(t.kids)`next, Roots(t.kids)`prev
    ensures var i := old(PlaceOf(t.kids, s, 0));
      && c == NodeAt(t.kids, i)
      && (c == null ==> Owned(t) && Own(t) == old(Own(t)))
      && (c != null ==>
            var t' := Tree(parent, Without(t.kids, i));
            && Owned(t') && Owned(t.kids[i]) && Linked([t.kids[i]])
            && Own(t.kids[i]) == old(Own(t.kids[i])) && Own(t') == old(Own(t)) - Own(t.kids[i])
            && Own(t.kids[i]) <= old(Own(t)))
  {
    hide OwnAll, OwnedAll, NodesAll, Below, Owned, Own, Linked, Self, Nodes, Roots, Without;
    Open(t);
    TreeIsAllocated(t);
    NodesAreAllocated(t.kids);
    ghost var place := PlaceOf(t.kids, s, 0);
    if place < |t.kids| {
      TreeIsAllocated(t.kids[place]);
    }
    OwnIsReadable(t.kids, heap.live);
    var item, i := GetObjectItem(heap, parent, s, t.kids);
    if item == null {
      return null;
    }
    c := DetachItemFromArray(parent, i, t);
  }

  /** cJSON_DeleteItemFromObject */
  method DeleteItemFromObject(heap: Heap, parent: Node, s: CString?, ghost t: Tree)
    requires Owned(t) && t.node == parent && !parent.isReference
    requires Own(t) + Some(s) <= heap.live && heap !in Own(t)
    modifies heap`live, parent`child, Roots(t.kids)`next, Roots(t.kids)`prev, OwnAt(t.kids, PlaceOf(t.kids, s, 0))
    ensures var i := old(PlaceOf(t.kids, s, 0));
      if i < |t.kids| then
        var t' := Tree(parent, Without(t.kids, i));
        && Owned(t') && Own(t') == old(Own(t)) - old(Own(t.kids[i]))
        && heap.live == old(heap.live) - old(Own(t.kids[i]))
      else
        Owned(t) && Own(t) == old(Own(t)) && heap.live == old(heap.live)
  {
    hide OwnAll, OwnedAll, NodesAll, Below, Owned, Own, Linked, Self, Nodes, Roots, Without, Deletable;
    LinksAreOwn(t);
    TreeIsAllocated(t);
    ghost var i := PlaceOf(t.kids, s, 0);
    var c := DetachItemFromObject(heap, parent, s, t);
    if c != null {
      ghost var t' := Tree(parent, Without(t.kids, i));
      AloneIsDeletable(t.kids[i]);
      TreeIsOwn(t');
      TreeIsAllocated(t');
      Delete(heap, c, [t.kids[i]], Own(t.kids[i]));
    }
  }

  /** Gives an item a new name; the tree then owns that one instead of the old one. */
  method SetName(item: Node, name: CString, ghost u: Tree)
    requires Owned(u) && u.node == item && name !in Own(u) && item.valuestring != name
    modifies item`name
    ensures item.name == name && Owned(u) && Own(u) == old(Own(u)) - Some(old(item.name)) + {name}
  {
    TreeIsAllocated(u);
    NodesAreOwn(u.kids);
    BelowIsInside(u.kids);
    hide OwnAll, OwnedAll, NodesAll, Below, Linked;
    item.name := name;
  }

  lemma NameIsOwn(u: Tree)
    ensures Some(u.node.name) <= Own(u) && (u.node.name != null ==> u.node.name in Own(u))
  {
    hide OwnAll;
  }

  /** The first half of cJSON_AddItemToObject: a name of its own for the item. The old one is freed before
      the new one is copied. */
  method Rename(heap: Heap, item: Node, s: CString, ghost u: Tree)
    requires Owned(u) && u.node == item && Own(u) <= heap.live && heap !in Own(u) && s in heap.live
    modifies heap, item`name, Some(item.name)
    ensures item.name != null && fresh(item.name)
    ensures s != old(item.name) ==> item.name.text == s.text
    ensures heap.strays == old(heap.strays) + if s == old(item.name) then 1 else 0
    ensures Owned(u) && Own(u) == old(Own(u)) - Some(old(item.name)) + {item.name}
    ensures heap.live == old(heap.live) - Some(old(item.name)) + {item.name}
  {
    hide Owned, Own, Nodes, NodesAll;
    TreeIsAllocated(u);
    NameIsOwn(u);
    if item.name != null {
      heap.Free(item.name);
    }
    assert Owned(u) && Own(u) == old(Own(u)) <= old(heap.live);
    var copy := heap.StrDup(s);
    SetName(item, copy, u);
  }

  /** The function cJSON_AddItemToObject; the item then goes behind the others. It reads a freed string iff
      the name it is given is the one the item has. */
  method AddItemToObject(heap: Heap, parent: Node, s: CString, item: Node?, ghost t: Tree, ghost us: seq<Tree>)
    requires Owned(t) && t.node == parent && !parent.isReference && heap !in Own(t) + OwnAll(us)
    requires |us| <= 1 && OwnedAll(us) && Linked(us) && item == NodeAt(us, 0) && Own(t) !! OwnAll(us)
    requires Own(t) + OwnAll(us) <= heap.live && s in heap.live
    modifies heap, parent`child, Roots(t.kids)`next, Roots(us)`prev, Roots(us)`name
    modifies if item == null then {} else Some(item.name)
    ensures item == null ==> Owned(t) && Own(t) == old(Own(t)) && heap.live == old(heap.live)
    ensures heap.strays == old(heap.strays) + if item != null && s == old(item.name) then 1 else 0
    ensures item != null ==>
      var t' := Tree(parent, t.kids + us);
      && Owned(t') && item.name != null && fresh(item.name)
      && (s != old(item.name) ==> item.name.text == s.text)
      && Own(t') == old(Own(t)) + (old(OwnAll(us)) - Some(old(item.name))) + {item.name}
      && heap.live == old(heap.live) - Some(old(item.name)) + {item.name}
  {
    hide OwnAll, OwnedAll, NodesAll, Below, Owned, Own, Linked, Self, Nodes, Roots;
    if item == null {
      return;
    }
    ghost var u := us[0];
    assert us == [u];
    OwnedAlone(u);
    TreeIsOwn(t);
    TreeIsOwn(u);
    TreeIsAllocated(t);
    LinksAreOwn(t);
    NameIsOwn(u);
    Rename(heap, item, s, u);
    OwnedAlone(u);
    AddItemToArray(parent, item, t, [u]);
  }

  /** The end of cJSON_ReplaceItemInObject: the new item is named, and takes the place of the old one. */
  method ReplaceNamed(heap: Heap, parent: Node, i: nat, s: CString, item: Node, ghost t: Tree, ghost u: Tree)
    requires Owned(t) && t.node == parent && !parent.isReference && i < |t.kids|
    requires Owned(u) && u.node == item && Own(t) !! Own(u)
    requires Own(t) + Own(u) <= heap.live && heap !in Own(t) + Own(u) && s in heap.live
    modifies heap, parent`child, Roots(t.kids)`next, Roots(t.kids)`prev, OwnAt(t.kids, i)
    modifies item`next, item`prev, item`name
    ensures heap.strays == old(heap.strays)
    ensures var t' := Tree(parent, t.kids[i := u]);
      && Owned(t') && item.name != null && fresh(item.name) && item.name.text == s.text
      && Own(t') == old(Own(t)) - old(Own(t.kids[i])) + (old(Own(u)) - Some(old(item.name))) + {item.name}
      && heap.live == old(heap.live) - old(Own(t.kids[i])) + {item.name}
  {
    hide OwnAll, OwnedAll, NodesAll, Below, Owned, Own, Linked, Self, Nodes, Roots;
    TreeIsAllocated(t);
    TreeIsAllocated(u);
    TreeIsOwn(t);
    TreeIsOwn(u);
    LinksAreOwn(t);
    Open(t);
    NodesAreAllocated(t.kids);
    TreeIsAllocated(t.kids[i]);
    CutOut(parent, t.kids, i);
    TreeIsOwn(t.kids[i]);
    var copy := heap.StrDup(s);
    SetName(item, copy, u);
    ReplaceItemInArray(heap, parent, i, item, t, u);
  }

  /** cJSON_ReplaceItemInObject. The name the item had before is not freed: nothing owns it any more, yet it
      stays live. */
  method ReplaceItemInObject(heap: Heap, parent: Node, s: CString, item: Node, ghost t: Tree, ghost u: Tree)
    requires Owned(t) && t.node == parent && !parent.isReference
    requires Owned(u) && u.node == item && Own(t) !! Own(u)
    requires Own(t) + Own(u) <= heap.live && heap !in Own(t) + Own(u) && s in heap.live
    modifies heap, parent`child, Roots(t.kids)`next, Roots(t.kids)`prev, OwnAt(t.kids, PlaceOf(t.kids, s, 0))
    modifies item`next, item`prev, item`name
    ensures heap.strays == old(heap.strays)
    ensures var i := old(PlaceOf(t.kids, s, 0));
      if i < |t.kids| then
        var t' := Tree(parent, t.kids[i := u]);
        && Owned(t') && item.name != null && fresh(item.name) && item.name.text == s.text
        && Own(t') == old(Own(t)) - old(Own(t.kids[i])) + (old(Own(u)) - Some(old(item.name))) + {item.name}
        && heap.live == old(heap.live) - old(Own(t.kids[i])) + {item.name}
      else
        && Owned(t) && Own(t) == old(Own(t)) && Owned(u) && Own(u) == old(Own(u))
        && heap.live == old(heap.live)
  {
    hide OwnAll, OwnedAll, NodesAll, Below, Owned, Own, Linked, Self, Nodes, Roots;
    TreeIsAllocated(t);
    TreeIsAllocated(u);
    Open(t);
    NodesAreAllocated(t.kids);
    ghost var place := PlaceOf(t.kids, s, 0);
    if place < |t.kids| {
      TreeIsAllocated(t.kids[place]);
    }
    OwnIsReadable(t.kids, heap.live);
    var c, i := GetObjectItem(heap, parent, s, t.kids);
    if c != null {
      ReplaceNamed(heap, parent, i, s, item, t, u);
    }
  }

  /** Moving a member from one object to another under the name it has, which is freed and then read. */
  method MoveUnderOwnName(heap: Heap, from: Node, to: Node, s: CString, ghost t: Tree, ghost u: Tree) returns (c: Node?)
    requires Owned(t) && t.node == from && !from.isReference && Owned(u) && u.node == to && !to.isReference
    requires Own(t) !! Own(u) && Own(t) + Own(u) + {s} <= heap.live && heap !in Own(t) + Own(u)
    modifies heap, Own(t), Own(u)
    ensures c == old(NodeAt(t.kids, PlaceOf(t.kids, s, 0)))
    ensures heap.strays == old(heap.strays) + if c == null then 0 else 1
  {
    hide OwnAll, OwnedAll, NodesAll, Below, Owned, Own, Linked, Self, Nodes, Roots, Without;
    ghost var i := PlaceOf(t.kids, s, 0);
    LinksAreOwn(t);
    LinksAreOwn(u);
    TreeIsOwn(u);
    TreeIsAllocated(u);
    c := DetachItemFromObject(heap, from, s, t);
    if c != null {
      OwnedAlone(t.kids[i]);
      NameIsOwn(t.kids[i]);
      TreeIsOwn(t.kids[i]);
      var name := c.name;
      AddItemToObject(heap, to, name, c, u, [t.kids[i]]);
    }
  }

  // ---------- references ----------

  /** create_reference: a nameless copy of an item, on no list, that borrows its children and its text. */
  method CreateReference(heap: Heap, item: Node) returns (ref: Node)
    modifies heap`live
    ensures fresh(ref) && heap.live == old(heap.live) + {ref}
    ensures ref.isReference && ref.kind == item.kind && ref.valueint == item.valueint
    ensures ref.child == item.child && ref.valuestring == item.valuestring
    ensures Owned(Tree(ref, [])) && Own(Tree(ref, [])) == {ref} && Linked([Tree(ref, [])])
  {
    ref := new Node();
    heap.live := heap.live + {ref};
    ref.child, ref.kind, ref.valuestring, ref.valueint := item.child, item.kind, item.valuestring, item.valueint;
    ref.isReference := true;
    ref.name, ref.next, ref.prev := null, null, null;
    assert LinkAt([Tree(ref, [])], 0);
  }

  /** What a reference owns, and so all that deleting it frees, is itself and its name. */
  lemma ReferenceOwnsItself(t: Tree)
    requires Owned(t) && t.node.isReference
    ensures Own(t) == {t.node} + Some(t.node.name)
  {
  }

  /** cJSON_AddItemReferenceToArray */
  method AddItemReferenceToArray(heap: Heap, parent: Node, item: Node, ghost t: Tree) returns (ref: Node)
    requires Owned(t) && t.node == parent && !parent.isReference && Own(t) <= heap.live
    modifies heap`live, parent`child, Roots(t.kids)`next
    ensures fresh(ref) && ref.isReference && ref.kind == old(item.kind) && ref.valueint == old(item.valueint)
    ensures ref.child == old(item.child) && ref.valuestring == old(item.valuestring)
    ensures heap.live == old(heap.live) + {ref}
    ensures var t' := Tree(parent, t.kids + [Tree(ref, [])]); Owned(t') && Own(t') == old(Own(t)) + {ref}
  {
    hide OwnAll, OwnedAll, NodesAll, Below, Owned, Own, Linked, Self, Nodes;
    TreeIsAllocated(t);
    NodesAreAllocated(t.kids);
    ref := CreateReference(heap, item);
    OwnedAlone(Tree(ref, []));
    AddItemToArray(parent, ref, t, [Tree(ref, [])]);
  }
}
