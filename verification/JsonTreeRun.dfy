/** Runs of edits, with the items that are on no list kept at hand: after any sequence of edits nodes, values
    and memory are what the same edits make of plain sequences. */
module JsonTreeRun {
  import opened JsonText
  import opened Memory
  import opened JsonTree
  import opened JsonTreeEdit
  import opened JsonView

  // ---------- edits of sequences ----------

  /** Edits by place; k is the number of a loose item. */
  datatype Edit = Append(k: nat) | Detach(which: int) | Remove(which: int) | Replace(which: int, k: nat)

  /** The items on the list, those its user holds loose, and those that have been deleted. */
  datatype Desk<T> = Desk(kids: seq<T>, loose: seq<T>, gone: seq<T>)

  /** One edit; where there is no such place or no such loose item, none. */
  function Edited<T>(d: Desk<T>, e: Edit): Desk<T> {
    match e
    case Append(k) =>
      if k < |d.loose| then Desk(d.kids + [d.loose[k]], Without(d.loose, k), d.gone) else d
    case Detach(which) =>
      var i := Place(which);
      if i < |d.kids| then Desk(Without(d.kids, i), d.loose + [d.kids[i]], d.gone) else d
    case Remove(which) =>
      var i := Place(which);
      if i < |d.kids| then Desk(Without(d.kids, i), d.loose, d.gone + [d.kids[i]]) else d
    case Replace(which, k) =>
      var i := Place(which);
      if i < |d.kids| && k < |d.loose| then
        Desk(d.kids[i := d.loose[k]], Without(d.loose, k), d.gone + [d.kids[i]])
      else d
  }

  function EditedAll<T>(d: Desk<T>, es: seq<Edit>): Desk<T>
    decreases |es|
  {
    if es == [] then d else EditedAll(Edited(d, es[0]), es[1..])
  }

  ghost function Bag<T>(d: Desk<T>): multiset<T> {
    multiset(d.kids) + multiset(d.loose) + multiset(d.gone)
  }

  lemma WithoutSplits<T>(ts: seq<T>, i: nat)
    requires i < |ts|
    ensures multiset(ts) == multiset(Without(ts, i)) + multiset{ts[i]}
  {
    assert ts == ts[..i] + [ts[i]] + ts[i + 1..];
  }

  lemma UpdateSplits<T>(ts: seq<T>, i: nat, u: T)
    requires i < |ts|
    ensures multiset(ts[i := u]) + multiset{ts[i]} == multiset(ts) + multiset{u}
  {
    var us := ts[i := u];
    WithoutSplits(ts, i);
    WithoutSplits(us, i);
    assert us[..i] == ts[..i] && us[i + 1..] == ts[i + 1..];
  }

  lemma OneMore<T>(ts: seq<T>, u: T)
    ensures multiset(ts + [u]) == multiset(ts) + multiset{u}
  {
  }

  /** An item goes from one sequence to the end of another. */
  lemma Moves<T>(from: seq<T>, i: nat, to: seq<T>)
    requires i < |from|
    ensures multiset(Without(from, i)) + multiset(to + [from[i]]) == multiset(from) + multiset(to)
  {
    WithoutSplits(from, i);
    OneMore(to, from[i]);
    hide Without;
  }

  /** An item goes from b into a, and what was there goes to the end of c. */
  lemma Trades<T>(a: seq<T>, i: nat, b: seq<T>, k: nat, c: seq<T>)
    requires i < |a| && k < |b|
    ensures multiset(a[i := b[k]]) + multiset(Without(b, k)) + multiset(c + [a[i]])
         == multiset(a) + multiset(b) + multiset(c)
  {
    UpdateSplits(a, i, b[k]);
    WithoutSplits(b, k);
    OneMore(c, a[i]);
    hide Without;
  }

  lemma AnyOrder<T>(a: multiset<T>, b: multiset<T>, c: multiset<T>)
    ensures a + b + c == (b + a) + c == (a + c) + b
  {
  }

  lemma EditConserves<T>(d: Desk<T>, e: Edit)
    ensures Bag(Edited(d, e)) == Bag(d)
  {
    var d' := Edited(d, e);
    AnyOrder(multiset(d.kids), multiset(d.loose), multiset(d.gone));
    AnyOrder(multiset(d'.kids), multiset(d'.loose), multiset(d'.gone));
    hide Without;
    match e
    case Append(k) => if k < |d.loose| { Moves(d.loose, k, d.kids); }
    case Detach(which) => if Place(which) < |d.kids| { Moves(d.kids, Place(which), d.loose); }
    case Remove(which) => if Place(which) < |d.kids| { Moves(d.kids, Place(which), d.gone); }
    case Replace(which, k) =>
      if Place(which) < |d.kids| && k < |d.loose| { Trades(d.kids, Place(which), d.loose, k, d.gone); }
  }

  /** No edit makes or loses an item: each is on the list, loose or deleted, and is so once. */
  lemma {:induction false} EditsConserve<T>(d: Desk<T>, es: seq<Edit>)
    ensures Bag(EditedAll(d, es)) == Bag(d)
    decreases |es|
  {
    hide Edited, Bag;
    if es != [] {
      EditConserves(d, es[0]);
      EditsConserve(Edited(d, es[0]), es[1..]);
    }
  }

  /** Taking an item off the list leaves the others where they are, those behind it one place nearer the front; a
      negative place is that of the first. */
  lemma OthersKeepTheirOrder<T>(d: Desk<T>, which: int, e: Edit)
    requires e in {Detach(which), Remove(which)} && which < |d.kids| && d.kids != []
    ensures var i, d' := if which < 0 then 0 else which, Edited(d, e);
      && |d'.kids| == |d.kids| - 1
      && (forall j :: 0 <= j < i ==> d'.kids[j] == d.kids[j])
      && (forall j :: i <= j < |d'.kids| ==> d'.kids[j] == d.kids[j + 1])
      && (if e.Detach? then d'.loose == d.loose + [d.kids[i]] && d'.gone == d.gone
          else d'.loose == d.loose && d'.gone == d.gone + [d.kids[i]])
  {
  }

  /** Detaching an item and appending it again moves it to the end. */
  lemma DetachThenAppend<T>(d: Desk<T>, which: int)
    requires Place(which) < |d.kids|
    ensures EditedAll(d, [Detach(which), Append(|d.loose|)])
         == Desk(Without(d.kids, Place(which)) + [d.kids[Place(which)]], d.loose, d.gone)
  {
    var es := [Detach(which), Append(|d.loose|)];
    assert es[1..] == [Append(|d.loose|)] && es[1..][1..] == [];
    var x := d.kids[Place(which)];
    assert Without(d.loose + [x], |d.loose|) == d.loose;
    assert EditedAll(d, es) == EditedAll(Edited(d, es[0]), es[1..]);
    assert EditedAll(Edited(d, es[0]), es[1..]) == EditedAll(Edited(Edited(d, es[0]), es[1]), []);
  }

  // ---------- items in memory ----------

  /** A tree, what it stands for, and what it owns. */
  datatype Item = Item(tree: Tree, member: Member, own: set<object>)

  ghost predicate Fits(x: Item)
    reads Nodes(x.tree)`kind, Nodes(x.tree)`valueint, Nodes(x.tree)`valuestring, Nodes(x.tree)`name
    reads Nodes(x.tree)`isReference
  {
    Own(x.tree) == x.own && Member(TextOf(x.tree.node.name), Value(x.tree)) == x.member
  }

  ghost function Trees(xs: seq<Item>): (ts: seq<Tree>)
    ensures |ts| == |xs| && forall i :: 0 <= i < |xs| ==> ts[i] == xs[i].tree
  {
    seq(|xs|, i requires 0 <= i < |xs| => xs[i].tree)
  }

  ghost function Members(xs: seq<Item>): (ms: seq<Member>)
    ensures |ms| == |xs| && forall i :: 0 <= i < |xs| ==> ms[i] == xs[i].member
  {
    seq(|xs|, i requires 0 <= i < |xs| => xs[i].member)
  }

  ghost predicate AllLoose(us: seq<Tree>)
    reads Roots(us)`next, Roots(us)`prev
  {
    forall i :: 0 <= i < |us| ==> LooseAt(us, i)
  }

  ghost predicate LooseAt(us: seq<Tree>, i: nat)
    requires i < |us|
    reads us[i].node`next, us[i].node`prev
  {
    us[i].node.next == null && us[i].node.prev == null
  }

  ghost predicate AllFit(xs: seq<Item>)
    reads NodesAll(Trees(xs))`kind, NodesAll(Trees(xs))`valueint, NodesAll(Trees(xs))`valuestring
    reads NodesAll(Trees(xs))`name, NodesAll(Trees(xs))`isReference
  {
    forall i :: 0 <= i < |xs| ==> FitAt(xs, i)
  }

  ghost predicate FitAt(xs: seq<Item>, i: nat)
    requires i < |xs|
    reads NodesAll(Trees(xs))`kind, NodesAll(Trees(xs))`valueint, NodesAll(Trees(xs))`valuestring
    reads NodesAll(Trees(xs))`name, NodesAll(Trees(xs))`isReference
  {
    NodesOfOne(Trees(xs), i);
    Fits(xs[i])
  }

  lemma {:induction false} NodesOfOne(ts: seq<Tree>, i: nat)
    requires i < |ts|
    ensures Nodes(ts[i]) <= NodesAll(ts)
  {
    hide Nodes;
    if i > 0 {
      NodesOfOne(ts[1..], i - 1);
    }
  }

  /** An array or object and the loose items, which together own exactly own: the list is doubly linked, each
      item owns and stands for what it is said to, and each loose one is on no list. */
  ghost predicate Laid(parent: Node, d: Desk<Item>, own: set<object>)
    reads own
  {
    var t, us := Tree(parent, Trees(d.kids)), Trees(d.loose);
    RootsAreNodes(us);
    BelowIsInside(us);
    && parent in own && (forall n :: n in NodesAll(t.kids) ==> n in own) && (forall n :: n in NodesAll(us) ==> n in own)
    && (forall n :: n in Nodes(t) ==> n in own)
    && Owned(t) && !parent.isReference && OwnedAll(us) && Own(t) !! OwnAll(us) && own == Own(t) + OwnAll(us)
    && AllLoose(us) && AllFit(d.kids) && AllFit(d.loose)
  }

  /** What deleted items owned. */
  ghost function Gone(xs: seq<Item>): set<object> {
    if xs == [] then {} else Gone(xs[..|xs| - 1]) + xs[|xs| - 1].own
  }

  /** What an edit frees. */
  ghost function Freed(d: Desk<Item>, e: Edit): set<object> {
    match e
    case Remove(which) => if Place(which) < |d.kids| then d.kids[Place(which)].own else {}
    case Replace(which, k) => if Place(which) < |d.kids| && k < |d.loose| then d.kids[Place(which)].own else {}
    case _ => {}
  }

  lemma GoneStep(d: Desk<Item>, e: Edit)
    ensures Gone(Edited(d, e).gone) == Gone(d.gone) + Freed(d, e)
  {
    var gone := Edited(d, e).gone;
    assert gone != d.gone ==> gone[..|gone| - 1] == d.gone;
    hide Without;
  }

  lemma LaidAgain(parent: Node, d: Desk<Item>)
    requires var t, us := Tree(parent, Trees(d.kids)), Trees(d.loose);
      Owned(t) && !parent.isReference && OwnedAll(us) && Own(t) !! OwnAll(us)
    requires AllLoose(Trees(d.loose)) && AllFit(d.kids) && AllFit(d.loose)
    ensures Laid(parent, d, Own(Tree(parent, Trees(d.kids))) + OwnAll(Trees(d.loose)))
  {
    var t, us := Tree(parent, Trees(d.kids)), Trees(d.loose);
    TreeIsOwn(t);
    NodesAreOwn(us);
    assert parent in Nodes(t) && NodesAll(t.kids) <= Nodes(t);
    hide Owned, Own, Nodes, NodesAll, OwnedAll, OwnAll, Below, AllLoose, AllFit;
  }

  /** A loose item and the others. */
  lemma TakeLoose(parent: Node, d: Desk<Item>, own: set<object>, k: nat)
    requires Laid(parent, d, own) && k < |d.loose|
    ensures var t, u, rest := Tree(parent, Trees(d.kids)), d.loose[k].tree, Trees(Without(d.loose, k));
      && Owned(t) && !parent.isReference && Owned(u) && Linked([u]) && OwnedAll(rest)
      && own == Own(t) + Own(u) + OwnAll(rest) && Own(u) == d.loose[k].own
      && Own(t) !! Own(u) && Own(t) + Own(u) !! OwnAll(rest)
      && (forall n :: n in NodesAll(rest) ==> n !in Own(t) + Own(u))
      && (forall n :: n in Below(rest) ==> n !in Own(t) + Own(u))
      && (forall n :: n in Roots(rest) ==> n !in Own(t) + Own(u))
      && AllLoose(rest) && AllFit(d.kids) && AllFit(Without(d.loose, k)) && Fits(d.loose[k])
  {
    var us, rest := Trees(d.loose), Trees(Without(d.loose, k));
    var a, b := us[..k], us[k + 1..];
    assert rest == a + b && us[k] == d.loose[k].tree;
    ParentIsOwn(parent, d.kids);
    CutOut(parent, us, k);
    OwnedConcat(a, b);
    OwnConcat(a, b);
    NodesAreOwn(rest);
    BelowIsInside(rest);
    RootsAreNodes(rest);
    FitWithout(d.loose, k);
    hide Owned, Own, Nodes, NodesAll, OwnedAll, OwnAll, Below, Roots, AllFit, FitAt, Without;
    LooseStay(us, k);
    FitOne(d.loose, k);
  }

  lemma ParentIsOwn(parent: Node, kids: seq<Item>)
    ensures Self(parent) <= Own(Tree(parent, Trees(kids)))
  {
  }

  lemma FitOne(xs: seq<Item>, k: nat)
    requires AllFit(xs) && k < |xs|
    ensures Fits(xs[k]) && Own(xs[k].tree) == xs[k].own
  {
    hide Own, Value;
    assert FitAt(xs, k);
  }

  lemma LooseStay(us: seq<Tree>, k: nat)
    requires AllLoose(us) && k < |us|
    ensures AllLoose(us[..k] + us[k + 1..]) && Linked([us[k]])
  {
    var rest := us[..k] + us[k + 1..];
    assert LooseAt(us, k);
    assert LinkAt([us[k]], 0);
    forall i | 0 <= i < |rest| ensures LooseAt(rest, i) {
      assert LooseAt(us, if i < k then i else i + 1);
    }
  }

  lemma FitWithout(xs: seq<Item>, k: nat)
    requires AllFit(xs) && k < |xs|
    ensures AllFit(Without(xs, k))
  {
    hide Fits, NodesAll;
    var rest := Without(xs, k);
    forall i | 0 <= i < |rest| ensures FitAt(rest, i) {
      assert FitAt(xs, if i < k then i else i + 1);
    }
  }

  lemma FitAppend(xs: seq<Item>, x: Item)
    requires AllFit(xs) && Fits(x)
    ensures AllFit(xs + [x])
  {
    hide Fits, NodesAll;
    var all := xs + [x];
    forall i | 0 <= i < |all| ensures FitAt(all, i) {
      assert i < |xs| ==> FitAt(xs, i);
    }
  }

  lemma FitUpdate(xs: seq<Item>, k: nat, x: Item)
    requires AllFit(xs) && k < |xs| && Fits(x)
    ensures AllFit(xs[k := x])
  {
    hide Fits, NodesAll;
    var all := xs[k := x];
    forall i | 0 <= i < |all| ensures FitAt(all, i) {
      assert i != k ==> FitAt(xs, i);
    }
  }

  lemma TreesAfter(xs: seq<Item>, x: Item, i: nat)
    ensures Trees(xs + [x]) == Trees(xs) + [x.tree]
    ensures i < |xs| ==> Trees(Without(xs, i)) == Without(Trees(xs), i) && Trees(xs[i := x]) == Trees(xs)[i := x.tree]
  {
  }

  method ApplyAppend(parent: Node, item: Node, k: nat, ghost d: Desk<Item>, ghost own: set<object>)
    requires Laid(parent, d, own) && k < |d.loose| && item == d.loose[k].tree.node
    modifies own
    ensures Laid(parent, Desk(d.kids + [d.loose[k]], Without(d.loose, k), d.gone), own)
  {
    hide Laid, Owned, Own, Nodes, OwnedAll, OwnAll, NodesAll, Below, Linked, Self, Fits, AllFit, AllLoose, Without;
    hide Roots, Trees;
    ghost var t, x, u := Tree(parent, Trees(d.kids)), d.loose[k], d.loose[k].tree;
    ghost var d' := Desk(d.kids + [x], Without(d.loose, k), d.gone);
    ghost var rest := Trees(d'.loose);
    TreesAfter(d.kids, x, 0);
    TakeLoose(parent, d, own, k);
    LinksAreOwn(t);
    TreeIsOwn(u);
    OwnedAlone(u);
    NodesAreAllocated(t.kids);
    NodesAreAllocated(rest);
    TreeIsAllocated(u);
    AddItemToArray(parent, item, t, [u]);
    FitAppend(d.kids, x);
    LaidAgain(parent, d');
    assert Own(Tree(parent, Trees(d'.kids))) + OwnAll(Trees(d'.loose)) == own;
  }

  /** The tree, and the loose items beside it. */
  lemma OnDesk(parent: Node, d: Desk<Item>, own: set<object>)
    requires Laid(parent, d, own)
    ensures var t, us := Tree(parent, Trees(d.kids)), Trees(d.loose);
      && Owned(t) && !parent.isReference && OwnedAll(us) && Own(t) !! OwnAll(us) && own == Own(t) + OwnAll(us)
      && (forall n :: n in NodesAll(us) ==> n !in Own(t))
      && (forall n :: n in Below(us) ==> n !in Own(t))
      && (forall n :: n in Roots(us) ==> n !in Own(t))
      && AllLoose(us) && AllFit(d.kids) && AllFit(d.loose)
  {
    var us := Trees(d.loose);
    NodesAreOwn(us);
    BelowIsInside(us);
    RootsAreNodes(us);
    hide Owned, Own, Nodes, NodesAll, OwnedAll, OwnAll, Below, Roots, AllFit, Without, Trees;
  }

  /** An item of the list and the others. */
  lemma TakeKid(parent: Node, d: Desk<Item>, own: set<object>, i: nat)
    requires Laid(parent, d, own) && i < |d.kids|
    ensures var y := d.kids[i];
      && Own(y.tree) == y.own <= Own(Tree(parent, Trees(d.kids))) && Fits(y)
      && parent !in y.own && (forall n :: n in NodesAll(Trees(Without(d.kids, i))) ==> n !in y.own)
      && AllFit(Without(d.kids, i))
  {
    hide Owned, Own, Nodes, NodesAll, OwnedAll, OwnAll, Below, Roots, AllFit, Without, Trees;
    OthersStay(Tree(parent, Trees(d.kids)), i);
    TreesAfter(d.kids, d.kids[i], i);
    FitOne(d.kids, i);
    FitWithout(d.kids, i);
  }

  /** What goes with an item leaves the others alone. */
  lemma OthersStay(t: Tree, i: nat)
    requires Owned(t) && !t.node.isReference && i < |t.kids|
    ensures forall n :: n in NodesAll(Without(t.kids, i)) ==> n !in Own(t.kids[i])
    ensures t.node !in Own(t.kids[i]) && Own(t.kids[i]) <= Own(t)
  {
    var a, b := t.kids[..i], t.kids[i + 1..];
    Open(t);
    CutOut(t.node, t.kids, i);
    OwnConcat(a, b);
    NodesAreOwn(a);
    NodesAreOwn(b);
    assert t.node in Self(t.node);
    hide Owned, Own, Nodes, OwnedAll, OwnAll, NodesAll, Below, Linked, Self;
  }

  lemma LooseAppend(us: seq<Tree>, u: Tree)
    requires OwnedAll(us) && Owned(u) && OwnAll(us) !! Own(u) && AllLoose(us) && Linked([u])
    ensures OwnedAll(us + [u]) && OwnAll(us + [u]) == OwnAll(us) + Own(u) && AllLoose(us + [u])
  {
    OwnedAlone(u);
    OwnedConcat(us, [u]);
    OwnConcat(us, [u]);
    hide Owned, Own, OwnedAll, OwnAll;
    assert LinkAt([u], 0);
    var all := us + [u];
    forall i | 0 <= i < |all| ensures LooseAt(all, i) {
      assert i < |us| ==> LooseAt(us, i);
    }
  }

  method ApplyDetach(parent: Node, which: int, ghost d: Desk<Item>, ghost own: set<object>) returns (c: Node?)
    requires Laid(parent, d, own)
    modifies own
    ensures c == if Place(which) < |d.kids| then d.kids[Place(which)].tree.node else null
    ensures Laid(parent, Edited(d, Detach(which)), own)
  {
    hide Laid, Owned, Own, Nodes, OwnedAll, OwnAll, NodesAll, Below, Linked, Self, Fits, AllFit, AllLoose, Without;
    hide Roots, Trees;
    ghost var i, d' := Place(which), Edited(d, Detach(which));
    ghost var t, us := Tree(parent, Trees(d.kids)), Trees(d.loose);
    OnDesk(parent, d, own);
    LinksAreOwn(t);
    NodesAreAllocated(t.kids);
    NodesAreAllocated(us);
    if i < |d.kids| {
      TreesAfter(d.kids, d.kids[i], i);
      TreesAfter(d.loose, d.kids[i], 0);
      TakeKid(parent, d, own, i);
      NodesAreAllocated(Trees(d'.kids));
      TreeIsAllocated(d.kids[i].tree);
    }
    c := DetachItemFromArray(parent, which, t);
    if c != null {
      LooseAppend(us, t.kids[i]);
      FitAppend(d.loose, d.kids[i]);
    }
    LaidAgain(parent, d');
    assert Own(Tree(parent, Trees(d'.kids))) + OwnAll(Trees(d'.loose)) == own;
  }

  method ApplyRemove(heap: Heap, parent: Node, which: int, ghost d: Desk<Item>, ghost own: set<object>)
    requires Laid(parent, d, own) && own <= heap.live && heap !in own
    modifies heap`live, own
    ensures Laid(parent, Edited(d, Remove(which)), own - Freed(d, Remove(which)))
    ensures heap.live == old(heap.live) - Freed(d, Remove(which))
  {
    hide Laid, Owned, Own, Nodes, OwnedAll, OwnAll, NodesAll, Below, Linked, Self, Fits, AllFit, AllLoose, Without;
    hide Roots, Trees;
    ghost var i, d' := Place(which), Edited(d, Remove(which));
    ghost var t, us := Tree(parent, Trees(d.kids)), Trees(d.loose);
    OnDesk(parent, d, own);
    LinksAreOwn(t);
    NodesAreAllocated(t.kids);
    NodesAreAllocated(us);
    if i < |d.kids| {
      TreesAfter(d.kids, d.kids[i], i);
      TakeKid(parent, d, own, i);
      NodesAreAllocated(Trees(d'.kids));
    }
    DeleteItemFromArray(heap, parent, which, t);
    LaidAgain(parent, d');
    assert Own(Tree(parent, Trees(d'.kids))) + OwnAll(Trees(d'.loose)) == own - Freed(d, Remove(which));
  }

  lemma NewOnesStay(t: Tree, i: nat, u: Tree)
    requires Owned(t) && !t.node.isReference && i < |t.kids| && Owned(u) && Own(t) !! Own(u)
    ensures forall n :: n in NodesAll(t.kids[i := u]) ==> n !in Own(t.kids[i])
  {
    var a, b := t.kids[..i], t.kids[i + 1..];
    OthersStay(t, i);
    assert t.kids[i := u] == a + ([u] + b);
    OwnConcat(a, [u] + b);
    OwnConcat([u], b);
    OwnConcat(a, b);
    OwnedAlone(u);
    TreeIsOwn(u);
    hide Owned, Own, Nodes, OwnedAll, OwnAll, NodesAll, Below, Linked, Self;
  }

  method ApplyReplace(heap: Heap, parent: Node, which: int, item: Node, k: nat, ghost d: Desk<Item>,
                      ghost own: set<object>)
    requires Laid(parent, d, own) && Place(which) < |d.kids| && k < |d.loose| && item == d.loose[k].tree.node
    requires own <= heap.live && heap !in own
    modifies heap`live, own
    ensures Laid(parent, Edited(d, Replace(which, k)), own - Freed(d, Replace(which, k)))
    ensures heap.live == old(heap.live) - Freed(d, Replace(which, k))
  {
    hide Laid, Owned, Own, Nodes, OwnedAll, OwnAll, NodesAll, Below, Linked, Self, Fits, AllFit, AllLoose, Without;
    hide Roots, Trees;
    ghost var i, d' := Place(which), Edited(d, Replace(which, k));
    ghost var t, us, x := Tree(parent, Trees(d.kids)), Trees(d.loose), d.loose[k];
    ghost var u, rest := x.tree, Trees(Without(d.loose, k));
    OnDesk(parent, d, own);
    TakeLoose(parent, d, own, k);
    LinksAreOwn(t);
    TreeIsOwn(u);
    NodesAreAllocated(t.kids);
    NodesAreAllocated(us);
    NodesAreAllocated(rest);
    if i < |d.kids| {
      TreesAfter(d.kids, x, i);
      TakeKid(parent, d, own, i);
      NewOnesStay(t, i, u);
      FitUpdate(d.kids, i, x);
      NodesAreAllocated(Trees(d'.kids));
    }
    ReplaceItemInArray(heap, parent, which, item, t, u);
    LaidAgain(parent, d');
    assert Own(Tree(parent, Trees(d'.kids))) + OwnAll(Trees(d'.loose)) == own - Freed(d, Replace(which, k));
  }

  // ---------- runs ----------

  ghost function NodesOf(xs: seq<Item>): (ns: seq<Node>)
    ensures |ns| == |xs| && forall i :: 0 <= i < |xs| ==> ns[i] == xs[i].tree.node
  {
    seq(|xs|, i requires 0 <= i < |xs| => xs[i].tree.node)
  }

  lemma NodesAfter(xs: seq<Item>, x: Item, i: nat)
    ensures NodesOf(xs + [x]) == NodesOf(xs) + [x.tree.node]
    ensures i < |xs| ==> NodesOf(Without(xs, i)) == Without(NodesOf(xs), i)
  {
  }

  /** Is there such a place? */
  method Look(parent: Node, which: int, ghost d: Desk<Item>, ghost own: set<object>) returns (c: Node?)
    requires Laid(parent, d, own)
    ensures c == if Place(which) < |d.kids| then d.kids[Place(which)].tree.node else null
  {
    hide Laid, Owned, Own, OwnedAll, OwnAll, Linked, Self;
    OnDesk(parent, d, own);
    Open(Tree(parent, Trees(d.kids)));
    c := GetArrayItem(parent, which, Trees(d.kids));
  }

  /** One edit, by the function that makes it; loose are the nodes of the loose items. */
  method Apply(heap: Heap, parent: Node, e: Edit, loose: seq<Node>, ghost d: Desk<Item>, ghost own: set<object>)
    returns (left: seq<Node>)
    requires Laid(parent, d, own) && loose == NodesOf(d.loose) && own <= heap.live && heap !in own
    modifies heap`live, own
    ensures Laid(parent, Edited(d, e), own - Freed(d, e)) && left == NodesOf(Edited(d, e).loose)
    ensures heap.live == old(heap.live) - Freed(d, e)
  {
    hide Laid, Without;
    left := loose;
    assert own - {} == own && heap.live - {} == heap.live;
    match e
    case Append(k) =>
      if k < |loose| {
        NodesAfter(d.loose, d.loose[k], k);
        ApplyAppend(parent, loose[k], k, d, own);
        left := Without(loose, k);
      }
    case Detach(which) =>
      var c := ApplyDetach(parent, which, d, own);
      if c != null {
        NodesAfter(d.loose, d.kids[Place(which)], 0);
        left := loose + [c];
      }
    case Remove(which) =>
      ApplyRemove(heap, parent, which, d, own);
    case Replace(which, k) =>
      var c := Look(parent, which, d, own);
      if c != null && k < |loose| {
        NodesAfter(d.loose, d.loose[k], k);
        ApplyReplace(heap, parent, which, loose[k], k, d, own);
        left := Without(loose, k);
      }
  }

  /** Any sequence of edits, items detached and put back included: list and loose items are what the same edits
      make of plain sequences, each still owned, well linked and standing for what it stood for; and exactly
      what the deleted items owned has been freed. */
  method Run(heap: Heap, parent: Node, es: seq<Edit>, loose: seq<Node>, ghost d: Desk<Item>, ghost own: set<object>)
    returns (left: seq<Node>)
    requires Laid(parent, d, own) && d.gone == [] && loose == NodesOf(d.loose) && own <= heap.live && heap !in own
    modifies heap`live, own
    ensures var d' := EditedAll(d, es);
      && Laid(parent, d', own - Gone(d'.gone)) && left == NodesOf(d'.loose)
      && heap.live == old(heap.live) - Gone(d'.gone)
  {
    hide Laid, Edited, Gone, Freed;
    left := loose;
    ghost var now, cur := own, d;
    NothingGone();
    assert es[0..] == es;
    var i := 0;
    while i < |es|
      invariant 0 <= i <= |es| && EditedAll(cur, es[i..]) == EditedAll(d, es)
      invariant Laid(parent, cur, now) && now == own - Gone(cur.gone) && left == NodesOf(cur.loose)
      invariant heap.live == old(heap.live) - Gone(cur.gone)
    {
      assert es[i..][0] == es[i] && es[i..][1..] == es[i + 1..];
      GoneStep(cur, es[i]);
      left := Apply(heap, parent, es[i], left, cur, now);
      now, cur := now - Freed(cur, es[i]), Edited(cur, es[i]);
      i := i + 1;
    }
  }

  lemma NothingGone()
    ensures Gone([]) == {}
  {
  }

  /** Values follow the nodes: the members on the list are what the same edits make of the sequence of members. */
  lemma {:induction false} MembersFollow(d: Desk<Item>, es: seq<Edit>)
    ensures var d' := EditedAll(d, es);
      Desk(Members(d'.kids), Members(d'.loose), Members(d'.gone))
      == EditedAll(Desk(Members(d.kids), Members(d.loose), Members(d.gone)), es)
    decreases |es|
  {
    hide Edited;
    if es != [] {
      MembersFollowOne(d, es[0]);
      MembersFollow(Edited(d, es[0]), es[1..]);
    }
  }

  lemma MembersFollowOne(d: Desk<Item>, e: Edit)
    ensures var d' := Edited(d, e);
      Desk(Members(d'.kids), Members(d'.loose), Members(d'.gone))
      == Edited(Desk(Members(d.kids), Members(d.loose), Members(d.gone)), e)
  {
    var d', m' := Edited(d, e), Edited(Desk(Members(d.kids), Members(d.loose), Members(d.gone)), e);
    assert Members(d'.kids) == m'.kids;
    assert Members(d'.loose) == m'.loose;
    assert Members(d'.gone) == m'.gone;
  }

  /** And they are what the list in memory stands for. */
  lemma ListShowsMembers(parent: Node, d: Desk<Item>, own: set<object>)
    requires Laid(parent, d, own)
    ensures Items(Trees(d.kids)) == Members(d.kids)
  {
    var ts := Trees(d.kids);
    ItemsCount(ts);
    hide Owned, Own, OwnedAll, OwnAll, Items, Value;
    forall i | 0 <= i < |ts| ensures Items(ts)[i] == Members(d.kids)[i] {
      ItemAt(ts, i);
      assert FitAt(d.kids, i);
    }
  }
}
