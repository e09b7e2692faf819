/** What a tree in memory stands for. */
module JsonView {
  import opened Bytes
  import opened JsonText
  import opened Memory
  import opened JsonTree

  /** Child and next pointers lead through the tree, into what references borrow as well. */
  ghost predicate Shape(t: Tree)
    reads Nodes(t)`child, NodesAll(t.kids)`next
    decreases t
  {
    RootsAreNodes(t.kids);
    BelowIsInside(t.kids);
    t.node.child == NodeAt(t.kids, 0) && NextLinked(t.kids) && ShapeAll(t.kids)
  }

  ghost predicate ShapeAll(ts: seq<Tree>)
    reads NodesAll(ts)`child, Below(ts)`next
    decreases ts
  {
    ts == [] || (Shape(ts[0]) && ShapeAll(ts[1..]))
  }

  function TextOf(s: CString?): seq<byte> {
    if s == null then [] else s.text
  }

  /** What a node stands for, given its children; those of an array have no names that count. */
  function ValueOf(kind: Kind, n: int, text: seq<byte>, ms: seq<Member>): Json {
    match kind
    case NullKind => Null
    case FalseKind => False
    case TrueKind => True
    case NumberKind => Number(n)
    case StringKind => String(text)
    case ArrayKind => Array(Values(ms))
    case ObjectKind => Object(ms)
  }

  function Values(ms: seq<Member>): seq<Json> {
    if ms == [] then [] else [ms[0].value] + Values(ms[1..])
  }

  ghost function Value(t: Tree): Json
    reads Nodes(t)`kind, Nodes(t)`valueint, Nodes(t)`valuestring, Nodes(t)`name
    decreases t
  {
    ValueOf(t.node.kind, t.node.valueint, TextOf(t.node.valuestring), Items(t.kids))
  }

  /** The children with their names. */
  ghost function Items(ts: seq<Tree>): seq<Member>
    reads NodesAll(ts)`kind, NodesAll(ts)`valueint, NodesAll(ts)`valuestring, NodesAll(ts)`name
    decreases ts
  {
    if ts == [] then [] else [Member(TextOf(ts[0].node.name), Value(ts[0]))] + Items(ts[1..])
  }

  /** All that is read of a tree: its nodes, their texts and their names, borrowed or not. */
  ghost function Reach(t: Tree): set<object>
    reads Nodes(t)`valuestring, Nodes(t)`name
    decreases t
  {
    {t.node} + Some(t.node.valuestring) + Some(t.node.name) + ReachAll(t.kids)
  }

  ghost function ReachAll(ts: seq<Tree>): set<object>
    reads NodesAll(ts)`valuestring, NodesAll(ts)`name
    decreases ts
  {
    if ts == [] then {} else Reach(ts[0]) + ReachAll(ts[1..])
  }

  lemma ReachHasOwn(t: Tree)
    ensures {t.node} + Some(t.node.valuestring) + Some(t.node.name) <= Reach(t)
  {
  }

  lemma {:induction false} ReachHasKid(t: Tree, k: nat)
    requires k < |t.kids|
    ensures Reach(t.kids[k]) <= Reach(t)
  {
    ReachAllHas(t.kids, k);
    hide ReachAll;
  }

  lemma {:induction false} ReachAllHas(ts: seq<Tree>, k: nat)
    requires k < |ts|
    ensures Reach(ts[k]) <= ReachAll(ts)
  {
    hide Reach;
    if k > 0 {
      ReachAllHas(ts[1..], k - 1);
    }
  }

  lemma ValueStep(t: Tree)
    ensures Value(t) == ValueOf(t.node.kind, t.node.valueint, TextOf(t.node.valuestring), Items(t.kids))
    ensures t.kids == [] ==> Items(t.kids) == []
  {
  }

  lemma {:induction false} ItemsConcat(a: seq<Tree>, b: seq<Tree>)
    ensures Items(a + b) == Items(a) + Items(b)
  {
    hide Value;
    if a == [] {
      assert a + b == b;
    } else {
      assert (a + b)[1..] == a[1..] + b;
      ItemsConcat(a[1..], b);
    }
  }

  lemma {:induction false} ShapeConcat(a: seq<Tree>, b: seq<Tree>)
    ensures ShapeAll(a + b) <==> ShapeAll(a) && ShapeAll(b)
  {
    hide Shape;
    if a == [] {
      assert a + b == b;
    } else {
      assert (a + b)[1..] == a[1..] + b;
      ShapeConcat(a[1..], b);
    }
  }

  lemma {:induction false} ItemAt(ts: seq<Tree>, k: nat)
    requires k < |ts|
    ensures |Items(ts)| == |ts| && Items(ts)[k] == Member(TextOf(ts[k].node.name), Value(ts[k]))
    ensures ShapeAll(ts) ==> Shape(ts[k])
  {
    hide Value, Shape;
    ItemsCount(ts);
    if k > 0 {
      ItemAt(ts[1..], k - 1);
    }
  }

  lemma {:induction false} ItemsCount(ts: seq<Tree>)
    ensures |Items(ts)| == |ts|
  {
    hide Value;
    if ts != [] {
      ItemsCount(ts[1..]);
    }
  }
}
