/** The entry points of cJSON: parse a text, print a tree. */
module JsonApi {
  import opened Bytes
  import opened JsonText
  import opened Memory
  import opened JsonTree
  import opened JsonView
  import opened JsonBuild
  import opened JsonScan
  import opened JsonParser
  import opened JsonPrinter
  import opened JsonPrintTree
  import JsonRoundTrip

  /** cJSON_ParseWithOpts: a new tree for the value of the text, or nothing, and then nothing is left
      allocated either. end is where reading stopped, ep where the error is. */
  method ParseWithOpts(heap: Heap, s: seq<byte>, terminated: bool)
    returns (c: Node?, end: int, ep: nat, ghost t: Tree, ghost own: set<object>)
    requires !ParseText(s, terminated).Outside?
    modifies heap`live
    ensures Ends(ParseText(s, terminated), s, end, ep)
    ensures c == null <==> ParseText(s, terminated).Fail?
    ensures c == null ==> heap.live == old(heap.live)
    ensures c != null ==>
      && c == t.node && fresh(own) && heap.live == old(heap.live) + own
      && BuiltItem(t, Member([], ParseText(s, terminated).value), own)
  {
    hide ParseValue, Skip, Built, Filled, Content, Grown;
    var node := new Node();
    heap.live := heap.live + {node};
    var i := SkipBlanks(s, 0);
    assert s[0..] == s;
    ghost var kids, ms, mine;
    end, ep, kids, ms, mine := ParseItem(heap, node, s, i);
    c, t, own := node, Tree(node, kids), {node} + mine;
    FilledAlone(node, kids, ms, mine);
    if end >= 0 && terminated {
      end := SkipBlanks(s, end);
      if At(s, end) != 0 {
        end, ep := -1, end;
      }
    }
    if end < 0 {
      BuiltIsDeletable([t], [Member([], Content(node, ms))], own);
      Delete(heap, c, [t], own);
      c := null;
    }
  }

  lemma FilledAlone(item: Node, kids: seq<Tree>, ms: seq<Member>, mine: set<object>)
    requires Filled(item, kids, ms, mine) && item !in mine
    requires item.name == null && item.next == null && item.prev == null
    ensures BuiltItem(Tree(item, kids), Member([], Content(item, ms)), {item} + mine)
  {
    hide Built;
    var text := Some(item.valuestring);
    Finish(item, kids, ms, mine - text);
    assert Self(item) + (mine - text) == {item} + mine;
    ValueStep(Tree(item, kids));
    BuiltItems(kids, ms, mine - text);
  }

  lemma BuiltIsDeletable(ts: seq<Tree>, ms: seq<Member>, own: set<object>)
    requires Built(ts, ms, own)
    ensures Deletable(ts, own)
  {
    hide NodesAll, OwnedAll, OwnAll, ShapeAll, Items;
    forall i | 0 <= i < |ts| ensures NextAt(ts, i) {
      assert LinkAt(ts, i);
    }
  }

  /** cJSON_Print and cJSON_PrintUnformatted: all but the text that is returned is freed again. */
  method Print(heap: Heap, item: Node, fmt: bool, ghost t: Tree) returns (out: array<byte>)
    requires item == t.node && Shape(t) && Named(t) && Reach(t) <= heap.live
    modifies heap`live
    ensures fresh(out) && Holds(out, PrintValue(old(Value(t)), 0, fmt)) && heap.live == old(heap.live) + {out}
  {
    out := PrintItem(heap, item, 0, fmt, t, Items(t.kids));
  }

  /** A tree printed, parsed again, and the text freed: a new tree, sharing nothing with the first, for the
      same value. */
  method PrintAndParse(heap: Heap, item: Node, fmt: bool, terminated: bool, ghost t: Tree)
    returns (c: Node?, ghost t': Tree, ghost own: set<object>)
    requires item == t.node && Shape(t) && Named(t) && Reach(t) <= heap.live
    modifies heap`live
    ensures c != null && c == t'.node && fresh(own) && BuiltItem(t', Member([], old(Value(t))), own)
    ensures heap.live == old(heap.live) + own
  {
    hide Shape, Named, Value, PrintValue, ParseText, Built;
    ghost var v := Value(t);
    NamedIsPrintable(t);
    JsonRoundTrip.PrintThenParse(v, fmt, terminated);
    var out := Print(heap, item, fmt, t);
    var n := StrLen(out, PrintValue(v, 0, fmt));
    var end: int, ep: nat;
    c, end, ep, t', own := ParseWithOpts(heap, out[..n], terminated);
    heap.Free(out);
  }
}
