/** cJSON_Print on trees in memory: the text is the one the value has. */
module JsonPrintTree {
  import opened Bytes
  import opened JsonText
  import opened Memory
  import opened JsonTree
  import opened JsonView
  import opened JsonPrinter

  // ---------- printed texts are C strings ----------

  lemma {:induction false} EscapeIsNulFree(s: seq<byte>)
    requires NulFree(s)
    ensures NulFree(Escape(s))
  {
    if s != [] {
      EscapeIsNulFree(s[1..]);
    }
  }

  lemma {:induction false} TabsAreNulFree(k: int)
    ensures NulFree(Tabs(k))
  {
    if k > 0 {
      TabsAreNulFree(k - 1);
    }
  }

  lemma {:induction false} PrintIsNulFree(v: Json, depth: nat, fmt: bool)
    requires Printable(v)
    ensures NulFree(PrintValue(v, depth, fmt))
    decreases v, 1
  {
    match v
    case Number(n) =>
      NumberIsShort(n);
      hide PrintNumber;
    case String(s) =>
      EscapeIsNulFree(s);
      hide Escape;
    case Array(items) =>
      if items != [] {
        ItemsAreNulFree(items, depth + 1, fmt);
        hide PrintItems;
      }
    case Object(ms) =>
      if ms != [] {
        MembersAreNulFree(ms, depth + 1, fmt);
      }
      ObjectIsNulFree(ms, depth, fmt);
      hide PrintMembers, Tabs, When;
    case _ =>
  }

  lemma ObjectIsNulFree(ms: seq<Member>, depth: nat, fmt: bool)
    requires ms != [] ==> NulFree(PrintMembers(ms, depth + 1, fmt))
    ensures NulFree(PrintValue(Object(ms), depth, fmt))
  {
    TabsAreNulFree(depth);
    TabsAreNulFree(depth - 1);
    hide PrintMembers, Tabs;
  }

  lemma {:induction false} ItemsAreNulFree(items: seq<Json>, depth: nat, fmt: bool)
    requires items != [] && forall i :: 0 <= i < |items| ==> Printable(items[i])
    ensures NulFree(PrintItems(items, depth, fmt))
    decreases items, 0
  {
    PrintIsNulFree(items[0], depth, fmt);
    if |items| > 1 {
      ItemsAreNulFree(items[1..], depth, fmt);
    }
    hide PrintValue;
  }

  lemma {:induction false} MembersAreNulFree(ms: seq<Member>, depth: nat, fmt: bool)
    requires ms != [] && forall i :: 0 <= i < |ms| ==> NulFree(ms[i].name) && Printable(ms[i].value)
    ensures NulFree(PrintMembers(ms, depth, fmt))
    decreases ms, 0
  {
    PrintIsNulFree(ms[0].value, depth, fmt);
    MemberIsNulFree(ms[0], depth, fmt);
    if |ms| > 1 {
      MembersAreNulFree(ms[1..], depth, fmt);
    }
    hide PrintMember;
  }

  lemma MemberIsNulFree(m: Member, depth: nat, fmt: bool)
    requires NulFree(m.name) && NulFree(PrintValue(m.value, depth, fmt))
    ensures NulFree(PrintMember(m, depth, fmt))
  {
    EscapeIsNulFree(m.name);
    TabsAreNulFree(depth);
    hide PrintValue, Escape, Tabs;
  }

  /** What the printer accepts stands for a value that can be read back. */
  lemma {:induction false} NamedIsPrintable(t: Tree)
    requires Named(t)
    ensures Printable(Value(t))
    decreases t, 1
  {
    NamedItems(t.kids, t.node.kind == ObjectKind);
    ValuesAt(Items(t.kids));
    hide Items;
  }

  lemma {:induction false} NamedItems(ts: seq<Tree>, members: bool)
    requires NamedAll(ts, members)
    ensures forall m :: m in Items(ts) ==> NulFree(m.name) && Printable(m.value)
    decreases ts, 0
  {
    if ts != [] {
      NamedIsPrintable(ts[0]);
      NamedItems(ts[1..], members);
      hide Value, Named, Printable;
    }
  }

  lemma {:induction false} ValuesAt(ms: seq<Member>)
    ensures |Values(ms)| == |ms| && forall i :: 0 <= i < |ms| ==> Values(ms)[i] == ms[i].value
  {
    if ms != [] {
      ValuesAt(ms[1..]);
    }
  }

  // ---------- print_value ----------

  /** What is asked of a tree that is printed. */
  ghost predicate Prints(t: Tree, ms: seq<Member>)
    reads Nodes(t)
  {
    RootsAreNodes(t.kids);
    BelowIsInside(t.kids);
    Shape(t) && Named(t) && Items(t.kids) == ms
  }

  lemma ChildPrints(t: Tree, ms: seq<Member>, k: nat)
    requires Prints(t, ms) && k < |t.kids|
    ensures |ms| == |t.kids| && NextAt(t.kids, k) && Prints(t.kids[k], Items(t.kids[k].kids))
    ensures ms[k] == Member(TextOf(t.kids[k].node.name), Value(t.kids[k]))
    ensures NulFree(ms[k].name) && Printable(ms[k].value)
    ensures t.node.kind == ObjectKind ==> t.kids[k].node.name != null
  {
    ItemAt(t.kids, k);
    NamedAt(t.kids, t.node.kind == ObjectKind, k);
    NamedIsPrintable(t.kids[k]);
    hide Value, Items, ShapeAll, NamedAll, Printable;
  }

  lemma {:induction false} NamedAt(ts: seq<Tree>, members: bool, k: nat)
    requires NamedAll(ts, members) && k < |ts|
    ensures Named(ts[k]) && (members ==> ts[k].node.name != null)
  {
    if k > 0 {
      NamedAt(ts[1..], members, k - 1);
    }
    hide Named;
  }

  /** print_value: a buffer that holds the printed value. */
  method PrintItem(heap: Heap, item: Node, depth: nat, fmt: bool, ghost t: Tree, ghost ms: seq<Member>)
    returns (out: array<byte>)
    requires item == t.node && Prints(t, ms) && Reach(t) <= heap.live
    modifies heap`live
    ensures fresh(out) && Holds(out, PrintValue(old(Value(t)), depth, fmt)) && heap.live == old(heap.live) + {out}
    decreases t, 2
  {
    ReachHasOwn(t);
    hide Reach, Shape, Named, Items, PrintNumber, PrintString, PrintItems, PrintMembers, Tabs, Holds;
    ValueStep(t);
    match item.kind
    case NullKind => out := DupText(heap, NULL_TEXT);
    case FalseKind => out := DupText(heap, FALSE_TEXT);
    case TrueKind => out := DupText(heap, TRUE_TEXT);
    case NumberKind =>
      NamedLeaf(t);
      out := PrintInt(heap, item.valueint);
    case StringKind =>
      NamedLeaf(t);
      out := PrintStringPtr(heap, item.valuestring);
      StringHolds(out, item.valuestring.text);
    case ArrayKind => out := PrintArray(heap, item, depth, fmt, t, ms);
    case ObjectKind => out := PrintObject(heap, item, depth, fmt, t, ms);
  }

  lemma NamedLeaf(t: Tree)
    requires Prints(t, Items(t.kids))
    ensures t.node.kind == NumberKind ==> IsInt32(t.node.valueint)
    ensures t.node.kind == StringKind ==> t.node.valuestring != null
  {
  }

  lemma StringHolds(out: array<byte>, s: seq<byte>)
    requires NulFree(s) && out[..] == PrintString(s) + [0]
    ensures Holds(out, PrintString(s))
  {
    EscapeIsNulFree(s);
    hide Escape;
    assert out[..|PrintString(s)|] == out[..][..|PrintString(s)|];
    assert out[|PrintString(s)|] == out[..][|PrintString(s)|];
  }

  lemma FirstChild(t: Tree, ms: seq<Member>)
    requires Prints(t, ms)
    ensures t.node.child == NodeAt(t.kids, 0) && |ms| == |t.kids| == |Values(ms)|
    ensures t.node.kind == ArrayKind && ms != [] ==> forall d: nat, f :: NulFree(PrintItems(Values(ms), d, f))
    ensures t.node.kind == ObjectKind && ms != [] ==> forall d: nat, f :: NulFree(PrintMembers(ms, d, f))
  {
    ItemsCount(t.kids);
    ValuesAt(ms);
    NamedItems(t.kids, t.node.kind == ObjectKind);
    hide Items, NamedAll, ShapeAll, PrintItems, PrintMembers, Values;
    if t.node.kind == ArrayKind && ms != [] {
      forall d: nat, f ensures NulFree(PrintItems(Values(ms), d, f)) {
        ItemsAreNulFree(Values(ms), d, f);
      }
    }
    if t.node.kind == ObjectKind && ms != [] {
      forall d: nat, f ensures NulFree(PrintMembers(ms, d, f)) {
        MembersAreNulFree(ms, d, f);
      }
    }
  }

  /** How many entries: the loop both printers begin with. */
  method CountKids(item: Node, ghost t: Tree, ghost ms: seq<Member>) returns (n: nat)
    requires item == t.node && Prints(t, ms)
    ensures n == |t.kids|
  {
    hide Prints;
    TreeIsAllocated(t);
    FirstChild(t, ms);
    n := 0;
    var child := item.child;
    while child != null
      invariant n <= |t.kids| && child == NodeAt(t.kids, n) && Prints(t, ms)
      decreases |t.kids| - n
    {
      ChildPrints(t, ms, n);
      n, child := n + 1, child.next;
    }
  }

  /** print_array */
  method PrintArray(heap: Heap, item: Node, depth: nat, fmt: bool, ghost t: Tree, ghost ms: seq<Member>)
    returns (out: array<byte>)
    requires item == t.node && Prints(t, ms) && item.kind == ArrayKind && Reach(t) <= heap.live
    modifies heap`live
    ensures fresh(out) && Holds(out, PrintValue(Array(Values(ms)), depth, fmt)) && heap.live == old(heap.live) + {out}
    decreases t, 1
  {
    hide Prints, PrintItems, Holds, Values;
    FirstChild(t, ms);
    TreeIsAllocated(t);
    var numentries := CountKids(item, t, ms);
    if numentries == 0 {
      assert Values(ms) == [];
      out := DupText(heap, [OPEN_BRACKET, CLOSE_BRACKET]);
      return;
    }
    var entries, len := CollectItems(heap, item, depth + 1, fmt, t, ms);
    out := ComposeArray(heap, entries, len, fmt, Values(ms), depth + 1);
  }

  lemma ItemsSize(items: seq<Json>, i: nat, depth: nat, fmt: bool)
    requires i < |items|
    ensures |PrintItems(items[i..], depth, fmt)| ==
      |PrintValue(items[i], depth, fmt)| +
      if i + 1 < |items| then 1 + (if fmt then 1 else 0) + |PrintItems(items[i + 1..], depth, fmt)| else 0
  {
    assert items[i..][1..] == items[i + 1..];
    hide PrintValue;
  }

  lemma NoneHold()
    ensures AllHold([], []) && Arrays([]) == {}
  {
  }

  lemma OneMoreHolds(entries: seq<array<byte>>, texts: seq<seq<byte>>, e: array<byte>)
    requires |entries| < |texts| && AllHold(entries, texts[..|entries|]) && Holds(e, texts[|entries|])
    requires e !in Arrays(entries)
    ensures AllHold(entries + [e], texts[..|entries| + 1]) && Arrays(entries + [e]) == Arrays(entries) + {e}
  {
    hide Holds;
    ArraysOneMore(entries, e);
    forall i | 0 <= i < |entries| ensures entries[i] != e {
      assert entries[i] in Arrays(entries);
    }
  }

  /** The half of print_array that prints the entries and adds up len. */
  method CollectItems(heap: Heap, item: Node, depth: nat, fmt: bool, ghost t: Tree, ghost ms: seq<Member>)
    returns (entries: seq<array<byte>>, len: nat)
    requires item == t.node && Prints(t, ms) && t.kids != [] && Reach(t) <= heap.live
    modifies heap`live
    ensures |entries| == |Values(ms)| && AllHold(entries, PrintEach(Values(ms), depth, fmt))
    ensures fresh(Arrays(entries)) && heap.live == old(heap.live) + Arrays(entries)
    ensures len >= |PrintItems(Values(ms), depth, fmt)| + 5
    decreases t, 0
  {
    hide Reach, Prints, PrintItems, PrintValue, Holds, AllHold, Values, Arrays;
    NoneHold();
    TreeIsAllocated(t);
    FirstChild(t, ms);
    ValuesAt(ms);
    ghost var items := Values(ms);
    ghost var texts := PrintEach(items, depth, fmt);
    assert items[0..] == items;
    entries, len := [], 5;
    var child := item.child;
    while child != null
      invariant |entries| <= |t.kids| && child == NodeAt(t.kids, |entries|) && Prints(t, ms)
      invariant AllHold(entries, texts[..|entries|])
      invariant fresh(Arrays(entries)) && heap.live == old(heap.live) + Arrays(entries) && Reach(t) == old(Reach(t))
      invariant len + (if |entries| < |items| then |PrintItems(items[|entries|..], depth, fmt)| else 0)
        >= |PrintItems(items, depth, fmt)| + 5
      decreases |t.kids| - |entries|
    {
      ghost var k := |entries|;
      ChildPrints(t, ms, k);
      ItemsSize(items, k, depth, fmt);
      ReachHasKid(t, k);
      var ret := PrintItem(heap, child, depth, fmt, t.kids[k], Items(t.kids[k].kids));
      var n := StrLen(ret, texts[k]);
      OneMoreHolds(entries, texts, ret);
      entries, len := entries + [ret], len + n + 2 + (if fmt then 1 else 0);
      child := child.next;
    }
    assert texts[..|entries|] == texts;
  }

  /** print_object */
  method PrintObject(heap: Heap, item: Node, depth: nat, fmt: bool, ghost t: Tree, ghost ms: seq<Member>)
    returns (out: array<byte>)
    requires item == t.node && Prints(t, ms) && item.kind == ObjectKind && Reach(t) <= heap.live
    modifies heap`live
    ensures fresh(out) && Holds(out, PrintValue(Object(ms), depth, fmt)) && heap.live == old(heap.live) + {out}
    decreases t, 1
  {
    hide Prints, PrintMembers, Holds, Tabs, ObjectText;
    FirstChild(t, ms);
    TreeIsAllocated(t);
    var numentries := CountKids(item, t, ms);
    if numentries == 0 {
      out := PrintEmptyObject(heap, depth, fmt);
      return;
    }
    ObjectTextIsPrinted(ms, depth, fmt);
    ObjectIsNulFree(ms, depth, fmt);
    var names, entries, len := CollectMembers(heap, item, depth + 1, fmt, t, ms);
    out := ComposeObject(heap, names, entries, len, depth + 1, fmt, ms);
  }

  lemma ObjectTextIsPrinted(ms: seq<Member>, depth: nat, fmt: bool)
    requires ms != []
    ensures ObjectText(ms, depth + 1, fmt) == PrintValue(Object(ms), depth, fmt)
  {
    hide PrintMembers, Tabs, When, MembersLeft;
    MembersLeftEnds(ms, depth + 1, fmt);
    var a, b, c := [OPEN_BRACE] + When(fmt, [NEWLINE]), PrintMembers(ms, depth + 1, fmt), When(fmt, Tabs(depth));
    assert a + (b + c + [CLOSE_BRACE]) == a + b + c + [CLOSE_BRACE];
  }

  /** The buffer for an object without members has depth + 4 bytes, or 3. */
  method PrintEmptyObject(heap: Heap, depth: nat, fmt: bool) returns (out: array<byte>)
    modifies heap`live
    ensures fresh(out) && Holds(out, PrintValue(Object([]), depth, fmt)) && heap.live == old(heap.live) + {out}
  {
    hide Tabs;
    TabsSize(depth - 1);
    TabsAreNulFree(depth - 1);
    out := heap.Alloc(if fmt then depth + 4 else 3);
    var p := 1;
    out[0] := OPEN_BRACE;
    if fmt {
      out[1] := NEWLINE;
      assert out[..2] == [OPEN_BRACE, NEWLINE];
      p := WriteTabs(out, 2, depth - 1);
    }
    ghost var front := out[..p];
    out[p], out[p + 1] := CLOSE_BRACE, 0;
    assert out[..p + 1] == front + [CLOSE_BRACE];
  }

  lemma MembersSize(ms: seq<Member>, i: nat, depth: nat, fmt: bool)
    requires i < |ms|
    ensures |PrintMembers(ms[i..], depth, fmt)| <=
      |PrintValue(ms[i].value, depth, fmt)| + |PrintString(ms[i].name)| + 2 + (if fmt then 2 + depth else 0)
      + if i + 1 < |ms| then |PrintMembers(ms[i + 1..], depth, fmt)| else 0
  {
    MembersFrom(ms, i, depth, fmt);
    TabsSize(depth);
    hide PrintValue, PrintMembers, PrintString, Tabs;
  }

  /** The half of print_object that prints names and entries and adds up len. */
  method CollectMembers(heap: Heap, item: Node, depth: nat, fmt: bool, ghost t: Tree, ghost ms: seq<Member>)
    returns (names: seq<array<byte>>, entries: seq<array<byte>>, len: nat)
    requires item == t.node && Prints(t, ms) && t.kids != [] && item.kind == ObjectKind && depth > 0
    requires Reach(t) <= heap.live
    modifies heap`live
    ensures fresh(Arrays(names)) && fresh(Arrays(entries)) && Arrays(names) !! Arrays(entries)
    ensures heap.live == old(heap.live) + Arrays(names) + Arrays(entries)
    ensures AllHold(names, PrintNames(ms)) && AllHold(entries, PrintMemberValues(ms, depth, fmt))
    ensures len >= |ObjectText(ms, depth, fmt)| + 4
    decreases t, 0
  {
    hide Reach, Prints, PrintMembers, PrintString, PrintValue, Holds, AllHold, ObjectText, Arrays;
    NoneHold();
    TreeIsAllocated(t);
    FirstChild(t, ms);
    ghost var texts, values := PrintNames(ms), PrintMemberValues(ms, depth, fmt);
    assert ms[0..] == ms;
    names, entries, len := [], [], 7;
    if fmt {
      len := len + depth;
    }
    ghost var start := len;
    var child := item.child;
    while child != null
      invariant |entries| == |names| <= |t.kids| && child == NodeAt(t.kids, |entries|) && Prints(t, ms)
      invariant AllHold(names, texts[..|names|]) && AllHold(entries, values[..|entries|])
      invariant fresh(Arrays(names)) && fresh(Arrays(entries)) && Arrays(names) !! Arrays(entries)
      invariant heap.live == old(heap.live) + Arrays(names) + Arrays(entries) && Reach(t) == old(Reach(t))
      invariant len + (if |entries| < |ms| then |PrintMembers(ms[|entries|..], depth, fmt)| else 0)
        >= start + |PrintMembers(ms, depth, fmt)|
      decreases |t.kids| - |entries|
    {
      ghost var k := |entries|;
      ChildPrints(t, ms, k);
      MembersSize(ms, k, depth, fmt);
      assert texts[k] == PrintString(ms[k].name) && values[k] == PrintValue(ms[k].value, depth, fmt);
      ReachHasKid(t, k);
      var str, ret, n := PrintPair(heap, child, depth, fmt, t.kids[k], ms[k]);
      PairHolds(names, entries, texts, values, str, ret);
      names, entries, len := names + [str], entries + [ret], len + n + 2 + (if fmt then 2 + depth else 0);
      child := child.next;
    }
    assert texts[..|names|] == texts && values[..|entries|] == values;
    ObjectTextSize(ms, depth, fmt);
  }

  lemma PairHolds(names: seq<array<byte>>, entries: seq<array<byte>>, texts: seq<seq<byte>>, values: seq<seq<byte>>,
                  str: array<byte>, ret: array<byte>)
    requires |names| == |entries| < |texts| == |values|
    requires AllHold(names, texts[..|names|]) && AllHold(entries, values[..|entries|])
    requires Holds(str, texts[|names|]) && Holds(ret, values[|entries|])
    requires Arrays(names) !! Arrays(entries) && str != ret
    requires str !in Arrays(names) + Arrays(entries) && ret !in Arrays(names) + Arrays(entries)
    ensures AllHold(names + [str], texts[..|names| + 1]) && AllHold(entries + [ret], values[..|entries| + 1])
    ensures Arrays(names + [str]) == Arrays(names) + {str} && Arrays(entries + [ret]) == Arrays(entries) + {ret}
    ensures Arrays(names + [str]) !! Arrays(entries + [ret])
  {
    hide Holds, AllHold, Arrays;
    OneMoreHolds(names, texts, str);
    OneMoreHolds(entries, values, ret);
  }

  /** The name and the value of one member, printed, and their size. */
  method PrintPair(heap: Heap, child: Node, depth: nat, fmt: bool, ghost t: Tree, ghost m: Member)
    returns (str: array<byte>, ret: array<byte>, n: nat)
    requires child == t.node && Prints(t, Items(t.kids)) && child.name != null && Reach(t) <= heap.live
    requires m == Member(child.name.text, Value(t))
    modifies heap`live
    ensures Holds(str, PrintString(m.name)) && Holds(ret, PrintValue(m.value, depth, fmt))
    ensures fresh(str) && fresh(ret) && str != ret && heap.live == old(heap.live) + {str, ret}
    ensures n == |PrintString(m.name)| + |PrintValue(m.value, depth, fmt)|
    decreases t, 3
  {
    ReachHasOwn(t);
    hide Reach, Prints, PrintString, PrintValue, Holds, Value, Items;
    TreeIsAllocated(t);
    str := PrintStringPtr(heap, child.name);
    StringHolds(str, child.name.text);
    ret := PrintItem(heap, child, depth, fmt, t, Items(t.kids));
    var n1 := StrLen(ret, PrintValue(m.value, depth, fmt));
    var n2 := StrLen(str, PrintString(m.name));
    n := n1 + n2;
  }

  lemma ObjectTextSize(ms: seq<Member>, depth: nat, fmt: bool)
    requires ms != [] && depth > 0
    ensures |ObjectText(ms, depth, fmt)| == |PrintMembers(ms, depth, fmt)| + 2 + (if fmt then depth else 0)
  {
    MembersLeftEnds(ms, depth, fmt);
    TabsSize(depth - 1);
    hide PrintMembers, Tabs, MembersLeft;
  }
}
