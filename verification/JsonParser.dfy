/** The parser of cJSON, building trees in memory. */
module JsonParser {
  import opened Bytes
  import opened JsonText
  import opened Memory
  import opened JsonTree
  import opened JsonView
  import opened JsonBuild
  import opened JsonScan

  // ---------- nodes to be filled ----------

  /** A node as cJSON_New_Item leaves it, in the fields that parse_value fills. */
  ghost predicate Blank(item: Node)
    reads item`child, item`valuestring, item`isReference
  {
    item.child == null && item.valuestring == null && !item.isReference
  }

  /** A node filled with children and a text, which are what mine holds. */
  ghost predicate Filled(item: Node, kids: seq<Tree>, ms: seq<Member>, mine: set<object>)
    reads mine, item`child, item`valuestring, item`isReference
  {
    && item.child == NodeAt(kids, 0) && !item.isReference
    && Some(item.valuestring) <= mine && Built(kids, ms, mine - Some(item.valuestring))
  }

  lemma BlankIsFilled(item: Node)
    requires Blank(item)
    ensures Filled(item, [], [], {})
  {
    NothingIsBuilt();
  }

  /** What the node stands for. */
  ghost function Content(item: Node, ms: seq<Member>): Json
    reads item`kind, item`valueint, item`valuestring
  {
    ValueOf(item.kind, item.valueint, TextOf(item.valuestring), ms)
  }

  /** A list whose last item has been filled where it hangs. */
  lemma FilledLast(ts: seq<Tree>, ms: seq<Member>, own: set<object>, item: Node, kids: seq<Tree>, ks: seq<Member>,
                   mine: set<object>)
    requires Grown(ts, ms, own) && Filled(item, kids, ks, mine) && Linked(ts + [Tree(item, [])])
    requires own !! {item} + Some(item.name) + mine && item !in mine && Some(item.name) !! mine
    ensures Built(ts + [Tree(item, kids)], ms + [Member(TextOf(item.name), Content(item, ks))],
                  own + {item} + Some(item.name) + mine)
  {
    hide Grown, Linked;
    var text := Some(item.valuestring);
    GrownItem(item, kids, ks, mine - text);
    assert Self(item) + (mine - text) == {item} + Some(item.name) + mine;
    ValueStep(Tree(item, kids));
    BuiltItems(kids, ks, mine - text);
    SameRoots(ts, item, kids);
    GrownConcat(ts, ms, own, [Tree(item, kids)], [Member(TextOf(item.name), Content(item, ks))],
                {item} + Some(item.name) + mine);
    assert own + ({item} + Some(item.name) + mine) == own + {item} + Some(item.name) + mine;
  }

  lemma BuiltItems(ts: seq<Tree>, ms: seq<Member>, own: set<object>)
    requires Built(ts, ms, own)
    ensures Items(ts) == ms
  {
  }

  lemma SameRoots(ts: seq<Tree>, item: Node, kids: seq<Tree>)
    requires Linked(ts + [Tree(item, [])])
    ensures Linked(ts + [Tree(item, kids)])
  {
    var us, vs := ts + [Tree(item, [])], ts + [Tree(item, kids)];
    forall i | 0 <= i < |vs| ensures LinkAt(vs, i) {
      assert LinkAt(us, i);
    }
  }

  /** A new item behind the last one, still blank. */
  method AddBlank(heap: Heap, parent: Node, last: Node?, ghost ts: seq<Tree>, ghost ms: seq<Member>,
                  ghost own: set<object>)
    returns (child: Node)
    requires Built(ts, ms, own) && parent !in own && heap !in own
    requires parent.child == NodeAt(ts, 0) && last == NodeAt(ts, |ts| - 1)
    modifies heap`live, parent`child, Roots(ts)`next
    ensures fresh(child) && Blank(child) && child.name == null && heap.live == old(heap.live) + {child}
    ensures Grown(ts, ms, own) && Linked(ts + [Tree(child, [])])
    ensures parent.child == NodeAt(ts + [Tree(child, [])], 0)
  {
    hide Built, Grown, Linked;
    BuiltRoots(ts, ms, own);
    NothingIsBuilt();
    child := new Node();
    heap.live := heap.live + {child};
    ghost var u := Tree(child, []);
    Finish(child, [], [], {});
    ghost var m := Member(TextOf(child.name), Value(u));
    assert Self(child) + {} == {child};
    Attach(parent, last, child, ts, ms, own, u, m, {child});
    BuiltIsLinked(ts + [u], ms + [m], own + {child});
  }

  lemma BuiltIsLinked(ts: seq<Tree>, ms: seq<Member>, own: set<object>)
    requires Built(ts, ms, own)
    ensures Linked(ts)
  {
  }

  /** parse_string into a node. */
  method ParseStringInto(heap: Heap, item: Node, s: seq<byte>, i: nat) returns (end: int)
    requires i <= |s| && !ParseString(s[i..]).Outside? && item.valuestring == null
    modifies heap`live, item`kind, item`valuestring
    ensures match ParseString(s[i..])
      case Ok(text, rest) =>
        && i < end <= |s| && rest == s[end..] && item.kind == StringKind
        && item.valuestring != null && fresh(item.valuestring) && item.valuestring.text == text
        && heap.live == old(heap.live) + {item.valuestring}
      case Fail(at) =>
        && end < 0 && at == s[i..] && heap.live == old(heap.live)
        && item.valuestring == null && item.kind == old(item.kind)
      case Outside => false
  {
    hide ParseString;
    var out: array?<byte>, n: nat;
    end, out, n := ParseStringLiteral(s, i);
    if end >= 0 {
      item.valuestring := heap.Keep(out[..n]);
      item.kind := StringKind;
    }
  }

  // ---------- what is read, step by step ----------

  /** What the loop of parse_array has still to read, at the byte behind an item. */
  function ItemsTail(rest: seq<byte>): Result<seq<Json>> {
    if At(rest, 0) == COMMA then ParseItems(rest[1..])
    else if At(rest, 0) == CLOSE_BRACKET then Ok([], rest[1..])
    else Fail(rest)
  }

  lemma ItemsRead(t: seq<byte>)
    ensures ParseItems(t) ==
      match ParseValue(Skip(t))
      case Ok(v, after) => Prepend([v], ItemsTail(Skip(after)))
      case Fail(at) => Fail(at)
      case Outside => Outside
  {
    hide ParseValue, Skip;
    if ParseValue(Skip(t)).Ok? {
      var v := ParseValue(Skip(t)).value;
      assert [v] + [] == [v];
    }
  }

  /** The same for parse_object. */
  function MembersTail(rest: seq<byte>): Result<seq<Member>> {
    if At(rest, 0) == COMMA then ParseMembers(rest[1..])
    else if At(rest, 0) == CLOSE_BRACE then Ok([], rest[1..])
    else Fail(rest)
  }

  lemma MembersRead(t: seq<byte>)
    ensures ParseMembers(t) ==
      match ParseMember(t)
      case Ok(m, after) => Prepend([m], MembersTail(Skip(after)))
      case Fail(at) => Fail(at)
      case Outside => Outside
  {
    hide ParseMember, Skip;
    if ParseMember(t).Ok? {
      var m := ParseMember(t).value;
      assert [m] + [] == [m];
    }
  }

  lemma PrependMore<T>(a: seq<T>, b: seq<T>, r: Result<seq<T>>)
    ensures Prepend(a, Prepend(b, r)) == Prepend(a + b, r)
    ensures Prepend([], r) == r
  {
    if r.Ok? {
      assert a + (b + r.value) == a + b + r.value;
      assert [] + r.value == r.value;
    }
  }

  /** parse_value, without the cases. */
  lemma ValueRead(t: seq<byte>)
    ensures !StartsWith(t, NULL_TEXT) && !StartsWith(t, FALSE_TEXT) && !StartsWith(t, TRUE_TEXT) ==>
      ParseValue(t) ==
        if At(t, 0) == QUOTE then
          match ParseString(t)
          case Ok(s, rest) => Ok(String(s), rest)
          case Fail(at) => Fail(at)
          case Outside => Outside
        else if At(t, 0) == MINUS || IsDigit(At(t, 0)) then ParseNumber(t)
        else if At(t, 0) == OPEN_BRACKET then ParseArray(t)
        else if At(t, 0) == OPEN_BRACE then ParseObject(t)
        else Fail(t)
  {
    hide ParseString, ParseNumber, ParseArray, ParseObject;
  }

  lemma {:induction false} ValuesAppend(ms: seq<Member>, m: Member)
    ensures Values(ms + [m]) == Values(ms) + [m.value]
  {
    if ms != [] {
      assert (ms + [m])[1..] == ms[1..] + [m];
      ValuesAppend(ms[1..], m);
    }
  }

  /** Where reading stopped: behind what was read, or, with a null pointer, at the error. */
  ghost predicate Ends<T(!new)>(r: Result<T>, s: seq<byte>, end: int, ep: nat) {
    match r
    case Ok(_, rest) => 0 <= end <= |s| && rest == s[end..]
    case Fail(at) => end < 0 && ep <= |s| && at == s[ep..]
    case Outside => false
  }

  function AfterBlanks<T>(r: Result<T>): Result<T> {
    match r
    case Ok(v, rest) => Ok(v, Skip(rest))
    case Fail(at) => Fail(at)
    case Outside => Outside
  }

  // ---------- parse_value ----------

  /** parse_value: fills a blank node with what the text says. When it fails, what it has built stays
      behind, well formed and with its owner. */
  method ParseItem(heap: Heap, item: Node, s: seq<byte>, i: nat)
    returns (end: int, ep: nat, ghost kids: seq<Tree>, ghost ms: seq<Member>, ghost mine: set<object>)
    requires i <= |s| && !ParseValue(s[i..]).Outside? && Blank(item)
    modifies heap`live, item`kind, item`child, item`valuestring, item`valueint
    ensures fresh(mine) && heap.live == old(heap.live) + mine && Filled(item, kids, ms, mine)
    ensures Ends(ParseValue(s[i..]), s, end, ep)
    ensures ParseValue(s[i..]).Ok? ==> Content(item, ms) == ParseValue(s[i..]).value
    decreases |s| - i, 2
  {
    hide ParseValue, ParseString, ParseNumber, ParseArray, ParseObject, Filled, Built;
    end, ep, kids, ms, mine := -1, i, [], [], {};
    BlankIsFilled(item);
    ValueRead(s[i..]);
    if StartsWith(s[i..], NULL_TEXT) {
      LiteralRead(s, i);
      item.kind := NullKind;
      end := i + 4;
    } else if StartsWith(s[i..], FALSE_TEXT) {
      LiteralRead(s, i);
      item.kind := FalseKind;
      end := i + 5;
    } else if StartsWith(s[i..], TRUE_TEXT) {
      LiteralRead(s, i);
      item.kind, item.valueint := TrueKind, 1;
      end := i + 4;
    } else if At(s, i) == QUOTE {
      QuoteIsRead(s[i..]);
      end := ParseStringInto(heap, item, s, i);
      mine := Some(item.valuestring);
      TextIsFilled(item);
    } else if At(s, i) == MINUS || IsDigit(At(s, i)) {
      var j: nat;
      item.valueint, j := ParseInt(s, i);
      item.kind := NumberKind;
      end := j;
    } else if At(s, i) == OPEN_BRACKET {
      end, ep, kids, ms, mine := ParseArrayInto(heap, item, s, i);
    } else if At(s, i) == OPEN_BRACE {
      end, ep, kids, ms, mine := ParseObjectInto(heap, item, s, i);
    }
  }

  lemma LiteralRead(s: seq<byte>, i: nat)
    requires i <= |s|
    ensures StartsWith(s[i..], NULL_TEXT) ==> i + 4 <= |s| && ParseValue(s[i..]) == Ok(Null, s[i + 4..])
    ensures StartsWith(s[i..], FALSE_TEXT) ==> i + 5 <= |s| && ParseValue(s[i..]) == Ok(False, s[i + 5..])
    ensures StartsWith(s[i..], TRUE_TEXT) ==> i + 4 <= |s| && ParseValue(s[i..]) == Ok(True, s[i + 4..])
  {
    var t := s[i..];
    assert StartsWith(t, NULL_TEXT) ==> t[0] == t[..4][0] == 110;
    assert StartsWith(t, FALSE_TEXT) ==> t[0] == t[..5][0] == 102;
    assert StartsWith(t, TRUE_TEXT) ==> t[0] == t[..4][0] == 116;
  }

  /** A string that starts with a quote is read. */
  lemma QuoteIsRead(t: seq<byte>)
    requires At(t, 0) == QUOTE
    ensures !ParseString(t).Fail?
  {
    hide Unescape;
  }

  lemma TextIsFilled(item: Node)
    requires item.child == null && !item.isReference
    ensures Filled(item, [], [], Some(item.valuestring))
  {
    NothingIsBuilt();
    assert Some(item.valuestring) - Some(item.valuestring) == {};
  }

  /** An item of an array, with the blanks around it. */
  method FillItem(heap: Heap, item: Node, s: seq<byte>, v: nat)
    returns (end: int, ep: nat, ghost kids: seq<Tree>, ghost ms: seq<Member>, ghost mine: set<object>)
    requires v <= |s| && !ParseValue(Skip(s[v..])).Outside? && Blank(item)
    modifies heap`live, item`kind, item`child, item`valuestring, item`valueint
    ensures fresh(mine) && heap.live == old(heap.live) + mine && Filled(item, kids, ms, mine)
    ensures Ends(AfterBlanks(ParseValue(Skip(s[v..]))), s, end, ep)
    ensures ParseValue(Skip(s[v..])).Ok? ==> Content(item, ms) == ParseValue(Skip(s[v..])).value
    decreases |s| - v, 3
  {
    hide ParseValue, Filled, Skip;
    var j := SkipBlanks(s, v);
    end, ep, kids, ms, mine := ParseItem(heap, item, s, j);
    if end >= 0 {
      end := SkipBlanks(s, end);
    }
  }

  /** One more item of an array: lines 329 to 332, and again 337 to 340. */
  method NextItem(heap: Heap, parent: Node, last: Node?, s: seq<byte>, v: nat, ghost whole: Result<seq<Json>>,
                  ghost ts: seq<Tree>, ghost ms: seq<Member>, ghost own: set<object>)
    returns (child: Node, end: int, ep: nat, ghost us: seq<Tree>, ghost ns: seq<Member>, ghost more: set<object>)
    requires v <= |s| && whole == Prepend(Values(ms), ParseItems(s[v..])) && !whole.Outside?
    requires Built(ts, ms, own) && parent !in own && heap !in own
    requires parent.child == NodeAt(ts, 0) && last == NodeAt(ts, |ts| - 1)
    modifies heap`live, parent`child, Roots(ts)`next
    ensures fresh(more) && heap.live == old(heap.live) + more && Built(us, ns, own + more)
    ensures us != [] && parent.child == NodeAt(us, 0) && child == NodeAt(us, |us| - 1)
    ensures (end < 0 || v < end <= |s|) && ItemsSoFar(whole, Values(ns), s, end, ep)
    decreases |s| - v, 4
  {
    hide ParseValue, ParseItems, Filled, Skip, Built, Grown, Linked, Content, ItemsSoFar, Values;
    ItemsRead(s[v..]);
    child := AddBlank(heap, parent, last, ts, ms, own);
    NodesAreAllocated(ts + [Tree(child, [])]);
    ghost var kids, ks, mine;
    end, ep, kids, ks, mine := FillItem(heap, child, s, v);
    FilledLast(ts, ms, own, child, kids, ks, mine);
    ghost var m := Member(TextOf(child.name), Content(child, ks));
    us, ns := ts + [Tree(child, kids)], ms + [m];
    more := {child} + mine;
    assert own + {child} + Some(child.name) + mine == own + more;
    ValuesAppend(ms, m);
    OneMoreItem(whole, Values(ms), s[v..], s, end, ep);
  }

  /** What parse_array reads, from the bracket on. */
  lemma ArrayRead(s: seq<byte>, i: nat, body: seq<byte>)
    requires At(s, i) == OPEN_BRACKET && body == Skip(s[i + 1..])
    ensures ParseArray(s[i..]) ==
      if At(body, 0) == CLOSE_BRACKET then Ok(Array([]), body[1..])
      else
        match ParseItems(body)
        case Ok(items, rest) => Ok(Array(items), rest)
        case Fail(at) => Fail(at)
        case Outside => Outside
  {
    assert s[i..][1..] == s[i + 1..];
    hide ParseItems, Skip;
  }

  /** parse_array */
  method ParseArrayInto(heap: Heap, item: Node, s: seq<byte>, i: nat)
    returns (end: int, ep: nat, ghost kids: seq<Tree>, ghost ms: seq<Member>, ghost mine: set<object>)
    requires i <= |s| && At(s, i) == OPEN_BRACKET && !ParseArray(s[i..]).Outside? && Blank(item)
    modifies heap`live, item`kind, item`child, item`valuestring, item`valueint
    ensures fresh(mine) && heap.live == old(heap.live) + mine && Filled(item, kids, ms, mine)
    ensures Ends(ParseArray(s[i..]), s, end, ep)
    ensures ParseArray(s[i..]).Ok? ==> Content(item, ms) == ParseArray(s[i..]).value
    decreases |s| - i, 1
  {
    hide ParseItems, ParseArray, ParseValue, Skip, Built, Filled, ItemsTail, ItemsSoFar, Prepend;
    item.kind := ArrayKind;
    var v := SkipBlanks(s, i + 1);
    ghost var body := s[v..];
    ArrayRead(s, i, body);
    kids, ms, mine, ep := [], [], {}, 0;
    NothingIsBuilt();
    if At(s, v) == CLOSE_BRACKET {
      assert body[1..] == s[v + 1..];
      BuiltIsFilled(item, kids, ms, mine);
      end := v + 1;
      return;
    }
    ghost var whole := ParseItems(body);
    PrependMore([], [], whole);
    var child: Node;
    child, end, ep, kids, ms, mine := NextItem(heap, item, null, s, v, whole, [], [], {});
    assert {} + mine == mine;
    while end >= 0 && At(s, end) == COMMA
      invariant end < 0 || i < end <= |s|
      invariant Built(kids, ms, mine) && fresh(mine) && heap.live == old(heap.live) + mine
      invariant kids != [] && item.child == NodeAt(kids, 0) && child == NodeAt(kids, |kids| - 1)
      invariant item.kind == ArrayKind && item.valuestring == null && !item.isReference
      invariant ItemsSoFar(whole, Values(ms), s, end, ep)
      decreases if end < 0 then 0 else |s| - end + 1
    {
      BuiltRoots(kids, ms, mine);
      ItemsGoOn(whole, Values(ms), s, end, ep);
      ghost var us, ns, more;
      child, end, ep, us, ns, more := NextItem(heap, item, child, s, end + 1, whole, kids, ms, mine);
      kids, ms, mine := us, ns, mine + more;
    }
    BuiltIsFilled(item, kids, ms, mine);
    ItemsEnd(whole, Values(ms), s, end, ep);
    if end >= 0 {
      if At(s, end) == CLOSE_BRACKET {
        end := end + 1;
      } else {
        end, ep := -1, end;
      }
    }
  }

  lemma BuiltIsFilled(item: Node, kids: seq<Tree>, ms: seq<Member>, mine: set<object>)
    requires Built(kids, ms, mine) && item.child == NodeAt(kids, 0) && item.valuestring == null && !item.isReference
    ensures Filled(item, kids, ms, mine)
  {
    hide Built;
    assert mine - Some(item.valuestring) == mine;
  }

  /** Where a list stands: so many items, and the rest of the text; or the error it ended with. */
  ghost predicate ItemsSoFar(whole: Result<seq<Json>>, vs: seq<Json>, s: seq<byte>, end: int, ep: nat) {
    if end >= 0 then end <= |s| && whole == Prepend(vs, ItemsTail(s[end..]))
    else ep <= |s| && whole == Fail(s[ep..])
  }

  lemma OneMoreItem(whole: Result<seq<Json>>, vs: seq<Json>, t: seq<byte>, s: seq<byte>, end: int, ep: nat)
    requires whole == Prepend(vs, ParseItems(t)) && Ends(AfterBlanks(ParseValue(Skip(t))), s, end, ep)
    ensures end < 0 ==> ParseValue(Skip(t)).Fail? && forall us :: ItemsSoFar(whole, us, s, end, ep)
    ensures end >= 0 ==> ParseValue(Skip(t)).Ok? && ItemsSoFar(whole, vs + [ParseValue(Skip(t)).value], s, end, ep)
  {
    hide ParseValue, Skip, ItemsTail, ParseItems;
    ItemsRead(t);
    if ParseValue(Skip(t)).Ok? {
      PrependMore(vs, [ParseValue(Skip(t)).value], ItemsTail(s[end..]));
    }
  }

  lemma ItemsGoOn(whole: Result<seq<Json>>, vs: seq<Json>, s: seq<byte>, end: nat, ep: nat)
    requires ItemsSoFar(whole, vs, s, end, ep) && At(s, end) == COMMA
    ensures whole == Prepend(vs, ParseItems(s[end + 1..]))
  {
    TailGoesOn(s, end);
    hide ParseItems, ParseValue, ItemsTail;
  }

  lemma ItemsEnd(whole: Result<seq<Json>>, vs: seq<Json>, s: seq<byte>, end: int, ep: nat)
    requires ItemsSoFar(whole, vs, s, end, ep) && (end >= 0 ==> At(s, end) != COMMA)
    ensures end < 0 ==> ep <= |s| && whole == Fail(s[ep..])
    ensures end >= 0 ==> end <= |s|
    ensures end >= 0 ==> whole == if At(s, end) == CLOSE_BRACKET then Ok(vs, s[end + 1..]) else Fail(s[end..])
  {
    if end >= 0 {
      TailStops(s, end);
      assert vs + [] == vs;
    }
    hide ItemsTail;
  }

  lemma TailGoesOn(s: seq<byte>, end: nat)
    requires end <= |s| && At(s, end) == COMMA
    ensures ItemsTail(s[end..]) == ParseItems(s[end + 1..]) && MembersTail(s[end..]) == ParseMembers(s[end + 1..])
  {
    assert s[end..][1..] == s[end + 1..];
    hide ParseItems, ParseMembers;
  }

  lemma TailStops(s: seq<byte>, end: nat)
    requires end <= |s| && At(s, end) != COMMA
    ensures ItemsTail(s[end..]) == if At(s, end) == CLOSE_BRACKET then Ok([], s[end + 1..]) else Fail(s[end..])
    ensures MembersTail(s[end..]) == if At(s, end) == CLOSE_BRACE then Ok([], s[end + 1..]) else Fail(s[end..])
  {
    assert At(s, end) != 0 ==> s[end..][1..] == s[end + 1..];
    hide ParseItems, ParseMembers;
  }

  // ---------- objects ----------

  lemma MemberRead(s: seq<byte>, v: nat, j: nat)
    requires v <= j <= |s| && s[j..] == Skip(s[v..])
    ensures ParseMember(s[v..]) ==
      match ParseString(s[j..])
      case Fail(at) => Fail(at)
      case Outside => Outside
      case Ok(name, after) =>
        var colon := Skip(after);
        if At(colon, 0) != COLON then Fail(colon)
        else
          match ParseValue(Skip(colon[1..]))
          case Fail(at) => Fail(at)
          case Outside => Outside
          case Ok(x, rest) => Ok(Member(name, x), rest)
  {
    hide ParseString, ParseValue, Skip;
  }

  /** A member of an object: its name, its colon and its value, with the blanks around them. */
  method FillMember(heap: Heap, item: Node, s: seq<byte>, v: nat)
    returns (end: int, ep: nat, ghost kids: seq<Tree>, ghost ms: seq<Member>, ghost mine: set<object>)
    requires v <= |s| && !ParseMember(s[v..]).Outside? && Blank(item) && item.name == null
    modifies heap`live, item`kind, item`child, item`valuestring, item`valueint, item`name
    ensures fresh(mine) && heap.live == old(heap.live) + mine
    ensures Some(item.name) <= mine && Filled(item, kids, ms, mine - Some(item.name))
    ensures Ends(AfterBlanks(ParseMember(s[v..])), s, end, ep)
    ensures ParseMember(s[v..]).Ok? ==> Member(TextOf(item.name), Content(item, ms)) == ParseMember(s[v..]).value
    decreases |s| - v, 3
  {
    hide ParseValue, ParseString, ParseMember, Filled, Skip, Content;
    end, ep, kids, ms, mine := -1, 0, [], [], {};
    var j := SkipBlanks(s, v);
    MemberRead(s, v, j);
    var e := ParseStringInto(heap, item, s, j);
    if e < 0 {
      ep := j;
      BlankIsFilled(item);
      assert mine - Some(item.name) == mine;
      return;
    }
    e := SkipBlanks(s, e);
    item.name, item.valuestring := item.valuestring, null;
    mine := {item.name};
    if At(s, e) != COLON {
      ep := e;
      BlankIsFilled(item);
      assert mine - Some(item.name) == {};
      return;
    }
    assert s[e..][1..] == s[e + 1..];
    ghost var more;
    end, ep, kids, ms, more := FillItem(heap, item, s, e + 1);
    mine := mine + more;
    assert mine - Some(item.name) == more;
  }

  /** One more member of an object: lines 415 to 422, and again 426 to 434. */
  method NextMember(heap: Heap, parent: Node, last: Node?, s: seq<byte>, v: nat, ghost whole: Result<seq<Member>>,
                    ghost ts: seq<Tree>, ghost ms: seq<Member>, ghost own: set<object>)
    returns (child: Node, end: int, ep: nat, ghost us: seq<Tree>, ghost ns: seq<Member>, ghost more: set<object>)
    requires v <= |s| && whole == Prepend(ms, ParseMembers(s[v..])) && !whole.Outside?
    requires Built(ts, ms, own) && parent !in own && heap !in own
    requires parent.child == NodeAt(ts, 0) && last == NodeAt(ts, |ts| - 1)
    modifies heap`live, parent`child, Roots(ts)`next
    ensures fresh(more) && heap.live == old(heap.live) + more && Built(us, ns, own + more)
    ensures us != [] && parent.child == NodeAt(us, 0) && child == NodeAt(us, |us| - 1)
    ensures (end < 0 || v < end <= |s|) && MembersSoFar(whole, ns, s, end, ep)
    decreases |s| - v, 4
  {
    hide ParseMember, ParseMembers, Filled, Skip, Built, Grown, Linked, Content, MembersSoFar;
    MembersRead(s[v..]);
    child := AddBlank(heap, parent, last, ts, ms, own);
    NodesAreAllocated(ts + [Tree(child, [])]);
    ghost var kids, ks, mine;
    end, ep, kids, ks, mine := FillMember(heap, child, s, v);
    FilledLast(ts, ms, own, child, kids, ks, mine - Some(child.name));
    us, ns := ts + [Tree(child, kids)], ms + [Member(TextOf(child.name), Content(child, ks))];
    more := {child} + mine;
    assert own + {child} + Some(child.name) + (mine - Some(child.name)) == own + more;
    OneMoreMember(whole, ms, s[v..], s, end, ep);
  }

  lemma ObjectRead(s: seq<byte>, i: nat, body: seq<byte>)
    requires At(s, i) == OPEN_BRACE && body == Skip(s[i + 1..])
    ensures ParseObject(s[i..]) ==
      if At(body, 0) == CLOSE_BRACE then Ok(Object([]), body[1..])
      else
        match ParseMembers(body)
        case Ok(ms, rest) => Ok(Object(ms), rest)
        case Fail(at) => Fail(at)
        case Outside => Outside
  {
    assert s[i..][1..] == s[i + 1..];
    hide ParseMembers, Skip;
  }

  ghost predicate MembersSoFar(whole: Result<seq<Member>>, ms: seq<Member>, s: seq<byte>, end: int, ep: nat) {
    if end >= 0 then end <= |s| && whole == Prepend(ms, MembersTail(s[end..]))
    else ep <= |s| && whole == Fail(s[ep..])
  }

  lemma OneMoreMember(whole: Result<seq<Member>>, ms: seq<Member>, t: seq<byte>, s: seq<byte>, end: int, ep: nat)
    requires whole == Prepend(ms, ParseMembers(t)) && Ends(AfterBlanks(ParseMember(t)), s, end, ep)
    ensures end < 0 ==> ParseMember(t).Fail? && forall ns :: MembersSoFar(whole, ns, s, end, ep)
    ensures end >= 0 ==> ParseMember(t).Ok? && MembersSoFar(whole, ms + [ParseMember(t).value], s, end, ep)
  {
    hide ParseMember, Skip, MembersTail, ParseMembers;
    MembersRead(t);
    if ParseMember(t).Ok? {
      PrependMore(ms, [ParseMember(t).value], MembersTail(s[end..]));
    }
  }

  /** parse_object */
  method ParseObjectInto(heap: Heap, item: Node, s: seq<byte>, i: nat)
    returns (end: int, ep: nat, ghost kids: seq<Tree>, ghost ms: seq<Member>, ghost mine: set<object>)
    requires i <= |s| && At(s, i) == OPEN_BRACE && !ParseObject(s[i..]).Outside? && Blank(item)
    modifies heap`live, item`kind, item`child, item`valuestring, item`valueint
    ensures fresh(mine) && heap.live == old(heap.live) + mine && Filled(item, kids, ms, mine)
    ensures Ends(ParseObject(s[i..]), s, end, ep)
    ensures ParseObject(s[i..]).Ok? ==> Content(item, ms) == ParseObject(s[i..]).value
    decreases |s| - i, 1
  {
    hide ParseMembers, ParseObject, ParseMember, Skip, Built, Filled, MembersTail, MembersSoFar, Prepend;
    item.kind := ObjectKind;
    var v := SkipBlanks(s, i + 1);
    ghost var body := s[v..];
    ObjectRead(s, i, body);
    kids, ms, mine, ep := [], [], {}, 0;
    NothingIsBuilt();
    if At(s, v) == CLOSE_BRACE {
      assert body[1..] == s[v + 1..];
      BuiltIsFilled(item, kids, ms, mine);
      end := v + 1;
      return;
    }
    ghost var whole := ParseMembers(body);
    PrependMore([], [], whole);
    var child: Node;
    child, end, ep, kids, ms, mine := NextMember(heap, item, null, s, v, whole, [], [], {});
    assert {} + mine == mine;
    while end >= 0 && At(s, end) == COMMA
      invariant end < 0 || i < end <= |s|
      invariant Built(kids, ms, mine) && fresh(mine) && heap.live == old(heap.live) + mine
      invariant kids != [] && item.child == NodeAt(kids, 0) && child == NodeAt(kids, |kids| - 1)
      invariant item.kind == ObjectKind && item.valuestring == null && !item.isReference
      invariant MembersSoFar(whole, ms, s, end, ep)
      decreases if end < 0 then 0 else |s| - end + 1
    {
      BuiltRoots(kids, ms, mine);
      MembersGoOn(whole, ms, s, end, ep);
      ghost var us, ns, more;
      child, end, ep, us, ns, more := NextMember(heap, item, child, s, end + 1, whole, kids, ms, mine);
      kids, ms, mine := us, ns, mine + more;
    }
    BuiltIsFilled(item, kids, ms, mine);
    MembersEnd(whole, ms, s, end, ep);
    if end >= 0 {
      if At(s, end) == CLOSE_BRACE {
        end := end + 1;
      } else {
        end, ep := -1, end;
      }
    }
  }

  lemma MembersGoOn(whole: Result<seq<Member>>, ms: seq<Member>, s: seq<byte>, end: nat, ep: nat)
    requires MembersSoFar(whole, ms, s, end, ep) && At(s, end) == COMMA
    ensures whole == Prepend(ms, ParseMembers(s[end + 1..]))
  {
    TailGoesOn(s, end);
    hide ParseMembers, ParseMember, MembersTail;
  }

  lemma MembersEnd(whole: Result<seq<Member>>, ms: seq<Member>, s: seq<byte>, end: int, ep: nat)
    requires MembersSoFar(whole, ms, s, end, ep) && (end >= 0 ==> At(s, end) != COMMA)
    ensures end < 0 ==> ep <= |s| && whole == Fail(s[ep..])
    ensures end >= 0 ==> end <= |s|
    ensures end >= 0 ==> whole == if At(s, end) == CLOSE_BRACE then Ok(ms, s[end + 1..]) else Fail(s[end..])
  {
    if end >= 0 {
      TailStops(s, end);
      assert ms + [] == ms;
    }
    hide MembersTail;
  }
}
