/** The printer of cJSON: it measures a text, allocates it, and fills it. */
module JsonPrinter {
  import opened Bytes
  import opened JsonText
  import opened Memory
  import opened JsonTree

  /** The bytes of a holds the C string text. */
  ghost predicate Holds(a: array<byte>, text: seq<byte>)
    reads a
  {
    |text| < a.Length && NulFree(text) && a[..|text|] == text && a[|text|] == 0
  }

  // ---------- print_string_ptr ----------

  lemma EscapeStep(s: seq<byte>, i: nat)
    requires i < |s|
    ensures Escape(s[i..]) == EscapeByte(s[i]) + Escape(s[i + 1..])
  {
    assert s[i..][1..] == s[i + 1..];
  }

  /** The first pass: what one byte adds to len. */
  function Measure(b: byte): nat {
    if b in {QUOTE, BACKSLASH, 8, 12, 10, 13, 9} then 2 else if b < 32 then 6 else 1
  }

  /** The second pass: one byte, escaped. sprintf ends what it writes with a NUL, one byte further on. */
  method WriteEscaped(out: array<byte>, at: nat, b: byte) returns (at': nat)
    requires b != 0 && at + |EscapeByte(b)| < out.Length
    modifies out
    ensures at' == at + |EscapeByte(b)| && out[..at'] == old(out[..at]) + EscapeByte(b)
  {
    if b > 31 && b != QUOTE && b != BACKSLASH {
      out[at] := b;
      return at + 1;
    }
    out[at] := BACKSLASH;
    if b in {BACKSLASH, QUOTE, 8, 12, 10, 13, 9} {
      out[at + 1] := match b
        case 8 => LETTER_B
        case 12 => LETTER_F
        case 10 => LETTER_N
        case 13 => LETTER_R
        case 9 => LETTER_T
        case _ => b;
      assert out[..at + 2] == old(out[..at]) + [BACKSLASH, out[at + 1]];
      return at + 2;
    }
    out[at + 1], out[at + 2], out[at + 3] := LETTER_U, ZERO, ZERO;
    out[at + 4], out[at + 5], out[at + 6] := HexDigit(b / 16), HexDigit(b % 16), 0;
    assert out[..at + 6] == old(out[..at]) + [BACKSLASH, LETTER_U, ZERO, ZERO, HexDigit(b / 16), HexDigit(b % 16)];
    return at + 6;
  }

  /** print_string_ptr fills exactly the len + 3 bytes it has allocated. */
  method PrintStringPtr(heap: Heap, str: CString) returns (out: array<byte>)
    requires str in heap.live
    modifies heap`live
    ensures fresh(out) && out[..] == PrintString(str.text) + [0] && heap.live == old(heap.live) + {out}
  {
    hide Escape, EscapeByte;
    var s: seq<byte> := str.text;
    var len, i := 0, 0;
    assert s[0..] == s;
    while i < |s|
      invariant 0 <= i <= |s| && len + |Escape(s[i..])| == |Escape(s)| && heap.live == old(heap.live)
    {
      EscapeStep(s, i);
      Measured(s[i]);
      len, i := len + Measure(s[i]), i + 1;
    }
    NothingToEscape(s[i..]);
    out := heap.Alloc(len + 3);
    var p := 1;
    out[0] := QUOTE;
    i := 0;
    assert out[..1] == [QUOTE];
    while i < |s|
      invariant 0 <= i <= |s| && 1 <= p && p + |Escape(s[i..])| + 2 == out.Length
      invariant out[..p] + Escape(s[i..]) == [QUOTE] + Escape(s) && heap.live == old(heap.live) + {out}
    {
      EscapeStep(s, i);
      ghost var done := out[..p];
      p := WriteEscaped(out, p, s[i]);
      assert done + (EscapeByte(s[i]) + Escape(s[i + 1..])) == done + EscapeByte(s[i]) + Escape(s[i + 1..]);
      i := i + 1;
    }
    NothingToEscape(s[i..]);
    assert out[..p] == [QUOTE] + Escape(s);
    out[p], out[p + 1] := QUOTE, 0;
    assert out[..] == out[..p] + [QUOTE] + [0];
  }

  lemma Measured(b: byte)
    ensures Measure(b) == |EscapeByte(b)|
  {
  }

  lemma NothingToEscape(s: seq<byte>)
    requires s == []
    ensures Escape(s) == []
  {
  }

  // ---------- C strings in buffers ----------

  /** strcpy, and sprintf of a text without NUL: the bytes, and the terminator behind them. */
  method Put(out: array<byte>, at: nat, text: seq<byte>)
    requires at + |text| < out.Length
    modifies out
    ensures out[..at] == old(out[..at]) && out[at..at + |text|] == text && out[at + |text|] == 0
  {
    var i := 0;
    while i < |text|
      invariant 0 <= i <= |text| && out[..at] == old(out[..at]) && out[at..at + i] == text[..i]
    {
      out[at + i] := text[i];
      i := i + 1;
    }
    out[at + i] := 0;
    assert text[..i] == text;
  }

  /** cJSON_strdup of a constant. */
  method DupText(heap: Heap, text: seq<byte>) returns (out: array<byte>)
    requires NulFree(text)
    modifies heap`live
    ensures fresh(out) && Holds(out, text) && heap.live == old(heap.live) + {out}
  {
    out := heap.Alloc(|text| + 1);
    Put(out, 0, text);
    assert out[..|text|] == out[0..0 + |text|];
  }

  /** strlen */
  method StrLen(a: array<byte>, ghost text: seq<byte>) returns (n: nat)
    requires Holds(a, text)
    ensures n == |text|
  {
    n := 0;
    assert forall k :: 0 <= k < |text| ==> a[k] == a[..|text|][k] != 0;
    while a[n] != 0
      invariant n <= |text|
      decreases |text| - n
    {
      n := n + 1;
    }
  }

  /** strcpy from a buffer; the next write goes over the terminator. */
  method StrCpy(out: array<byte>, at: nat, src: array<byte>, ghost text: seq<byte>) returns (at': nat)
    requires Holds(src, text) && src != out && at + |text| < out.Length
    modifies out
    ensures at' == at + |text| && out[..at'] == old(out[..at]) + text && Holds(src, text)
  {
    var n := StrLen(src, text);
    Put(out, at, src[..n]);
    assert out[..at + n] == out[..at] + out[at..at + n];
    return at + n;
  }

  /** What a decimal int takes: ten digits and a sign at most. */
  lemma {:induction false} DecimalIsShort(n: nat, k: nat)
    requires k >= 1 && n < Pow10(k)
    ensures |Decimal(n)| <= k && NulFree(Decimal(n))
  {
    if n >= 10 {
      DecimalIsShort(n / 10, k - 1);
    }
  }

  lemma NumberIsShort(n: int)
    requires IsInt32(n)
    ensures |PrintNumber(n)| <= 11 && NulFree(PrintNumber(n))
  {
    DecimalIsShort(if n < 0 then -n else n, 10);
    hide Decimal;
  }

  /** print_number, for the numbers it prints with %d. */
  method PrintInt(heap: Heap, n: int) returns (out: array<byte>)
    requires IsInt32(n)
    modifies heap`live
    ensures fresh(out) && Holds(out, PrintNumber(n)) && heap.live == old(heap.live) + {out}
  {
    hide PrintNumber;
    NumberIsShort(n);
    out := heap.Alloc(21);
    var text := PrintNumber(n);
    Put(out, 0, text);
    assert out[..|text|] == out[0..0 + |text|];
  }

  // ---------- print_array ----------

  /** What the printer is asked to print: int32 numbers, texts that are there, and members with names. */
  ghost predicate Named(t: Tree)
    reads Nodes(t)`kind, Nodes(t)`valueint, Nodes(t)`valuestring, Nodes(t)`name
    decreases t
  {
    && (t.node.kind == NumberKind ==> IsInt32(t.node.valueint))
    && (t.node.kind == StringKind ==> t.node.valuestring != null)
    && NamedAll(t.kids, t.node.kind == ObjectKind)
  }

  ghost predicate NamedAll(ts: seq<Tree>, members: bool)
    reads NodesAll(ts)`kind, NodesAll(ts)`valueint, NodesAll(ts)`valuestring, NodesAll(ts)`name
    decreases ts
  {
    ts == [] ||
    assert ts[0].node in Nodes(ts[0]);
    ((members ==> ts[0].node.name != null) && Named(ts[0]) && NamedAll(ts[1..], members))
  }

  /** What is left to print of an array before its entry i. */
  function ItemsLeft(items: seq<Json>, i: nat, depth: nat, fmt: bool): seq<byte>
    requires i <= |items|
  {
    (if i < |items| then PrintItems(items[i..], depth, fmt) else []) + [CLOSE_BRACKET]
  }

  /** What goes behind entry i. */
  function Separator(last: bool, fmt: bool): seq<byte> {
    if last then [] else [COMMA] + When(fmt, [SPACE])
  }

  lemma ItemsLeftStep(items: seq<Json>, i: nat, depth: nat, fmt: bool)
    requires i < |items|
    ensures ItemsLeft(items, i, depth, fmt) ==
      PrintValue(items[i], depth, fmt) + Separator(i + 1 == |items|, fmt) + ItemsLeft(items, i + 1, depth, fmt)
  {
    assert items[i..][1..] == items[i + 1..];
    hide PrintValue;
  }

  /** One round of the loop that composes an array. */
  method ComposeItem(out: array<byte>, at: nat, entry: array<byte>, ghost text: seq<byte>, last: bool, fmt: bool)
    returns (at': nat)
    requires Holds(entry, text) && entry != out
    requires at + |text| + |Separator(last, fmt)| < out.Length
    modifies out
    ensures at' == at + |text| + |Separator(last, fmt)|
    ensures out[..at'] == old(out[..at]) + text + Separator(last, fmt)
  {
    var p := StrCpy(out, at, entry, text);
    if !last {
      out[p] := COMMA;
      p := p + 1;
      if fmt {
        out[p] := SPACE;
        p := p + 1;
      }
      out[p] := 0;
    }
    return p;
  }

  /** The buffers from number k on are different ones, and hold their texts. */
  ghost predicate HoldFrom(entries: seq<array<byte>>, texts: seq<seq<byte>>, k: nat)
    reads entries
  {
    && |entries| == |texts| && (forall i :: k <= i < |entries| ==> Holds(entries[i], texts[i]))
    && forall i, j :: 0 <= i < j < |entries| ==> entries[i] != entries[j]
  }

  ghost predicate AllHold(entries: seq<array<byte>>, texts: seq<seq<byte>>)
    reads entries
  {
    HoldFrom(entries, texts, 0)
  }

  ghost function Arrays(entries: seq<array<byte>>): set<object> {
    set i | 0 <= i < |entries| :: entries[i]
  }

  lemma ArraysOneMore(entries: seq<array<byte>>, e: array<byte>)
    ensures Arrays(entries + [e]) == Arrays(entries) + {e}
  {
    var all := entries + [e];
    assert all[|entries|] == e;
    forall o | o in Arrays(entries) ensures o in Arrays(all) {
      var i :| 0 <= i < |entries| && entries[i] == o;
      assert all[i] == o;
    }
  }

  /** One buffer, which is not needed any more. */
  method FreeEntry(heap: Heap, entries: seq<array<byte>>, i: nat, ghost texts: seq<seq<byte>>)
    requires i < |entries| && HoldFrom(entries, texts, i) && Arrays(entries[i..]) <= heap.live
    modifies heap`live, entries[i]
    ensures HoldFrom(entries, texts, i + 1) && Arrays(entries[i + 1..]) <= heap.live
    ensures heap.live == old(heap.live) - {entries[i]}
    ensures Arrays(entries[..i + 1]) == Arrays(entries[..i]) + {entries[i]}
  {
    hide Holds;
    assert entries[i..][0] == entries[i];
    assert entries[..i + 1] == entries[..i] + [entries[i]];
    ArraysOneMore(entries[..i], entries[i]);
    heap.Free(entries[i]);
    forall o | o in Arrays(entries[i + 1..]) ensures o in heap.live {
      var j :| 0 <= j < |entries[i + 1..]| && entries[i + 1..][j] == o;
      assert entries[i..][j + 1] == entries[i + 1 + j] == o;
    }
  }

  function PrintEach(items: seq<Json>, depth: nat, fmt: bool): (texts: seq<seq<byte>>)
    ensures |texts| == |items|
  {
    seq(|items|, i requires 0 <= i < |items| => PrintValue(items[i], depth, fmt))
  }

  /** The half of print_array that fills the buffer: all it writes lies inside the len bytes. */
  method ComposeArray(heap: Heap, entries: seq<array<byte>>, len: nat, fmt: bool, ghost items: seq<Json>,
                      ghost depth: nat)
    returns (out: array<byte>)
    requires Arrays(entries) <= heap.live
    requires items != [] && AllHold(entries, PrintEach(items, depth, fmt))
    requires len >= |PrintItems(items, depth, fmt)| + 3
    requires NulFree(PrintItems(items, depth, fmt))
    modifies heap`live, Arrays(entries)
    ensures fresh(out) && Holds(out, [OPEN_BRACKET] + PrintItems(items, depth, fmt) + [CLOSE_BRACKET])
    ensures heap.live == old(heap.live) - Arrays(entries) + {out}
  {
    hide PrintValue, PrintItems, ItemsLeft, Separator, Holds, Underway;
    ghost var whole, texts := [OPEN_BRACKET] + ItemsLeft(items, 0, depth, fmt), PrintEach(items, depth, fmt);
    ItemsLeftEnds(items, depth, fmt);
    assert entries[0..] == entries;
    out := heap.Alloc(len);
    var p := StartArray(out, ItemsLeft(items, 0, depth, fmt));
    var i := 0;
    while i < |entries|
      invariant 0 <= i <= |entries| && Underway(out, p, ItemsLeft(items, i, depth, fmt), whole)
      invariant HoldFrom(entries, texts, i) && Arrays(entries[i..]) <= heap.live
      invariant heap.live == old(heap.live) - Arrays(entries[..i]) + {out}
    {
      assert texts[i] == PrintValue(items[i], depth, fmt);
      p := ArrayRound(out, p, entries[i], items, i, depth, fmt, i == |entries| - 1, whole);
      FreeEntry(heap, entries, i, texts);
      i := i + 1;
    }
    assert entries[..i] == entries;
    EndArray(out, p, whole);
    assert whole == [OPEN_BRACKET] + PrintItems(items, depth, fmt) + [CLOSE_BRACKET];
    HoldsWhole(out, whole);
  }

  method StartArray(out: array<byte>, ghost left: seq<byte>) returns (p: nat)
    requires out.Length >= 2
    modifies out
    ensures Underway(out, p, left, [OPEN_BRACKET] + left)
  {
    out[0], out[1] := OPEN_BRACKET, 0;
    assert out[..1] == [OPEN_BRACKET];
    return 1;
  }

  method ArrayRound(out: array<byte>, at: nat, entry: array<byte>, ghost items: seq<Json>, ghost i: nat,
                    ghost depth: nat,
                    fmt: bool, last: bool, ghost whole: seq<byte>) returns (p: nat)
    requires i < |items| && last == (i == |items| - 1) && |whole| < out.Length
    requires Holds(entry, PrintValue(items[i], depth, fmt)) && entry != out
    requires Underway(out, at, ItemsLeft(items, i, depth, fmt), whole)
    modifies out
    ensures Underway(out, p, ItemsLeft(items, i + 1, depth, fmt), whole)
  {
    hide PrintValue, ItemsLeft, Separator, Holds;
    ItemsLeftStep(items, i, depth, fmt);
    ghost var text, gap := PrintValue(items[i], depth, fmt), Separator(last, fmt);
    ghost var left, done := ItemsLeft(items, i + 1, depth, fmt), out[..at];
    assert done + (text + gap + left) == done + text + gap + left;
    p := ComposeItem(out, at, entry, text, last, fmt);
  }

  method EndArray(out: array<byte>, at: nat, ghost whole: seq<byte>)
    requires |whole| < out.Length && Underway(out, at, [CLOSE_BRACKET], whole)
    modifies out
    ensures out[..|whole|] == whole && out[|whole|] == 0
  {
    out[at], out[at + 1] := CLOSE_BRACKET, 0;
    assert out[..at + 1] == out[..at] + [CLOSE_BRACKET];
  }

  lemma ItemsLeftEnds(items: seq<Json>, depth: nat, fmt: bool)
    requires items != []
    ensures ItemsLeft(items, 0, depth, fmt) == PrintItems(items, depth, fmt) + [CLOSE_BRACKET]
    ensures ItemsLeft(items, |items|, depth, fmt) == [CLOSE_BRACKET]
  {
    assert items[0..] == items;
    hide PrintItems;
  }

  // ---------- print_object ----------

  /** What is left to print of an object before its member i; depth is that of its members. */
  function MembersLeft(ms: seq<Member>, i: nat, depth: nat, fmt: bool): seq<byte>
    requires i <= |ms|
  {
    (if i < |ms| then PrintMembers(ms[i..], depth, fmt) else []) + When(fmt, Tabs(depth - 1)) + [CLOSE_BRACE]
  }

  /** What goes behind member i. */
  function MemberGap(last: bool, fmt: bool): seq<byte> {
    (if last then [] else [COMMA]) + When(fmt, [NEWLINE])
  }

  lemma MembersFrom(ms: seq<Member>, i: nat, depth: nat, fmt: bool)
    requires i < |ms|
    ensures PrintMembers(ms[i..], depth, fmt) == PrintMember(ms[i], depth, fmt) + MemberGap(i + 1 == |ms|, fmt)
      + if i + 1 < |ms| then PrintMembers(ms[i + 1..], depth, fmt) else []
  {
    assert ms[i..][1..] == ms[i + 1..];
    hide PrintMember;
    assert i + 1 < |ms| ==> |ms[i..]| > 1;
    assert i + 1 == |ms| ==> |ms[i..]| == 1;
    var first := PrintMember(ms[i], depth, fmt);
    assert first + [COMMA] + When(fmt, [NEWLINE]) == first + ([COMMA] + When(fmt, [NEWLINE]));
    assert first + When(fmt, [NEWLINE]) == first + ([] + When(fmt, [NEWLINE])) + [];
  }

  lemma GroupRest<T>(a: seq<T>, b: seq<T>, c: seq<T>, d: seq<T>, e: seq<T>)
    ensures a + b + c + d + e == a + b + (c + d + e)
  {
  }

  lemma MembersLeftStep(ms: seq<Member>, i: nat, depth: nat, fmt: bool)
    requires i < |ms|
    ensures MembersLeft(ms, i, depth, fmt) ==
      PrintMember(ms[i], depth, fmt) + MemberGap(i + 1 == |ms|, fmt) + MembersLeft(ms, i + 1, depth, fmt)
  {
    hide PrintMember, PrintMembers, Tabs, MemberGap, When;
    MembersFrom(ms, i, depth, fmt);
    GroupRest(PrintMember(ms[i], depth, fmt), MemberGap(i + 1 == |ms|, fmt),
            if i + 1 < |ms| then PrintMembers(ms[i + 1..], depth, fmt) else [],
            When(fmt, Tabs(depth - 1)), [CLOSE_BRACE]);
  }

  lemma MembersLeftEnds(ms: seq<Member>, depth: nat, fmt: bool)
    requires ms != []
    ensures MembersLeft(ms, 0, depth, fmt) == PrintMembers(ms, depth, fmt) + When(fmt, Tabs(depth - 1)) + [CLOSE_BRACE]
    ensures MembersLeft(ms, |ms|, depth, fmt) == When(fmt, Tabs(depth - 1)) + [CLOSE_BRACE]
  {
    assert ms[0..] == ms;
    hide PrintMembers, Tabs;
  }

  lemma {:induction false} TabsSize(k: int)
    ensures |Tabs(k)| == if k <= 0 then 0 else k
  {
    if k > 0 {
      TabsSize(k - 1);
    }
  }

  lemma {:induction false} TabsAppend(k: nat)
    ensures Tabs(k + 1) == Tabs(k) + [TAB]
  {
    if k > 0 {
      TabsAppend(k - 1);
    }
  }

  method WriteTabs(out: array<byte>, at: nat, k: int) returns (at': nat)
    requires at + |Tabs(k)| <= out.Length
    modifies out
    ensures at' == at + |Tabs(k)| && out[..at'] == old(out[..at]) + Tabs(k)
  {
    at' := at;
    var j := 0;
    TabsSize(k);
    while j < k
      invariant 0 <= j && (k > 0 ==> j <= k) && (k <= 0 ==> j == 0)
      invariant at' == at + j == at + |Tabs(j)| && out[..at'] == old(out[..at]) + Tabs(j)
    {
      TabsAppend(j);
      TabsSize(j);
      TabsSize(j + 1);
      out[at'] := TAB;
      assert out[..at' + 1] == out[..at'] + [TAB];
      at', j := at' + 1, j + 1;
    }
  }

  /** A name, with the layout around it. */
  function NameText(name: seq<byte>, depth: nat, fmt: bool): seq<byte> {
    When(fmt, Tabs(depth)) + PrintString(name) + [COLON] + When(fmt, [TAB])
  }

  method ComposeName(out: array<byte>, at: nat, name: array<byte>, ghost n: seq<byte>, depth: nat, fmt: bool)
    returns (p: nat)
    requires Holds(name, PrintString(n)) && name != out && at + |NameText(n, depth, fmt)| < out.Length
    modifies out
    ensures p == at + |NameText(n, depth, fmt)| && out[..p] == old(out[..at]) + NameText(n, depth, fmt)
  {
    hide PrintString, Tabs;
    ghost var text := PrintString(n);
    p := at;
    if fmt {
      p := WriteTabs(out, p, depth);
    }
    p := StrCpy(out, p, name, text);
    out[p] := COLON;
    p := p + 1;
    if fmt {
      out[p] := TAB;
      p := p + 1;
    }
  }

  /** One round of the loop that composes an object: tabs, name, colon, value. */
  method ComposeMember(out: array<byte>, at: nat, name: array<byte>, entry: array<byte>, ghost m: Member, depth: nat,
                       fmt: bool)
    returns (at': nat)
    requires Holds(name, PrintString(m.name)) && Holds(entry, PrintValue(m.value, depth, fmt))
    requires name != out && entry != out
    requires at + |PrintMember(m, depth, fmt)| < out.Length
    modifies out
    ensures at' == at + |PrintMember(m, depth, fmt)|
    ensures out[..at'] == old(out[..at]) + PrintMember(m, depth, fmt)
  {
    hide PrintValue, PrintString, Tabs, When;
    assert PrintMember(m, depth, fmt) == NameText(m.name, depth, fmt) + PrintValue(m.value, depth, fmt);
    hide PrintMember, NameText;
    var p := ComposeName(out, at, name, m.name, depth, fmt);
    at' := StrCpy(out, p, entry, PrintValue(m.value, depth, fmt));
  }

  /** The end of that round. */
  method ComposeGap(out: array<byte>, at: nat, last: bool, fmt: bool) returns (at': nat)
    requires at + |MemberGap(last, fmt)| < out.Length
    modifies out
    ensures at' == at + |MemberGap(last, fmt)| && out[..at'] == old(out[..at]) + MemberGap(last, fmt)
  {
    at' := at;
    if !last {
      out[at'] := COMMA;
      at' := at' + 1;
    }
    if fmt {
      out[at'] := NEWLINE;
      at' := at' + 1;
    }
    out[at'] := 0;
  }

  function PrintNames(ms: seq<Member>): (texts: seq<seq<byte>>)
    ensures |texts| == |ms|
  {
    seq(|ms|, i requires 0 <= i < |ms| => PrintString(ms[i].name))
  }

  function PrintMemberValues(ms: seq<Member>, depth: nat, fmt: bool): (texts: seq<seq<byte>>)
    ensures |texts| == |ms|
  {
    seq(|ms|, i requires 0 <= i < |ms| => PrintValue(ms[i].value, depth, fmt))
  }

  /** The text of an object whose members, at that depth, are ms. */
  function ObjectText(ms: seq<Member>, depth: nat, fmt: bool): seq<byte>
    requires ms != []
  {
    [OPEN_BRACE] + When(fmt, [NEWLINE]) + MembersLeft(ms, 0, depth, fmt)
  }

  /** What is written and what is left make the whole text. */
  ghost predicate Underway(out: array<byte>, p: nat, left: seq<byte>, whole: seq<byte>)
    reads out
  {
    p <= out.Length && out[..p] + left == whole
  }

  method StartObject(out: array<byte>, fmt: bool, ghost left: seq<byte>) returns (p: nat)
    requires out.Length >= 3
    modifies out
    ensures 1 <= p && Underway(out, p, left, [OPEN_BRACE] + When(fmt, [NEWLINE]) + left)
  {
    p := 1;
    out[0] := OPEN_BRACE;
    if fmt {
      out[p] := NEWLINE;
      p := p + 1;
    }
    out[p] := 0;
    assert out[..p] == [OPEN_BRACE] + When(fmt, [NEWLINE]);
  }

  method ComposeRound(out: array<byte>, at: nat, name: array<byte>, entry: array<byte>, ghost ms: seq<Member>, i: nat,
                      depth: nat, fmt: bool, last: bool, ghost whole: seq<byte>) returns (p: nat)
    requires i < |ms| && last == (i == |ms| - 1) && |whole| < out.Length
    requires Holds(name, PrintString(ms[i].name)) && Holds(entry, PrintValue(ms[i].value, depth, fmt))
    requires name != out && entry != out && Underway(out, at, MembersLeft(ms, i, depth, fmt), whole)
    modifies out
    ensures Underway(out, p, MembersLeft(ms, i + 1, depth, fmt), whole)
  {
    hide PrintString, PrintValue, PrintMember, MembersLeft, MemberGap, Holds;
    MembersLeftStep(ms, i, depth, fmt);
    ghost var text, gap := PrintMember(ms[i], depth, fmt), MemberGap(last, fmt);
    ghost var left, done := MembersLeft(ms, i + 1, depth, fmt), out[..at];
    assert done + (text + gap + left) == done + text + gap + left;
    p := ComposeMember(out, at, name, entry, ms[i], depth, fmt);
    p := ComposeGap(out, p, last, fmt);
  }

  method EndObject(out: array<byte>, at: nat, depth: int, fmt: bool, ghost whole: seq<byte>)
    requires |whole| < out.Length && Underway(out, at, When(fmt, Tabs(depth)) + [CLOSE_BRACE], whole)
    modifies out
    ensures out[..|whole|] == whole && out[|whole|] == 0
  {
    hide Tabs;
    var p := at;
    if fmt {
      p := WriteTabs(out, p, depth);
    }
    out[p], out[p + 1] := CLOSE_BRACE, 0;
    assert out[..p + 1] == out[..p] + [CLOSE_BRACE];
  }

  /** The half of print_object that fills the buffer: all it writes lies inside the len bytes. */
  method ComposeObject(heap: Heap, names: seq<array<byte>>, entries: seq<array<byte>>, len: nat, depth: nat, fmt: bool,
                       ghost ms: seq<Member>) returns (out: array<byte>)
    requires Arrays(names) + Arrays(entries) <= heap.live && Arrays(names) !! Arrays(entries)
    requires ms != [] && AllHold(names, PrintNames(ms)) && AllHold(entries, PrintMemberValues(ms, depth, fmt))
    requires len >= |ObjectText(ms, depth, fmt)| + 1 && NulFree(ObjectText(ms, depth, fmt))
    modifies heap`live, Arrays(names), Arrays(entries)
    ensures fresh(out) && Holds(out, ObjectText(ms, depth, fmt))
    ensures heap.live == old(heap.live) - Arrays(names) - Arrays(entries) + {out}
  {
    hide PrintString, PrintValue, MembersLeft, Underway, Holds, HoldFrom;
    ghost var whole := ObjectText(ms, depth, fmt);
    ghost var texts, values := PrintNames(ms), PrintMemberValues(ms, depth, fmt);
    EntryCount(names, texts);
    EntryCount(entries, values);
    MembersLeftEnds(ms, depth, fmt);
    assert names[0..] == names && entries[0..] == entries;
    out := heap.Alloc(len);
    var p := StartObject(out, fmt, MembersLeft(ms, 0, depth, fmt));
    assert whole == [OPEN_BRACE] + When(fmt, [NEWLINE]) + MembersLeft(ms, 0, depth, fmt);
    hide ObjectText, PrintMembers, Tabs, When;
    var i := 0;
    while i < |entries|
      invariant 0 <= i <= |entries| && Underway(out, p, MembersLeft(ms, i, depth, fmt), whole)
      invariant HoldFrom(names, texts, i) && HoldFrom(entries, values, i)
      invariant Arrays(names[i..]) + Arrays(entries[i..]) <= heap.live
      invariant heap.live == old(heap.live) - Arrays(names[..i]) - Arrays(entries[..i]) + {out}
    {
      assert texts[i] == PrintString(ms[i].name) && values[i] == PrintValue(ms[i].value, depth, fmt);
      EntryHolds(names, texts, i);
      EntryHolds(entries, values, i);
      p := ComposeRound(out, p, names[i], entries[i], ms, i, depth, fmt, i == |entries| - 1, whole);
      FreePair(heap, names, entries, i, texts, values);
      i := i + 1;
    }
    assert names[..i] == names && entries[..i] == entries;
    EndObject(out, p, depth - 1, fmt, whole);
    HoldsWhole(out, whole);
  }

  lemma EntryCount(entries: seq<array<byte>>, texts: seq<seq<byte>>)
    requires AllHold(entries, texts)
    ensures |entries| == |texts|
  {
  }

  lemma EntryHolds(entries: seq<array<byte>>, texts: seq<seq<byte>>, i: nat)
    requires HoldFrom(entries, texts, i) && i < |entries|
    ensures |entries| == |texts| && Holds(entries[i], texts[i]) && entries[i] in Arrays(entries)
  {
    hide Holds;
  }

  lemma HoldsWhole(out: array<byte>, whole: seq<byte>)
    requires |whole| < out.Length && NulFree(whole) && out[..|whole|] == whole && out[|whole|] == 0
    ensures Holds(out, whole)
  {
  }

  /** The buffers of one member. */
  method FreePair(heap: Heap, names: seq<array<byte>>, entries: seq<array<byte>>, i: nat,
                  ghost texts: seq<seq<byte>>, ghost values: seq<seq<byte>>)
    requires i < |names| == |entries| && HoldFrom(names, texts, i) && HoldFrom(entries, values, i)
    requires Arrays(names[i..]) + Arrays(entries[i..]) <= heap.live && Arrays(names) !! Arrays(entries)
    modifies heap`live, names[i], entries[i]
    ensures HoldFrom(names, texts, i + 1) && HoldFrom(entries, values, i + 1)
    ensures Arrays(names[i + 1..]) + Arrays(entries[i + 1..]) <= heap.live
    ensures heap.live == old(heap.live) - {names[i]} - {entries[i]}
    ensures Arrays(names[..i + 1]) == Arrays(names[..i]) + {names[i]}
    ensures Arrays(entries[..i + 1]) == Arrays(entries[..i]) + {entries[i]}
  {
    hide Holds;
    forall j, k | 0 <= j < |names| && 0 <= k < |entries| ensures names[j] != entries[k] {
      assert names[j] in Arrays(names) && entries[k] in Arrays(entries);
    }
    FreeEntry(heap, names, i, texts);
    LaterAreOthers(entries, i, names[i]);
    FreeEntry(heap, entries, i, values);
    LaterAreOthers(names, i + 1, entries[i]);
  }

  lemma LaterAreOthers(entries: seq<array<byte>>, i: nat, a: array<byte>)
    requires i <= |entries| && forall k :: 0 <= k < |entries| ==> entries[k] != a
    ensures a !in Arrays(entries[i..])
  {
    forall j | 0 <= j < |entries[i..]| ensures entries[i..][j] != a {
      assert entries[i..][j] == entries[i + j];
    }
  }
}
