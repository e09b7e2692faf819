/** What the printer writes, without its own words: the formatted print is the unformatted one laid out token by
    token, and a byte of a string is written in the shortest way there is. */
module JsonLayout {
  import opened Bytes
  import opened JsonText
  import opened JsonUnicode
  import opened JsonMinify
  import opened JsonMinifyPrint
  import opened JsonRoundTrip
  import opened JsonTokens

  // ---------- layout ----------

  function Indent(n: int): seq<byte> {
    if n <= 0 then [] else seq(n, i => 9)
  }

  /** A text, with open saying of each bracket that is open, innermost first, whether it is a brace. A member starts a
      line of its own, indented by the brackets open; a tab stands behind each colon, and a blank behind the commas of
      an array; literals are copied. A closing brace starts a line, but that of an empty object one tab short. */
  function Lay(t: seq<byte>, open: seq<bool>): seq<byte>
    decreases |t|
  {
    if t == [] then []
    else if t[0] == 34 then
      match LiteralEnd(t[1..])
      case None => t
      case Rest(rest) => t[..|t| - |rest|] + Lay(rest, open)
    else if t[0] == 123 && At(t, 1) == 125 then [123, 10] + Indent(|open| - 1) + [125] + Lay(t[2..], open)
    else if t[0] == 123 then [123, 10] + Indent(|open| + 1) + Lay(t[1..], [true] + open)
    else if t[0] == 91 then [91] + Lay(t[1..], [false] + open)
    else if t[0] in {93, 125} && open != [] then
      (if open[0] then [10] + Indent(|open| - 1) else []) + [t[0]] + Lay(t[1..], open[1..])
    else if t[0] == 44 then
      [44] + (if open != [] && open[0] then [10] + Indent(|open|) else [32]) + Lay(t[1..], open)
    else if t[0] == 58 then [58, 9] + Lay(t[1..], open)
    else [t[0]] + Lay(t[1..], open)
  }

  lemma {:induction false} TabsIndent(k: int)
    ensures Tabs(k) == Indent(k)
  {
    if k > 0 {
      TabsIndent(k - 1);
      assert [TAB] + Indent(k - 1) == Indent(k);
    }
  }

  /** Bytes that are copied. */
  predicate IsWord(p: seq<byte>) {
    forall i :: 0 <= i < |p| ==> p[i] !in {34, 44, 58, 91, 93, 123, 125}
  }

  lemma {:induction false} LayWord(p: seq<byte>, t: seq<byte>, open: seq<bool>)
    requires IsWord(p)
    ensures Lay(p + t, open) == p + Lay(t, open)
  {
    if p == [] {
      assert p + t == t;
    } else {
      assert (p + t)[1..] == p[1..] + t;
      LayWord(p[1..], t, open);
    }
  }

  lemma LayString(s: seq<byte>, t: seq<byte>, open: seq<bool>)
    requires NulFree(s)
    ensures Lay(PrintString(s) + t, open) == PrintString(s) + Lay(t, open)
  {
    var p := PrintString(s);
    assert (p + t)[1..] == Escape(s) + ([QUOTE] + t);
    LiteralEndOfEscape(s, t);
    assert (p + t)[..|p + t| - |t|] == p;
    hide Escape, LiteralEnd;
  }

  lemma LayNumber(n: int, t: seq<byte>, open: seq<bool>)
    ensures Lay(PrintNumber(n) + t, open) == PrintNumber(n) + Lay(t, open)
  {
    DecimalIsDigits(if n < 0 then -n else n);
    LayWord(PrintNumber(n), t, open);
  }

  /** One token at the head of a text. */
  lemma LayToken(b: byte, t: seq<byte>, open: seq<bool>)
    requires b in {44, 58, 91} || (b in {93, 125} && open != []) || (b == 123 && At(t, 0) != 125)
    ensures b == 44 ==>
      Lay([b] + t, open) == [44] + (if open != [] && open[0] then [10] + Indent(|open|) else [32]) + Lay(t, open)
    ensures b == 58 ==> Lay([b] + t, open) == [58, 9] + Lay(t, open)
    ensures b == 91 ==> Lay([b] + t, open) == [91] + Lay(t, [false] + open)
    ensures b in {93, 125} ==>
      Lay([b] + t, open) == (if open[0] then [10] + Indent(|open| - 1) else []) + [b] + Lay(t, open[1..])
    ensures b == 123 ==> Lay([b] + t, open) == [123, 10] + Indent(|open| + 1) + Lay(t, [true] + open)
  {
    hide Indent, LiteralEnd;
    assert ([b] + t)[1..] == t;
    assert At([b] + t, 1) == At(t, 0);
  }

  lemma LayEmptyObject(t: seq<byte>, open: seq<bool>)
    ensures Lay([123, 125] + t, open) == [123, 10] + Indent(|open| - 1) + [125] + Lay(t, open)
  {
    hide Indent, LiteralEnd;
    var u := [123, 125] + t;
    assert u[0] == 123 && At(u, 1) == 125 && u[2..] == t;
  }

  lemma {:induction false} LayValue(v: Json, depth: nat, t: seq<byte>, open: seq<bool>)
    requires Printable(v)
    ensures Lay(PrintValue(v, depth, false) + t, open) == PrintValue(v, |open|, true) + Lay(t, open)
    decreases v, 3
  {
    hide Lay;
    match v
    case Null => LayWord(NULL_TEXT, t, open);
    case False => LayWord(FALSE_TEXT, t, open);
    case True => LayWord(TRUE_TEXT, t, open);
    case Number(n) => LayNumber(n, t, open);
    case String(s) => LayString(s, t, open);
    case Array(items) => LayArray(items, depth, t, open);
    case Object(ms) => LayObject(ms, depth, t, open);
  }

  lemma {:induction false} LayArray(items: seq<Json>, depth: nat, t: seq<byte>, open: seq<bool>)
    requires forall i :: 0 <= i < |items| ==> Printable(items[i])
    ensures Lay(PrintValue(Array(items), depth, false) + t, open)
         == PrintValue(Array(items), |open|, true) + Lay(t, open)
    decreases items, 2
  {
    hide Lay, PrintItems, Printable;
    var close := [93] + t;
    var within := [false] + open;
    assert within[1..] == open;
    if items == [] {
      assert PrintValue(Array(items), depth, false) + t == [91] + close;
      LayToken(91, close, open);
      LayToken(93, t, within);
    } else {
      var inside, inside' := PrintItems(items, depth + 1, false), PrintItems(items, |open| + 1, true);
      assert PrintValue(Array(items), depth, false) + t == [91] + (inside + close);
      LayToken(91, inside + close, open);
      LayItems(items, depth + 1, close, within);
      LayToken(93, t, within);
      assert PrintValue(Array(items), |open|, true) == [91] + inside' + [93];
      hide PrintValue;
      assert [91] + (inside' + ([] + [93] + Lay(t, open))) == [91] + inside' + [93] + Lay(t, open);
    }
  }

  lemma {:induction false} LayItems(items: seq<Json>, depth: nat, t: seq<byte>, open: seq<bool>)
    requires items != [] && (forall i :: 0 <= i < |items| ==> Printable(items[i])) && open != [] && !open[0]
    ensures Lay(PrintItems(items, depth, false) + t, open) == PrintItems(items, |open|, true) + Lay(t, open)
    decreases items, 1
  {
    hide Lay, PrintValue, Printable;
    var first, first' := PrintValue(items[0], depth, false), PrintValue(items[0], |open|, true);
    if |items| == 1 {
      LayValue(items[0], depth, t, open);
    } else {
      var more, more' := PrintItems(items[1..], depth, false), PrintItems(items[1..], |open|, true);
      assert PrintItems(items, depth, false) == first + [44] + more by {
        assert When(false, [SPACE]) == [];
      }
      assert PrintItems(items, |open|, true) == first' + [44] + [32] + more';
      hide PrintItems;
      assert first + [44] + more + t == first + ([44] + (more + t));
      LayValue(items[0], depth, [44] + (more + t), open);
      LayToken(44, more + t, open);
      LayItems(items[1..], depth, t, open);
      assert first' + ([44] + [32] + (more' + Lay(t, open))) == first' + [44] + [32] + more' + Lay(t, open);
    }
  }

  lemma {:induction false} LayObject(ms: seq<Member>, depth: nat, t: seq<byte>, open: seq<bool>)
    requires forall i :: 0 <= i < |ms| ==> NulFree(ms[i].name) && Printable(ms[i].value)
    ensures Lay(PrintValue(Object(ms), depth, false) + t, open)
         == PrintValue(Object(ms), |open|, true) + Lay(t, open)
    decreases ms, 2
  {
    hide Lay, PrintMembers, Printable, Tabs, NulFree;
    var rest := Lay(t, open);
    if ms == [] {
      TabsIndent(|open| - 1);
      LayEmptyObject(t, open);
      assert PrintValue(Object(ms), depth, false) == [123, 125];
      assert PrintValue(Object(ms), |open|, true) == [123, 10] + Indent(|open| - 1) + [125];
    } else {
      var within := [true] + open;
      var inside, inside' := PrintMembers(ms, depth + 1, false), PrintMembers(ms, |open| + 1, true);
      TabsIndent(|open|);
      assert PrintValue(Object(ms), depth, false) + t == [123] + (inside + ([125] + t)) by {
        assert When(false, [NEWLINE]) == [] && When(false, Tabs(depth)) == [];
      }
      assert PrintValue(Object(ms), |open|, true) == [123] + [10] + inside' + Indent(|open|) + [125];
      hide PrintValue;
      MembersStart(ms, depth + 1);
      LayToken(123, inside + ([125] + t), open);
      LayMembers(ms, depth + 1, t, within);
      assert within[1..] == open;
      assert [123] + [10] + inside' + Indent(|open|) + [125] + rest
          == [123, 10] + (inside' + (Indent(|open|) + [125] + rest));
      assert Lay([123] + (inside + ([125] + t)), open)
          == [123, 10] + (Indent(|open| + 1) + Lay(inside + ([125] + t), within));
    }
  }

  lemma MembersStart(ms: seq<Member>, depth: nat)
    requires ms != []
    ensures PrintMembers(ms, depth, false) != [] && PrintMembers(ms, depth, false)[0] == 34
  {
    hide PrintValue, Escape;
    assert When(false, Tabs(depth)) == [];
  }

  /** The members up to their closing brace, which starts a line. */
  lemma {:induction false} LayMembers(ms: seq<Member>, depth: nat, t: seq<byte>, open: seq<bool>)
    requires ms != [] && forall i :: 0 <= i < |ms| ==> NulFree(ms[i].name) && Printable(ms[i].value)
    requires open != [] && open[0]
    ensures Indent(|open|) + Lay(PrintMembers(ms, depth, false) + ([125] + t), open)
         == PrintMembers(ms, |open|, true) + (Indent(|open| - 1) + [125] + Lay(t, open[1..]))
    decreases ms, 1
  {
    hide Lay, PrintValue, PrintMember, Printable, Indent, NulFree, PrintString;
    var m, n := ms[0], |open|;
    var name, value' := PrintString(m.name), PrintValue(m.value, n, true);
    var end := Indent(n - 1) + [125] + Lay(t, open[1..]);
    MembersText(ms, depth, n);
    hide PrintMembers;
    if |ms| == 1 {
      LayMember(m, depth, [125] + t, open);
      LayToken(125, t, open);
      LastMember(Indent(n), name, value', end);
      assert [10] + Indent(n - 1) + [125] + Lay(t, open[1..]) == [10] + end;
    } else {
      var more := PrintMembers(ms[1..], depth, false) + ([125] + t);
      LayMember(m, depth, [44] + more, open);
      LayToken(44, more, open);
      LayMembers(ms[1..], depth, t, open);
      OneMoreMember(Indent(n), name, value', PrintMembers(ms[1..], n, true), Lay(more, open), end);
      FirstMember(name + [58] + PrintValue(m.value, depth, false), PrintMembers(ms[1..], depth, false), [125] + t);
    }
  }

  lemma FirstMember(first: seq<byte>, more: seq<byte>, t: seq<byte>)
    ensures first + [44] + more + t == first + ([44] + (more + t))
  {
  }

  lemma LastMember(i: seq<byte>, name: seq<byte>, value: seq<byte>, end: seq<byte>)
    ensures i + (name + ([58, 9] + (value + ([10] + end)))) == i + name + [58] + [9] + value + [10] + end
  {
  }

  lemma OneMoreMember(i: seq<byte>, name: seq<byte>, value: seq<byte>, more: seq<byte>, laid: seq<byte>,
                      end: seq<byte>)
    requires i + laid == more + end
    ensures i + (name + ([58, 9] + (value + ([44] + ([10] + i) + laid))))
         == i + name + [58] + [9] + value + [44] + [10] + more + end
  {
    assert [44] + ([10] + i) + laid == [44] + ([10] + (i + laid));
  }

  /** Members in both layouts. */
  lemma MembersText(ms: seq<Member>, depth: nat, n: nat)
    requires ms != []
    ensures var m := ms[0];
      var bare := PrintString(m.name) + [58] + PrintValue(m.value, depth, false);
      var laid := Indent(n) + PrintString(m.name) + [58] + [9] + PrintValue(m.value, n, true);
      if |ms| == 1 then PrintMembers(ms, depth, false) == bare && PrintMembers(ms, n, true) == laid + [10]
      else
        && PrintMembers(ms, depth, false) == bare + [44] + PrintMembers(ms[1..], depth, false)
        && PrintMembers(ms, n, true) == laid + [44] + [10] + PrintMembers(ms[1..], n, true)
  {
    hide PrintValue, PrintString, Indent, PrintMember;
    assert When(false, [NEWLINE]) == [];
    MemberText(ms[0], depth, n);
  }

  lemma MemberText(m: Member, depth: nat, n: nat)
    ensures PrintMember(m, depth, false) == PrintString(m.name) + [58] + PrintValue(m.value, depth, false)
    ensures PrintMember(m, n, true) == Indent(n) + PrintString(m.name) + [58] + [9] + PrintValue(m.value, n, true)
  {
    TabsIndent(n);
    hide PrintValue, PrintString, Tabs, Indent;
    assert When(false, [TAB]) == [] && When(false, Tabs(depth)) == [];
  }

  lemma {:induction false} LayMember(m: Member, depth: nat, t: seq<byte>, open: seq<bool>)
    requires NulFree(m.name) && Printable(m.value)
    ensures Lay(PrintString(m.name) + [58] + PrintValue(m.value, depth, false) + t, open)
         == PrintString(m.name) + ([58, 9] + (PrintValue(m.value, |open|, true) + Lay(t, open)))
    decreases m, 4
  {
    hide Lay, PrintValue, Printable, NulFree, PrintString;
    var name, value := PrintString(m.name), PrintValue(m.value, depth, false);
    assert name + [58] + value + t == name + ([58] + (value + t));
    LayString(m.name, [58] + (value + t), open);
    LayToken(58, value + t, open);
    LayValue(m.value, depth, t, open);
  }

  /** cJSON_Print is cJSON_PrintUnformatted, laid out. */
  lemma FormattedIsLaidOut(v: Json)
    requires Printable(v)
    ensures PrintValue(v, 0, true) == Lay(PrintValue(v, 0, false), [])
  {
    var p, p' := PrintValue(v, 0, false), PrintValue(v, 0, true);
    LayValue(v, 0, [], []);
    assert p + [] == p && Lay([], []) == [] && p' + [] == p';
    hide PrintValue, Lay;
  }

  // ---------- escapes ----------

  /** A character as section 7 of RFC 8259 has it, hexadecimal digits in small letters. */
  predicate IsStandard(c: Char) {
    && IsChar(c)
    && match c
       case Raw(b) => b >= 32
       case Short(letter) => letter in {34, 47, 92, 98, 102, 110, 114, 116}
       case Unicode(Single(hex)) => forall i :: 0 <= i < |hex| ==> !hex[i].upper
       case _ => true
  }

  /** What is printed for a byte is such a character, and means the byte. */
  lemma EscapeIsStandard(b: byte) returns (c: Char)
    requires b != 0
    ensures IsStandard(c) && CharText(c) == EscapeByte(b) && CharMeaning(c) == [b]
  {
    if b >= 32 && b != 34 && b != 92 {
      c := Raw(b);
    } else if b in {34, 92} {
      c := Short(b);
    } else if b in {8, 9, 10, 12, 13} {
      c := Short(if b == 8 then 98 else if b == 12 then 102 else if b == 10 then 110 else if b == 13 then 114 else 116);
    } else {
      var zero := Digit(0, false);
      var hex := [zero, zero, Digit(b / 16, false), Digit(b % 16, false)];
      assert HexNumber(hex) == b;
      c := Unicode(Single(hex));
      assert EscapeByte(b) == HexEscape(hex);
    }
  }

  /** And every other one that means it is longer. */
  lemma EscapeIsShortest(b: byte, c: Char)
    requires b != 0 && IsStandard(c) && CharMeaning(c) == [b]
    ensures CharText(c) == EscapeByte(b) || |CharText(c)| > |EscapeByte(b)|
  {
    match c
    case Unicode(Single(hex)) =>
      SingleMeans(hex, b);
      var zero := Digit(0, false);
      if |EscapeByte(b)| == 6 {
        assert HexText(hex) == [48, 48, HexDigit(b / 16), HexDigit(b % 16)];
      }
    case _ =>
  }

  lemma SingleMeans(hex: seq<Digit>, b: byte)
    requires IsFour(hex) && IsScalar(HexNumber(hex)) && Utf8(HexNumber(hex)) == [b]
    ensures HexNumber(hex) == b && b < 128 && hex[0].value == 0 == hex[1].value
    ensures hex[2].value == b as int / 16 && hex[3].value == b as int % 16
  {
  }
}
