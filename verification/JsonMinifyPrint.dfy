/** Minifying what was printed gives the unformatted print, byte for byte. */
module JsonMinifyPrint {
  import opened Bytes
  import opened JsonText
  import opened JsonRoundTrip
  import opened JsonMinify

  /** White space that cJSON_Minify drops. */
  predicate IsDropped(w: seq<byte>) {
    forall i :: 0 <= i < |w| ==> w[i] in {SPACE, TAB, RETURN, NEWLINE}
  }

  /** Bytes that cJSON_Minify copies one by one, whatever follows. */
  predicate IsPlain(p: seq<byte>) {
    forall i :: 0 <= i < |p| ==> p[i] > 32 && p[i] != QUOTE && p[i] != SLASH
  }

  lemma {:induction false} MinifyDropped(w: seq<byte>, t: seq<byte>)
    requires IsDropped(w)
    ensures Minify(w + t) == Minify(t)
  {
    if w == [] {
      assert w + t == t;
    } else {
      assert (w + t)[1..] == w[1..] + t;
      MinifyDropped(w[1..], t);
    }
  }

  lemma {:induction false} MinifyPlain(p: seq<byte>, t: seq<byte>)
    requires IsPlain(p)
    ensures Minify(p + t) == Before(p, Minify(t))
  {
    if p == [] {
      assert p + t == t;
      BeforeNothing(Minify(t));
    } else {
      assert (p + t)[1..] == p[1..] + t;
      MinifyPlain(p[1..], t);
      BeforeBefore([p[0]], p[1..], Minify(t));
      assert [p[0]] + p[1..] == p;
    }
  }

  lemma BeforeNothing(m: Minified)
    ensures Before([], m) == m
  {
    if m.Text? { assert [] + m.bytes == m.bytes; }
  }

  lemma LiteralEndOfByte(b: byte, t: seq<byte>)
    requires b != 0
    ensures LiteralEnd(EscapeByte(b) + t) == LiteralEnd(t)
  {
    var u := EscapeByte(b) + t;
    if u[0] == BACKSLASH {
      assert u[1] != 0;
      assert u[2..] == EscapeByte(b)[2..] + t;
      if |EscapeByte(b)| == 6 {
        PlainInLiteral(EscapeByte(b)[2..], t);
      } else {
        assert EscapeByte(b)[2..] + t == t;
      }
    } else {
      assert u[1..] == t;
    }
  }

  lemma {:induction false} PlainInLiteral(p: seq<byte>, t: seq<byte>)
    requires forall i :: 0 <= i < |p| ==> p[i] != 0 && p[i] != QUOTE && p[i] != BACKSLASH
    ensures LiteralEnd(p + t) == LiteralEnd(t)
  {
    if p == [] {
      assert p + t == t;
    } else {
      assert (p + t)[1..] == p[1..] + t;
      PlainInLiteral(p[1..], t);
    }
  }

  lemma {:induction false} LiteralEndOfEscape(s: seq<byte>, post: seq<byte>)
    requires NulFree(s)
    ensures LiteralEnd(Escape(s) + ([QUOTE] + post)) == Rest(post)
  {
    var close := [QUOTE] + post;
    if s == [] {
      assert Escape(s) + close == close && close[1..] == post;
    } else {
      assert Escape(s) + close == EscapeByte(s[0]) + (Escape(s[1..]) + close);
      LiteralEndOfByte(s[0], Escape(s[1..]) + close);
      LiteralEndOfEscape(s[1..], post);
    }
  }

  lemma MinifyLiteral(s: seq<byte>, post: seq<byte>)
    requires NulFree(s)
    ensures Minify(PrintString(s) + post) == Before(PrintString(s), Minify(post))
  {
    var p := PrintString(s);
    var t := p + post;
    assert t[1..] == Escape(s) + ([QUOTE] + post);
    LiteralEndOfEscape(s, post);
    assert t[..|t| - |post|] == p;
    hide Escape, LiteralEnd;
  }

  lemma TabsAreDropped(k: int)
    ensures IsDropped(Tabs(k))
  {
  }

  lemma MinifyNumber(n: int, post: seq<byte>)
    ensures Minify(PrintNumber(n) + post) == Before(PrintNumber(n), Minify(post))
  {
    DecimalIsDigits(if n < 0 then -n else n);
    MinifyPlain(PrintNumber(n), post);
  }

  lemma {:induction false} MinifyPrint(v: Json, depth: nat, fmt: bool, depth': nat, post: seq<byte>)
    requires Printable(v)
    ensures Minify(PrintValue(v, depth, fmt) + post) == Before(PrintValue(v, depth', false), Minify(post))
    decreases v, 3
  {
    hide Minify;
    match v
    case Null => MinifyPlain(NULL_TEXT, post);
    case False => MinifyPlain(FALSE_TEXT, post);
    case True => MinifyPlain(TRUE_TEXT, post);
    case Number(n) => MinifyNumber(n, post);
    case String(s) => MinifyLiteral(s, post);
    case Array(items) => MinifyArray(items, depth, fmt, depth', post);
    case Object(ms) => MinifyObject(ms, depth, fmt, depth', post);
  }

  lemma {:induction false} MinifyArray(items: seq<Json>, depth: nat, fmt: bool, depth': nat, post: seq<byte>)
    requires forall i :: 0 <= i < |items| ==> Printable(items[i])
    ensures Minify(PrintValue(Array(items), depth, fmt) + post)
         == Before(PrintValue(Array(items), depth', false), Minify(post))
    decreases items, 2
  {
    hide Minify, PrintItems, Printable;
    var open, close := [OPEN_BRACKET], [CLOSE_BRACKET];
    if items == [] {
      MinifyPlain([OPEN_BRACKET, CLOSE_BRACKET], post);
    } else {
      var inside := PrintItems(items, depth + 1, fmt);
      var inside' := PrintItems(items, depth' + 1, false);
      assert PrintValue(Array(items), depth, fmt) + post == open + (inside + (close + post));
      assert PrintValue(Array(items), depth', false) == open + inside' + close;
      hide PrintValue;
      MinifyPlain(open, inside + (close + post));
      MinifyItems(items, depth + 1, fmt, depth' + 1, close + post);
      MinifyPlain(close, post);
      BeforeThree(open, inside', close, Minify(post));
    }
  }

  lemma BeforeThree(x: seq<byte>, y: seq<byte>, z: seq<byte>, m: Minified)
    ensures Before(x, Before(y, Before(z, m))) == Before(x + y + z, m)
  {
    BeforeBefore(y, z, m);
    BeforeBefore(x, y + z, m);
    assert x + (y + z) == x + y + z;
  }

  lemma {:induction false} MinifyItems(items: seq<Json>, depth: nat, fmt: bool, depth': nat, post: seq<byte>)
    requires items != [] && forall i :: 0 <= i < |items| ==> Printable(items[i])
    ensures Minify(PrintItems(items, depth, fmt) + post) == Before(PrintItems(items, depth', false), Minify(post))
    decreases items, 1
  {
    hide Minify, PrintValue, Printable;
    var first := PrintValue(items[0], depth, fmt);
    var first' := PrintValue(items[0], depth', false);
    if |items| == 1 {
      MinifyPrint(items[0], depth, fmt, depth', post);
    } else {
      var w := When(fmt, [SPACE]);
      var more := PrintItems(items[1..], depth, fmt);
      var more' := PrintItems(items[1..], depth', false);
      assert PrintItems(items, depth, fmt) == first + [COMMA] + w + more;
      assert PrintItems(items, depth', false) == first' + [COMMA] + more' by {
        assert When(false, [SPACE]) == [];
      }
      hide PrintItems;
      Regroup(first, [COMMA], w, more, post);
      MinifyPrint(items[0], depth, fmt, depth', [COMMA] + (w + (more + post)));
      MinifyPlain([COMMA], w + (more + post));
      MinifyDropped(w, more + post);
      MinifyItems(items[1..], depth, fmt, depth', post);
      BeforeThree(first', [COMMA], more', Minify(post));
    }
  }

  lemma MinifyEmptyObject(depth: nat, fmt: bool, depth': nat, post: seq<byte>)
    ensures Minify(PrintValue(Object([]), depth, fmt) + post)
         == Before(PrintValue(Object([]), depth', false), Minify(post))
  {
    hide Minify, PrintMembers, Tabs;
    var open, close := [OPEN_BRACE], [CLOSE_BRACE];
    var w := When(fmt, [NEWLINE] + Tabs(depth - 1));
    TabsAreDropped(depth - 1);
    assert PrintValue(Object([]), depth, fmt) + post == open + (w + (close + post));
    assert PrintValue(Object([]), depth', false) == open + close;
    hide PrintValue;
    MinifyPlain(open, w + (close + post));
    MinifyDropped(w, close + post);
    MinifyPlain(close, post);
    BeforeBefore(open, close, Minify(post));
  }

  lemma {:induction false} MinifyObject(ms: seq<Member>, depth: nat, fmt: bool, depth': nat, post: seq<byte>)
    requires forall i :: 0 <= i < |ms| ==> NulFree(ms[i].name) && Printable(ms[i].value)
    ensures Minify(PrintValue(Object(ms), depth, fmt) + post)
         == Before(PrintValue(Object(ms), depth', false), Minify(post))
    decreases ms, 2
  {
    hide Minify, PrintMembers, Printable, Tabs, NulFree;
    if ms == [] {
      MinifyEmptyObject(depth, fmt, depth', post);
    } else {
      var open, close := [OPEN_BRACE], [CLOSE_BRACE];
      var w1, w2 := When(fmt, [NEWLINE]), When(fmt, Tabs(depth));
      var inside := PrintMembers(ms, depth + 1, fmt);
      var inside' := PrintMembers(ms, depth' + 1, false);
      TabsAreDropped(depth);
      assert IsDropped(w1) && IsDropped(w2);
      hide PrintValue, When, IsDropped;
      PrintedObject(ms, depth, fmt, depth', post);
      MinifyPlain(open, w1 + (inside + (w2 + (close + post))));
      MinifyDropped(w1, inside + (w2 + (close + post)));
      MinifyMembers(ms, depth + 1, fmt, depth' + 1, w2 + (close + post));
      MinifyDropped(w2, close + post);
      MinifyPlain(close, post);
      BeforeThree(open, inside', close, Minify(post));
    }
  }

  lemma PrintedObject(ms: seq<Member>, depth: nat, fmt: bool, depth': nat, post: seq<byte>)
    requires ms != []
    ensures PrintValue(Object(ms), depth, fmt) + post
         == [OPEN_BRACE] + (When(fmt, [NEWLINE]) + (PrintMembers(ms, depth + 1, fmt)
            + (When(fmt, Tabs(depth)) + ([CLOSE_BRACE] + post))))
    ensures PrintValue(Object(ms), depth', false)
         == [OPEN_BRACE] + PrintMembers(ms, depth' + 1, false) + [CLOSE_BRACE]
  {
    hide PrintMembers, Tabs;
    var open, close := [OPEN_BRACE], [CLOSE_BRACE];
    var w1, w2, inside := When(fmt, [NEWLINE]), When(fmt, Tabs(depth)), PrintMembers(ms, depth + 1, fmt);
    assert PrintValue(Object(ms), depth, fmt) == open + w1 + inside + w2 + close;
    assert PrintValue(Object(ms), depth', false) == open + PrintMembers(ms, depth' + 1, false) + close by {
      assert When(false, [NEWLINE]) == [] && When(false, Tabs(depth')) == [];
    }
    hide PrintValue, When;
    assert open + w1 + inside + w2 + close + post == open + w1 + inside + w2 + (close + post);
    Regroup(open, w1, inside, w2, close + post);
  }

  lemma {:induction false} MinifyMember(m: Member, depth: nat, fmt: bool, depth': nat, post: seq<byte>)
    requires NulFree(m.name) && Printable(m.value)
    ensures Minify(PrintMember(m, depth, fmt) + post) == Before(PrintMember(m, depth', false), Minify(post))
    decreases m, 4
  {
    hide Minify, PrintValue, Printable, PrintString, Tabs, NulFree;
    var w1, w2 := When(fmt, Tabs(depth)), When(fmt, [TAB]);
    var name, value := PrintString(m.name), PrintValue(m.value, depth, fmt);
    var value' := PrintValue(m.value, depth', false);
    TabsAreDropped(depth);
    assert IsDropped(w1) && IsDropped(w2);
    assert PrintMember(m, depth, fmt) == w1 + name + [COLON] + w2 + value;
    assert PrintMember(m, depth', false) == name + [COLON] + value' by {
      assert When(false, [TAB]) == [] && When(false, Tabs(depth')) == [];
    }
    hide PrintMember, When, IsDropped;
    assert w1 + name + [COLON] + w2 + value + post == w1 + name + [COLON] + w2 + (value + post);
    Regroup(w1, name, [COLON], w2, value + post);
    MinifyDropped(w1, name + ([COLON] + (w2 + (value + post))));
    MinifyLiteral(m.name, [COLON] + (w2 + (value + post)));
    MinifyPlain([COLON], w2 + (value + post));
    MinifyDropped(w2, value + post);
    MinifyPrint(m.value, depth, fmt, depth', post);
    BeforeThree(name, [COLON], value', Minify(post));
  }

  lemma {:induction false} MinifyMembers(ms: seq<Member>, depth: nat, fmt: bool, depth': nat, post: seq<byte>)
    requires ms != [] && forall i :: 0 <= i < |ms| ==> NulFree(ms[i].name) && Printable(ms[i].value)
    ensures Minify(PrintMembers(ms, depth, fmt) + post) == Before(PrintMembers(ms, depth', false), Minify(post))
    decreases ms, 1
  {
    hide Minify, PrintMember, Printable, NulFree;
    var first := PrintMember(ms[0], depth, fmt);
    var first' := PrintMember(ms[0], depth', false);
    var w := When(fmt, [NEWLINE]);
    assert IsDropped(w);
    if |ms| == 1 {
      assert PrintMembers(ms, depth, fmt) + post == first + (w + post);
      assert PrintMembers(ms, depth', false) == first' by { assert When(false, [NEWLINE]) == []; }
      MinifyMember(ms[0], depth, fmt, depth', w + post);
      MinifyDropped(w, post);
    } else {
      var more := PrintMembers(ms[1..], depth, fmt);
      var more' := PrintMembers(ms[1..], depth', false);
      assert PrintMembers(ms, depth, fmt) == first + [COMMA] + w + more;
      assert PrintMembers(ms, depth', false) == first' + [COMMA] + more' by {
        assert When(false, [NEWLINE]) == [];
      }
      hide PrintMembers, When, IsDropped;
      Regroup(first, [COMMA], w, more, post);
      MinifyMember(ms[0], depth, fmt, depth', [COMMA] + (w + (more + post)));
      MinifyPlain([COMMA], w + (more + post));
      MinifyDropped(w, more + post);
      MinifyMembers(ms[1..], depth, fmt, depth', post);
      BeforeThree(first', [COMMA], more', Minify(post));
    }
  }

  /** cJSON_Minify of cJSON_Print is cJSON_PrintUnformatted. */
  lemma MinifiedPrintIsUnformatted(v: Json)
    requires Printable(v)
    ensures Minify(PrintValue(v, 0, true)) == Text(PrintValue(v, 0, false))
    ensures Minify(PrintValue(v, 0, false)) == Text(PrintValue(v, 0, false))
  {
    var p, p' := PrintValue(v, 0, true), PrintValue(v, 0, false);
    MinifyPrint(v, 0, true, 0, []);
    MinifyPrint(v, 0, false, 0, []);
    assert p + [] == p && p' + [] == p';
    hide PrintValue;
    assert Minify([]) == Text([]);
  }
}
