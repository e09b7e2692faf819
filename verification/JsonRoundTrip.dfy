/** Reading back what was printed: any printable tree, formatted or not, at any depth. */
module JsonRoundTrip {
  import opened Bytes
  import opened JsonText

  /** Bytes the parser skips between tokens. */
  predicate IsBlank(w: seq<byte>) {
    forall i :: 0 <= i < |w| ==> 0 < w[i] <= 32
  }

  lemma TabsAreBlank(k: int)
    ensures IsBlank(Tabs(k))
  {
  }

  lemma {:induction false} SkipBlank(w: seq<byte>, t: seq<byte>)
    requires IsBlank(w)
    ensures Skip(w + t) == Skip(t)
  {
    if w == [] {
      assert w + t == t;
    } else {
      assert (w + t)[1..] == w[1..] + t;
      SkipBlank(w[1..], t);
    }
  }

  lemma NoSkip(t: seq<byte>)
    requires At(t, 0) > 32
    ensures Skip(t) == t
  {
  }

  /** What may follow a number without being taken into it. */
  predicate EndsNumber(t: seq<byte>) {
    var b := At(t, 0);
    !IsDigit(b) && b != DOT && b != 69 && b != 101
  }

  /** The first byte of a value is neither white space nor a closing bracket. */
  lemma ValueStarts(v: Json, depth: nat, fmt: bool)
    ensures var p := PrintValue(v, depth, fmt);
            p != [] && p[0] > 32 && p[0] != CLOSE_BRACKET && p[0] != COMMA
  {
    match v
    case Number(n) => DecimalIsDigits(if n < 0 then -n else n);
    case _ =>
  }

  // ---------- strings ----------

  lemma HexDigitValue(d: int)
    requires 0 <= d < 16
    ensures IsHex(HexDigit(d)) && HexValue(HexDigit(d)) == d
  {
  }

  lemma UnescapeEscapeByte(b: byte, t: seq<byte>)
    requires b != 0
    ensures Unescape(EscapeByte(b) + t) == Prepend([b], Unescape(t))
  {
    var e := EscapeByte(b);
    var u := e + t;
    assert u[|e|..] == t;
    if e[0] == BACKSLASH {
      HexDigitValue(b / 16 % 16);
      HexDigitValue(b % 16);
      assert ReadEscape(u) == Step([b], |e|);
    }
  }

  lemma {:induction false} UnescapeEscape(s: seq<byte>, post: seq<byte>)
    requires NulFree(s)
    ensures Unescape(Escape(s) + [QUOTE] + post) == Ok(s, post)
  {
    if s == [] {
      assert Escape(s) + [QUOTE] + post == [QUOTE] + post;
    } else {
      var t := Escape(s[1..]) + [QUOTE] + post;
      assert Escape(s) + [QUOTE] + post == EscapeByte(s[0]) + t;
      UnescapeEscapeByte(s[0], t);
      UnescapeEscape(s[1..], post);
      assert [s[0]] + s[1..] == s;
    }
  }

  lemma StringRoundTrip(s: seq<byte>, post: seq<byte>)
    requires NulFree(s)
    ensures ParseString(PrintString(s) + post) == Ok(s, post)
  {
    var t := PrintString(s) + post;
    assert t[1..] == Escape(s) + [QUOTE] + post;
    UnescapeEscape(s, post);
  }

  // ---------- numbers ----------

  lemma {:induction false} DecimalIsDigits(n: nat)
    ensures Decimal(n) != [] && forall i :: 0 <= i < |Decimal(n)| ==> IsDigit(Decimal(n)[i])
    ensures n > 0 ==> Decimal(n)[0] != ZERO
  {
    if n >= 10 { DecimalIsDigits(n / 10); }
  }

  lemma {:induction false} Pow10Step(a: nat, k: nat)
    ensures a * Pow10(k + 1) == a * 10 * Pow10(k)
  {
  }

  /** Reading the digits of n onto a gives the number written a then n. */
  lemma {:induction false} ReadDecimal(a: nat, n: nat, post: seq<byte>)
    requires !IsDigit(At(post, 0))
    ensures ReadDigits(a, Decimal(n) + post) == (a * Pow10(|Decimal(n)|) + n, post)
  {
    ReadDecimalOn(a, n, post);
    assert ReadDigits(a * Pow10(|Decimal(n)|) + n, post) == (a * Pow10(|Decimal(n)|) + n, post);
  }

  lemma {:induction false} ReadDecimalOn(a: nat, n: nat, t: seq<byte>)
    ensures ReadDigits(a, Decimal(n) + t) == ReadDigits(a * Pow10(|Decimal(n)|) + n, t)
    decreases n
  {
    if n < 10 {
      assert (Decimal(n) + t)[1..] == t;
      assert Pow10(1) == 10 * Pow10(0);
    } else {
      var last := [ZERO + n % 10];
      assert Decimal(n) + t == Decimal(n / 10) + (last + t);
      var k := |Decimal(n / 10)|;
      var m := a * Pow10(k) + n / 10;
      ReadDecimalOn(a, n / 10, last + t);
      hide Decimal;
      ReadDigit(m, last[0], t);
      Pow10Step(a, k);
      ScaleSum(a, Pow10(k), n);
    }
  }

  lemma ReadDigit(m: nat, d: byte, t: seq<byte>)
    requires IsDigit(d)
    ensures ReadDigits(m, [d] + t) == ReadDigits(m * 10 + (d - ZERO), t)
  {
    assert ([d] + t)[1..] == t;
  }

  lemma ScaleSum(a: nat, p: nat, n: nat)
    ensures (a * p + n / 10) * 10 + n % 10 == a * 10 * p + n
  {
    assert (a * p) * 10 == a * 10 * p;
  }

  lemma NumberRoundTrip(n: int, post: seq<byte>)
    requires IsInt32(n) && EndsNumber(post)
    ensures var t := PrintNumber(n) + post;
            (At(t, 0) == MINUS || IsDigit(At(t, 0))) && ParseNumber(t) == Ok(Number(n), post)
  {
    var m: nat := if n < 0 then -n else n;
    var t, digits := PrintNumber(n) + post, Decimal(m) + post;
    DigitsReadBack(m, post);
    assert if n < 0 then t == [MINUS] + digits else t == digits;
    hide Decimal, PrintNumber;
    ParseNumberReads(t, n < 0, digits, m, post);
  }

  lemma ParseNumberReads(t: seq<byte>, negative: bool, digits: seq<byte>, m: nat, post: seq<byte>)
    requires t == if negative then [MINUS] + digits else digits
    requires IsDigit(At(digits, 0)) && (m == 0 ==> digits[0] == ZERO && digits[1..] == post)
    requires m > 0 ==> digits[0] != ZERO && ReadDigits(0, digits) == (m, post)
    requires EndsNumber(post) && IsInt32(Signed(negative, m))
    ensures (At(t, 0) == MINUS || IsDigit(At(t, 0))) && ParseNumber(t) == Ok(Number(Signed(negative, m)), post)
  {
    hide ReadDigits;
    assert negative ==> t[1..] == digits;
  }

  /** The digits of a number, as ParseNumber takes them: a zero apart, others together. */
  lemma DigitsReadBack(m: nat, post: seq<byte>)
    requires !IsDigit(At(post, 0))
    ensures var t := Decimal(m) + post;
      && IsDigit(At(t, 0)) && (m == 0 ==> t[0] == ZERO && t[1..] == post)
      && (m > 0 ==> t[0] != ZERO && ReadDigits(0, t) == (m, post))
  {
    var t := Decimal(m) + post;
    DecimalIsDigits(m);
    assert At(t, 0) == Decimal(m)[0];
    if m == 0 {
      assert t[1..] == post;
    } else {
      ReadDecimal(0, m, post);
    }
    hide ReadDigits;
  }

  // ---------- one step of each parsing function ----------

  lemma ParseValueOfString(t: seq<byte>)
    requires At(t, 0) == QUOTE
    ensures ParseString(t).Ok? ==> ParseValue(t) == Ok(String(ParseString(t).value), ParseString(t).rest)
  {
    hide ParseString;
  }

  lemma ParseValueOfArray(t: seq<byte>)
    requires At(t, 0) == OPEN_BRACKET
    ensures ParseValue(t) == ParseArray(t)
  {
    hide ParseArray, ParseItems, ParseMembers, ParseObject;
  }

  lemma ParseValueOfObject(t: seq<byte>)
    requires At(t, 0) == OPEN_BRACE
    ensures ParseValue(t) == ParseObject(t)
  {
    hide ParseArray, ParseItems, ParseMembers, ParseObject;
  }

  lemma ParseArrayOfItems(t: seq<byte>, items: seq<Json>, rest: seq<byte>)
    requires At(t, 0) == OPEN_BRACKET && At(Skip(t[1..]), 0) != CLOSE_BRACKET
    requires ParseItems(Skip(t[1..])) == Ok(items, rest)
    ensures ParseArray(t) == Ok(Array(items), rest)
  {
    hide ParseItems, Skip;
  }

  lemma ParseObjectOfMembers(t: seq<byte>, ms: seq<Member>, rest: seq<byte>)
    requires At(t, 0) == OPEN_BRACE && At(Skip(t[1..]), 0) != CLOSE_BRACE
    requires ParseMembers(Skip(t[1..])) == Ok(ms, rest)
    ensures ParseObject(t) == Ok(Object(ms), rest)
  {
    hide ParseMembers, Skip;
  }

  lemma ParseItemsStep(t: seq<byte>, v: Json, after: seq<byte>)
    requires ParseValue(Skip(t)) == Ok(v, after)
    ensures var rest := Skip(after);
            && (At(rest, 0) == COMMA ==> ParseItems(t) == Prepend([v], ParseItems(rest[1..])))
            && (At(rest, 0) == CLOSE_BRACKET ==> ParseItems(t) == Ok([v], rest[1..]))
  {
    hide ParseValue, Skip;
  }

  lemma ParseMembersStep(t: seq<byte>, m: Member, after: seq<byte>)
    requires ParseMember(t) == Ok(m, after)
    ensures var rest := Skip(after);
            && (At(rest, 0) == COMMA ==> ParseMembers(t) == Prepend([m], ParseMembers(rest[1..])))
            && (At(rest, 0) == CLOSE_BRACE ==> ParseMembers(t) == Ok([m], rest[1..]))
  {
    hide ParseMember, Skip;
  }

  lemma ParseMemberStep(t: seq<byte>, m: Member, colon: seq<byte>, rest: seq<byte>)
    requires ParseString(Skip(t)) == Ok(m.name, colon)
    requires At(Skip(colon), 0) == COLON && ParseValue(Skip(Skip(colon)[1..])) == Ok(m.value, rest)
    ensures ParseMember(t) == Ok(m, rest)
  {
    hide ParseValue, ParseString, Skip;
  }

  // ---------- values ----------

  lemma StringValueRoundTrip(s: seq<byte>, post: seq<byte>)
    requires NulFree(s)
    ensures ParseValue(PrintString(s) + post) == Ok(String(s), post)
  {
    StringRoundTrip(s, post);
    hide ParseString;
  }

  lemma NumberValueRoundTrip(n: int, post: seq<byte>)
    requires IsInt32(n) && EndsNumber(post)
    ensures ParseValue(PrintNumber(n) + post) == Ok(Number(n), post)
  {
    NumberRoundTrip(n, post);
    hide ParseNumber, PrintNumber;
  }

  lemma WordRoundTrip(w: seq<byte>, post: seq<byte>)
    requires w in {NULL_TEXT, FALSE_TEXT, TRUE_TEXT}
    ensures ParseValue(w + post)
         == Ok(if w == NULL_TEXT then Null else if w == FALSE_TEXT then False else True, post)
  {
    var t := w + post;
    assert t[..|w|] == w && t[|w|..] == post;
    assert w[0] == NULL_TEXT[0] || w[0] == FALSE_TEXT[0] || w[0] == TRUE_TEXT[0];
    if w == FALSE_TEXT { assert t[..4][0] == 102; }
    if w == TRUE_TEXT { assert t[..4][0] == 116; assert |t| >= 5 ==> t[..5][0] == 116; }
  }

  /** Parsing printed text gives back the tree and stops where the text ends. */
  lemma {:induction false} RoundTrip(v: Json, depth: nat, fmt: bool, post: seq<byte>)
    requires Printable(v) && EndsNumber(post)
    ensures ParseValue(PrintValue(v, depth, fmt) + post) == Ok(v, post)
    decreases v, 3
  {
    hide ParseValue;
    match v
    case Number(n) => NumberValueRoundTrip(n, post);
    case String(s) => StringValueRoundTrip(s, post);
    case Array(items) => ArrayRoundTrip(items, depth, fmt, post);
    case Object(ms) => ObjectRoundTrip(ms, depth, fmt, post);
    case Null => WordRoundTrip(NULL_TEXT, post);
    case False => WordRoundTrip(FALSE_TEXT, post);
    case True => WordRoundTrip(TRUE_TEXT, post);
  }

  lemma {:induction false} ArrayRoundTrip(items: seq<Json>, depth: nat, fmt: bool, post: seq<byte>)
    requires forall i :: 0 <= i < |items| ==> Printable(items[i])
    ensures ParseValue(PrintValue(Array(items), depth, fmt) + post) == Ok(Array(items), post)
    decreases items, 2
  {
    var t := PrintValue(Array(items), depth, fmt) + post;
    var body := if items == [] then [CLOSE_BRACKET] + post
                else PrintItems(items, depth + 1, fmt) + [CLOSE_BRACKET] + post;
    assert t == [OPEN_BRACKET] + body && t[1..] == body by { hide ParseValue, PrintItems; }
    hide PrintValue, ParseValue, ParseItems, PrintItems;
    ParseValueOfArray(t);
    if items == [] {
      assert Skip(body) == body && body[1..] == post;
    } else {
      ItemsStart(items, depth + 1, fmt);
      assert Skip(body) == body;
      ItemsRoundTrip(items, depth + 1, fmt, post);
      ParseArrayOfItems(t, items, post);
    }
  }

  lemma ItemsStart(items: seq<Json>, depth: nat, fmt: bool)
    requires items != []
    ensures var p := PrintItems(items, depth, fmt); p != [] && p[0] > 32 && p[0] != CLOSE_BRACKET
  {
    ValueStarts(items[0], depth, fmt);
    hide PrintValue;
  }

  lemma {:induction false} ItemsRoundTrip(items: seq<Json>, depth: nat, fmt: bool, post: seq<byte>)
    requires items != [] && forall i :: 0 <= i < |items| ==> Printable(items[i])
    ensures ParseItems(PrintItems(items, depth, fmt) + [CLOSE_BRACKET] + post) == Ok(items, post)
    decreases items, 1
  {
    hide ParseValue, PrintValue, ParseItems, Printable;
    var t := PrintItems(items, depth, fmt) + [CLOSE_BRACKET] + post;
    var first := PrintValue(items[0], depth, fmt);
    ItemsStart(items, depth, fmt);
    assert Skip(t) == t;
    if |items| == 1 {
      var rest := [CLOSE_BRACKET] + post;
      assert t == first + rest;
      RoundTrip(items[0], depth, fmt, rest);
      ParseItemsStep(t, items[0], rest);
      assert Skip(rest) == rest && rest[1..] == post && items == [items[0]];
    } else {
      var more := PrintItems(items[1..], depth, fmt) + [CLOSE_BRACKET] + post;
      var rest := [COMMA] + (When(fmt, [SPACE]) + more);
      assert t == first + rest;
      RoundTrip(items[0], depth, fmt, rest);
      ParseItemsStep(t, items[0], rest);
      assert Skip(rest) == rest && rest[1..] == When(fmt, [SPACE]) + more;
      SkipInItems(When(fmt, [SPACE]), more);
      ItemsRoundTrip(items[1..], depth, fmt, post);
      assert [items[0]] + items[1..] == items;
    }
  }

  lemma SkipInItems(w: seq<byte>, t: seq<byte>)
    requires IsBlank(w)
    ensures ParseItems(w + t) == ParseItems(t)
  {
    SkipBlank(w, t);
    hide *;
    ParseItemsFromSkip(w + t);
    ParseItemsFromSkip(t);
  }

  lemma ParseItemsFromSkip(t: seq<byte>)
    ensures ParseItems(t) == ParseItems(Skip(t))
  {
    SkipTwice(t);
    hide ParseValue, Skip;
  }

  lemma ParseMembersFromSkip(t: seq<byte>)
    ensures ParseMembers(t) == ParseMembers(Skip(t))
  {
    SkipTwice(t);
    assert ParseMember(t) == ParseMember(Skip(t)) by { hide ParseValue, ParseString, Skip; }
    hide ParseMember, Skip;
  }

  lemma {:induction false} SkipTwice(t: seq<byte>)
    ensures Skip(Skip(t)) == Skip(t)
  {
    if t != [] && 0 < t[0] <= 32 { SkipTwice(t[1..]); }
  }

  lemma SkipInMembers(w: seq<byte>, t: seq<byte>)
    requires IsBlank(w)
    ensures ParseMembers(w + t) == ParseMembers(t)
  {
    SkipBlank(w, t);
    hide *;
    ParseMembersFromSkip(w + t);
    ParseMembersFromSkip(t);
  }

  lemma {:induction false} ObjectRoundTrip(ms: seq<Member>, depth: nat, fmt: bool, post: seq<byte>)
    requires forall i :: 0 <= i < |ms| ==> NulFree(ms[i].name) && Printable(ms[i].value)
    ensures ParseValue(PrintValue(Object(ms), depth, fmt) + post) == Ok(Object(ms), post)
    decreases ms, 2
  {
    hide PrintValue, ParseValue, ParseMembers, PrintMembers, Printable, Tabs, Skip;
    var t := PrintValue(Object(ms), depth, fmt) + post;
    var close := [CLOSE_BRACE] + post;
    var w, body := ObjectLayout(ms, depth, fmt, post);
    ParseValueOfObject(t);
    assert t[1..] == w + body && close[1..] == post;
    NoSkip(close);
    SkipBlank(w, body);
    if ms != [] {
      MembersRoundTrip(ms, depth + 1, fmt, depth, post);
      SkipToMember(ms, depth + 1, fmt, When(fmt, Tabs(depth)) + close);
      ParseObjectOfMembers(t, ms, post);
    }
  }

  /** A printed object: brace, layout, and what the parser is to read as its members. */
  lemma ObjectLayout(ms: seq<Member>, depth: nat, fmt: bool, post: seq<byte>) returns (w: seq<byte>, body: seq<byte>)
    ensures IsBlank(w) && PrintValue(Object(ms), depth, fmt) + post == [OPEN_BRACE] + (w + body)
    ensures ms == [] ==> body == [CLOSE_BRACE] + post
    ensures ms != [] ==>
      body == PrintMembers(ms, depth + 1, fmt) + (When(fmt, Tabs(depth)) + ([CLOSE_BRACE] + post))
  {
    hide PrintMembers;
    TabsAreBlank(depth - 1);
    var close := [CLOSE_BRACE] + post;
    if ms == [] {
      w, body := When(fmt, [NEWLINE] + Tabs(depth - 1)), close;
    } else {
      w, body := When(fmt, [NEWLINE]), PrintMembers(ms, depth + 1, fmt) + (When(fmt, Tabs(depth)) + close);
    }
  }

  /** The members of a printed object start with a name, after layout that does not matter. */
  lemma SkipToMember(ms: seq<Member>, depth: nat, fmt: bool, t: seq<byte>)
    requires ms != []
    ensures var p := PrintMembers(ms, depth, fmt) + t;
            At(Skip(p), 0) == QUOTE && ParseMembers(Skip(p)) == ParseMembers(p)
  {
    hide ParseMembers, PrintValue;
    var w := When(fmt, Tabs(depth));
    TabsAreBlank(depth);
    hide Tabs;
    var p := PrintMembers(ms, depth, fmt) + t;
    assert w + [QUOTE] <= PrintMember(ms[0], depth, fmt) <= p;
    var name := p[|w|..];
    assert p == w + name;
    assert name[0] == QUOTE;
    SkipBlank(w, name);
    SkipInMembers(w, name);
    assert Skip(name) == name;
  }

  /** One member, followed by a comma, a newline or the end. */
  lemma {:induction false} MemberRoundTrip(m: Member, depth: nat, fmt: bool, post: seq<byte>)
    requires NulFree(m.name) && Printable(m.value) && EndsNumber(post)
    ensures ParseMember(PrintMember(m, depth, fmt) + post) == Ok(m, post)
    decreases m, 4
  {
    hide ParseValue, PrintValue, ParseMember, Printable, NulFree, ParseString, Tabs, PrintMember, Skip;
    var value := PrintValue(m.value, depth, fmt) + post;
    var afterName := [COLON] + (When(fmt, [TAB]) + value);
    var name := PrintString(m.name) + afterName;
    var w := When(fmt, Tabs(depth));
    assert name[0] == QUOTE;
    hide PrintString;
    MemberLayout(m, depth, fmt, post);
    TabsAreBlank(depth);
    assert IsBlank(w) && IsBlank(When(fmt, [TAB]));
    hide IsBlank;
    StringRoundTrip(m.name, afterName);
    ValueStarts(m.value, depth, fmt);
    RoundTrip(m.value, depth, fmt, post);
    SkipBlank(w, name);
    SkipBlank(When(fmt, [TAB]), value);
    NoSkip(name);
    NoSkip(afterName);
    NoSkip(value);
    assert afterName[1..] == When(fmt, [TAB]) + value;
    ParseMemberStep(PrintMember(m, depth, fmt) + post, m, afterName, post);
  }

  lemma MemberLayout(m: Member, depth: nat, fmt: bool, post: seq<byte>)
    ensures PrintMember(m, depth, fmt) + post
         == When(fmt, Tabs(depth)) + (PrintString(m.name) + ([COLON] + (When(fmt, [TAB])
            + (PrintValue(m.value, depth, fmt) + post))))
  {
    hide PrintValue, PrintString, Tabs;
  }

  lemma {:induction false} MembersRoundTrip(ms: seq<Member>, depth: nat, fmt: bool, outer: nat, post: seq<byte>)
    requires ms != [] && forall i :: 0 <= i < |ms| ==> NulFree(ms[i].name) && Printable(ms[i].value)
    ensures ParseMembers(PrintMembers(ms, depth, fmt) + (When(fmt, Tabs(outer)) + ([CLOSE_BRACE] + post)))
         == Ok(ms, post)
    decreases ms, 1
  {
    hide ParseMember, ParseMembers, PrintMember, Printable, NulFree, Tabs, PrintMembers, Skip;
    var close := [CLOSE_BRACE] + post;
    var end := When(fmt, Tabs(outer)) + close;
    TabsAreBlank(outer);
    var rest := MembersLayout(ms, depth, fmt, end);
    var t := PrintMembers(ms, depth, fmt) + end;
    MemberRoundTrip(ms[0], depth, fmt, rest);
    ParseMembersStep(t, ms[0], rest);
    if |ms| == 1 {
      SkipToClose(fmt, outer, close);
      assert close[1..] == post && ms == [ms[0]];
    } else {
      var more := PrintMembers(ms[1..], depth, fmt) + end;
      NoSkip(rest);
      assert rest[1..] == When(fmt, [NEWLINE]) + more;
      SkipInMembers(When(fmt, [NEWLINE]), more);
      MembersRoundTrip(ms[1..], depth, fmt, outer, post);
      assert [ms[0]] + ms[1..] == ms;
    }
  }

  lemma SkipToClose(fmt: bool, outer: nat, close: seq<byte>)
    requires At(close, 0) == CLOSE_BRACE
    ensures Skip(When(fmt, [NEWLINE]) + (When(fmt, Tabs(outer)) + close)) == close
  {
    TabsAreBlank(outer);
    hide Tabs, Skip;
    SkipBlank(When(fmt, Tabs(outer)), close);
    SkipBlank(When(fmt, [NEWLINE]), When(fmt, Tabs(outer)) + close);
    NoSkip(close);
  }

  lemma MembersLayout(ms: seq<Member>, depth: nat, fmt: bool, end: seq<byte>) returns (rest: seq<byte>)
    requires ms != [] && EndsNumber(end)
    ensures rest == if |ms| == 1 then When(fmt, [NEWLINE]) + end
                    else [COMMA] + (When(fmt, [NEWLINE]) + (PrintMembers(ms[1..], depth, fmt) + end))
    ensures PrintMembers(ms, depth, fmt) + end == PrintMember(ms[0], depth, fmt) + rest
    ensures EndsNumber(rest)
  {
    hide PrintMember;
    var first, w := PrintMember(ms[0], depth, fmt), When(fmt, [NEWLINE]);
    if |ms| == 1 {
      rest := w + end;
      assert PrintMembers(ms, depth, fmt) == first + w;
    } else {
      var more := PrintMembers(ms[1..], depth, fmt);
      rest := [COMMA] + (w + (more + end));
      assert PrintMembers(ms, depth, fmt) == first + [COMMA] + w + more;
      hide PrintMembers;
      Regroup(first, [COMMA], w, more, end);
    }
  }

  lemma Regroup(a: seq<byte>, b: seq<byte>, c: seq<byte>, d: seq<byte>, e: seq<byte>)
    ensures a + b + c + d + e == a + (b + (c + (d + e)))
  {
    assert a + b + c + d + e == a + b + c + (d + e);
    assert a + b + c + (d + e) == a + b + (c + (d + e));
  }

  // ---------- whole texts ----------

  /** cJSON_Parse of cJSON_Print, or of cJSON_PrintUnformatted, is the tree that was printed. */
  lemma PrintThenParse(v: Json, fmt: bool, terminated: bool)
    requires Printable(v)
    ensures ParseText(PrintValue(v, 0, fmt), terminated) == Ok(v, [])
  {
    var t := PrintValue(v, 0, fmt);
    ValueStarts(v, 0, fmt);
    NoSkip(t);
    RoundTrip(v, 0, fmt, []);
    assert t + [] == t;
    hide ParseValue, PrintValue;
  }

  /** So a printed text belongs to one tree only, whichever layouts and depths were used. */
  lemma PrintIsInjective(v: Json, v': Json, depth: nat, depth': nat, fmt: bool, fmt': bool)
    requires Printable(v) && Printable(v')
    requires PrintValue(v, depth, fmt) == PrintValue(v', depth', fmt')
    ensures v == v'
  {
    RoundTrip(v, depth, fmt, []);
    RoundTrip(v', depth', fmt', []);
  }
}
