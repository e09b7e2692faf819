/** Minifying keeps the meaning of every text that cJSON accepts, however it was laid out. */
module JsonMinifyMeaning {
  import opened Bytes
  import opened JsonText
  import opened JsonRoundTrip
  import opened JsonMinify
  import opened JsonMinifyPrint

  /** What was read of t when rest is left. */
  function Taken(t: seq<byte>, rest: seq<byte>): seq<byte>
    requires |rest| <= |t|
  {
    t[..|t| - |rest|]
  }

  // ---------- white space ----------

  /** Skipping and minifying agree, up to control characters that only the parser skips. */
  lemma {:induction false} MinifySkip(t: seq<byte>) returns (w: seq<byte>)
    ensures IsBlank(w) && Minify(t) == Before(w, Minify(Skip(t)))
  {
    if t != [] && 0 < t[0] <= 32 {
      w := MinifySkip(t[1..]);
      if t[0] !in {SPACE, TAB, RETURN, NEWLINE} {
        BeforeBefore([t[0]], w, Minify(Skip(t)));
        w := [t[0]] + w;
      }
    } else {
      w := [];
      BeforeNothing(Minify(t));
    }
  }

  // ---------- strings ----------

  lemma HexInLiteral(t: seq<byte>)
    requires IsHex4(t)
    ensures LiteralEnd(t) == LiteralEnd(t[4..])
  {
    PlainInLiteral(t[..4], t[4..]);
    assert t[..4] + t[4..] == t;
  }

  /** A literal goes on after an escape of it. */
  lemma EscapeInLiteral(t: seq<byte>)
    requires At(t, 0) == BACKSLASH && ReadEscape(t).Step?
    ensures LiteralEnd(t) == LiteralEnd(t[ReadEscape(t).read..])
  {
    var k := ReadEscape(t).read;
    assert LiteralEnd(t) == LiteralEnd(t[2..]);
    if k >= 6 {
      HexInLiteral(t[2..]);
      assert t[2..][4..] == t[6..];
    }
    if k == 12 {
      assert t[6..][2..] == t[8..];
      assert LiteralEnd(t[6..]) == LiteralEnd(t[8..]);
      HexInLiteral(t[8..]);
      assert t[8..][4..] == t[12..];
    }
  }

  /** An escape is read alike whatever follows the end of the literal. */
  lemma EscapeAlike(t: seq<byte>, u: seq<byte>, n: nat)
    requires At(t, 0) == BACKSLASH && ReadEscape(t).Step?
    requires ReadEscape(t).read < n <= |t| && n <= |u| && t[..n] == u[..n]
    requires ReadEscape(t).read == 6 && t[6] == BACKSLASH ==> 7 < n
    ensures At(u, 0) == BACKSLASH && ReadEscape(u) == ReadEscape(t)
  {
    assert forall i :: 0 <= i < n ==> t[i] == t[..n][i] == u[i];
    if t[1] == LETTER_U {
      assert Hex4(t[2..]) == Hex4(u[2..]);
      if ReadEscape(t).read == 12 {
        assert Hex4(t[8..]) == Hex4(u[8..]);
      }
    }
  }

  lemma LiteralEndIsProper(t: seq<byte>)
    requires LiteralEnd(t).Rest? && At(t, 0) == BACKSLASH
    ensures |LiteralEnd(t).t| + 2 < |t|
  {
  }

  lemma {:induction false} LiteralAlike(t: seq<byte>, s: seq<byte>, rest: seq<byte>, post: seq<byte>)
    requires Unescape(t) == Ok(s, rest) && LiteralEnd(t).Rest?
    ensures |rest| < |t| && LiteralEnd(t) == Rest(rest)
    ensures Unescape(Taken(t, rest) + post) == Ok(s, post)
    decreases |t|
  {
    if t[0] == QUOTE {
      assert Taken(t, rest) + post == [QUOTE] + post;
      assert ([QUOTE] + post)[1..] == post;
    } else if t[0] != BACKSLASH {
      var s' := Unescape(t[1..]).value;
      LiteralAlike(t[1..], s', rest, post);
      assert Taken(t, rest) + post == [t[0]] + (Taken(t[1..], rest) + post);
      assert ([t[0]] + (Taken(t[1..], rest) + post))[1..] == Taken(t[1..], rest) + post;
    } else {
      EscapedLiteralAlike(t, s, rest, post);
    }
  }

  lemma {:induction false} EscapedLiteralAlike(t: seq<byte>, s: seq<byte>, rest: seq<byte>, post: seq<byte>)
    requires Unescape(t) == Ok(s, rest) && LiteralEnd(t).Rest? && At(t, 0) == BACKSLASH
    ensures |rest| < |t| && LiteralEnd(t) == Rest(rest)
    ensures Unescape(Taken(t, rest) + post) == Ok(s, post)
    decreases |t|, 0
  {
    var k := ReadEscape(t).read;
    var s' := Unescape(t[k..]).value;
    EscapeInLiteral(t);
    hide LiteralEnd;
    LiteralAlike(t[k..], s', rest, post);
    var n := |t| - |rest|;
    var u := Taken(t, rest) + post;
    assert t[..n] == u[..n];
    if k == 6 && t[6] == BACKSLASH { LiteralEndIsProper(t[6..]); }
    EscapeAlike(t, u, n);
    hide ReadEscape;
    TakenFrom(t, rest, k, post);
  }

  lemma TakenFrom(t: seq<byte>, rest: seq<byte>, k: nat, post: seq<byte>)
    requires k + |rest| <= |t|
    ensures (Taken(t, rest) + post)[k..] == Taken(t[k..], rest) + post
  {
    assert Taken(t, rest)[k..] == Taken(t[k..], rest);
  }

  /** If a string stands at the head of t, it has a closing quote. */
  predicate Closed(t: seq<byte>) {
    At(t, 0) == QUOTE ==> LiteralEnd(t[1..]).Rest?
  }

  /** Without a closing quote a string is read to the end of the text. */
  lemma {:induction false} OpenIsReadToEnd(t: seq<byte>)
    requires Unescape(t).Ok? && LiteralEnd(t).None?
    ensures At(Unescape(t).rest, 0) == 0
    decreases |t|
  {
    if At(t, 0) == BACKSLASH {
      EscapeInLiteral(t);
      var k := ReadEscape(t).read;
      hide ReadEscape, LiteralEnd;
      OpenIsReadToEnd(t[k..]);
    } else if At(t, 0) != 0 {
      OpenIsReadToEnd(t[1..]);
    }
  }

  /** So a string with something behind it is closed. */
  lemma ClosedBefore(t: seq<byte>)
    requires ParseString(t).Ok? && At(Skip(ParseString(t).rest), 0) != 0
    ensures Closed(t)
  {
    if LiteralEnd(t[1..]).None? {
      OpenIsReadToEnd(t[1..]);
    }
    hide Unescape, LiteralEnd;
  }

  lemma ValueIsClosed(t: seq<byte>)
    requires ParseValue(t).Ok? && At(Skip(ParseValue(t).rest), 0) != 0
    ensures Closed(t)
  {
    hide ParseString, ParseNumber, ParseArray, ParseObject, Closed, Skip;
    if At(t, 0) == QUOTE {
      ClosedBefore(t);
    } else {
      NotAString(t);
    }
  }

  lemma NotAString(t: seq<byte>)
    requires At(t, 0) != QUOTE
    ensures Closed(t)
  {
  }

  // ---------- numbers ----------

  predicate AllDigits(s: seq<byte>) {
    forall i :: 0 <= i < |s| ==> IsDigit(s[i])
  }

  lemma {:induction false} DigitsTaken(a: nat, t: seq<byte>)
    ensures var rest := ReadDigits(a, t).1;
            t == Taken(t, rest) + rest && AllDigits(Taken(t, rest))
    decreases |t|
  {
    ReadsDigit(a, t);
    hide ReadDigits, Taken, AllDigits;
    if IsDigit(At(t, 0)) {
      var rest := ReadDigits(a, t).1;
      DigitsTaken(a * 10 + (t[0] - ZERO), t[1..]);
      OneMoreTaken(t, rest);
    } else {
      NoneTaken(t);
    }
  }

  lemma ReadsDigit(a: nat, t: seq<byte>)
    ensures ReadDigits(a, t) == if IsDigit(At(t, 0)) then ReadDigits(a * 10 + (t[0] - ZERO), t[1..]) else (a, t)
  {
  }

  lemma NoneTaken(t: seq<byte>)
    ensures Taken(t, t) + t == t && AllDigits(Taken(t, t))
  {
  }

  lemma OneMoreTaken(t: seq<byte>, rest: seq<byte>)
    requires t != [] && IsDigit(t[0]) && |rest| < |t|
    requires t[1..] == Taken(t[1..], rest) + rest && AllDigits(Taken(t[1..], rest))
    ensures t == Taken(t, rest) + rest && AllDigits(Taken(t, rest))
  {
    assert Taken(t, rest) == [t[0]] + Taken(t[1..], rest);
    assert t == [t[0]] + (Taken(t[1..], rest) + rest);
  }

  lemma {:induction false} DigitsAlike(a: nat, t: seq<byte>, post: seq<byte>)
    requires !IsDigit(At(post, 0))
    ensures ReadDigits(a, Taken(t, ReadDigits(a, t).1) + post) == (ReadDigits(a, t).0, post)
    decreases |t|
  {
    var rest := ReadDigits(a, t).1;
    if IsDigit(At(t, 0)) {
      var c := Taken(t[1..], rest);
      DigitsAlike(a * 10 + (t[0] - ZERO), t[1..], post);
      assert Taken(t, rest) + post == [t[0]] + (c + post);
      hide ReadDigits;
      ReadDigit(a, t[0], c + post);
      ReadDigit(a, t[0], t[1..]);
      assert [t[0]] + t[1..] == t;
    } else {
      assert Taken(t, rest) + post == post;
    }
  }

  /** The digits of a number after its sign and leading zero. */
  function NumberTail(t: seq<byte>): (r: (nat, seq<byte>))
    ensures |r.1| <= |t|
  {
    if IsDigit(At(t, 0)) && t[0] != ZERO then ReadDigits(0, t) else (0, t)
  }

  lemma NumberTailAlike(t: seq<byte>, post: seq<byte>)
    requires !IsDigit(At(post, 0))
    ensures NumberTail(Taken(t, NumberTail(t).1) + post) == (NumberTail(t).0, post)
  {
    DigitsAlike(0, t, post);
    DigitsTaken(0, t);
    if IsDigit(At(t, 0)) && t[0] != ZERO {
      assert Taken(t, NumberTail(t).1) != [] by { ReadDigit(0, t[0], t[1..]); assert [t[0]] + t[1..] == t; }
      hide ReadDigits;
    } else {
      assert Taken(t, t) + post == post;
    }
  }

  lemma NumberTailTaken(t: seq<byte>)
    ensures var rest := NumberTail(t).1;
            t == Taken(t, rest) + rest && AllDigits(Taken(t, rest))
  {
    DigitsTaken(0, t);
    hide ReadDigits;
  }

  /** A number: its sign, at most one leading zero, and what is read as its digits. */
  function NumberText(negative: bool, padded: bool, body: seq<byte>): seq<byte> {
    When(negative, [MINUS]) + (When(padded, [ZERO]) + body)
  }

  predicate IsNumberText(negative: bool, padded: bool, body: seq<byte>) {
    && (!padded ==> At(body, 0) != ZERO)
    && (negative || padded || IsDigit(At(body, 0)))
    && IsInt32(Signed(negative, NumberTail(body).0))
  }

  lemma NumberParts(t: seq<byte>, v: Json, rest: seq<byte>) returns (negative: bool, padded: bool, body: seq<byte>)
    requires (At(t, 0) == MINUS || IsDigit(At(t, 0))) && ParseNumber(t) == Ok(v, rest)
    ensures t == NumberText(negative, padded, body) && IsNumberText(negative, padded, body)
    ensures NumberTail(body).1 == rest && v == Number(Signed(negative, NumberTail(body).0))
  {
    hide ReadDigits;
    negative := t[0] == MINUS;
    var unsigned := if negative then t[1..] else t;
    padded := At(unsigned, 0) == ZERO;
    body := if padded then unsigned[1..] else unsigned;
    assert unsigned == When(padded, [ZERO]) + body;
  }

  lemma ParseNumberText(negative: bool, padded: bool, body: seq<byte>)
    requires IsNumberText(negative, padded, body) && EndsNumber(NumberTail(body).1)
    ensures var t := NumberText(negative, padded, body);
            (At(t, 0) == MINUS || IsDigit(At(t, 0)))
            && ParseNumber(t) == Ok(Number(Signed(negative, NumberTail(body).0)), NumberTail(body).1)
  {
    hide ReadDigits;
    var t := NumberText(negative, padded, body);
    var unsigned := When(padded, [ZERO]) + body;
    assert (if negative then t[1..] else t) == unsigned;
    assert (if padded then unsigned[1..] else unsigned) == body;
    assert !negative ==> At(t, 0) == At(unsigned, 0) != MINUS;
  }

  lemma NumberTextThen(negative: bool, padded: bool, digits: seq<byte>, post: seq<byte>)
    ensures NumberText(negative, padded, digits) + post == NumberText(negative, padded, digits + post)
  {
    var sign, zero := When(negative, [MINUS]), When(padded, [ZERO]);
    assert sign + (zero + digits) + post == sign + (zero + (digits + post));
  }

  lemma NumberTextTaken(negative: bool, padded: bool, body: seq<byte>)
    ensures var t, rest := NumberText(negative, padded, body), NumberTail(body).1;
            var digits := Taken(body, rest);
            && AllDigits(digits) && t == NumberText(negative, padded, digits) + rest
            && |rest| <= |t| && Taken(t, rest) == NumberText(negative, padded, digits)
  {
    NumberTailTaken(body);
    var rest := NumberTail(body).1;
    NumberTextThen(negative, padded, Taken(body, rest), rest);
    TakenIs(NumberText(negative, padded, body), NumberText(negative, padded, Taken(body, rest)), rest);
    hide NumberTail, AllDigits, NumberText;
  }

  lemma TakenIs(t: seq<byte>, m: seq<byte>, rest: seq<byte>)
    requires t == m + rest
    ensures Taken(t, rest) == m
  {
  }

  lemma NumberIsPlain(t: seq<byte>, v: Json, rest: seq<byte>)
    requires (At(t, 0) == MINUS || IsDigit(At(t, 0))) && ParseNumber(t) == Ok(v, rest)
    ensures t == Taken(t, rest) + rest && IsPlain(Taken(t, rest))
  {
    hide ParseNumber, IsNumberText, NumberTail, AllDigits, IsPlain, NumberText;
    var negative, padded, body := NumberParts(t, v, rest);
    NumberTextTaken(negative, padded, body);
    NumberTextIsPlain(negative, padded, Taken(body, rest));
  }

  lemma NumberTextIsPlain(negative: bool, padded: bool, digits: seq<byte>)
    requires AllDigits(digits)
    ensures IsPlain(NumberText(negative, padded, digits))
  {
  }

  lemma NumberAlike(t: seq<byte>, v: Json, rest: seq<byte>, post: seq<byte>)
    requires (At(t, 0) == MINUS || IsDigit(At(t, 0))) && ParseNumber(t) == Ok(v, rest) && EndsNumber(post)
    ensures var u := Taken(t, rest) + post;
            (At(u, 0) == MINUS || IsDigit(At(u, 0))) && ParseNumber(u) == Ok(v, post)
  {
    hide ParseNumber, NumberTail;
    var negative, padded, body := NumberParts(t, v, rest);
    var digits := Taken(body, rest);
    NumberTailTaken(body);
    NumberTailAlike(body, post);
    NumberTextTaken(negative, padded, body);
    NumberTextThen(negative, padded, digits, post);
    hide NumberText;
    assert At(digits + post, 0) != ZERO || padded by { assert digits != [] ==> digits[0] == body[0]; }
    assert negative || padded || IsDigit(At(digits + post, 0)) by {
      assert digits == [] ==> body == rest;
      if !negative && !padded { NumberTailMoves(body); assert (digits + post)[0] == body[0]; }
    }
    ParseNumberText(negative, padded, digits + post);
  }

  lemma NumberTailMoves(body: seq<byte>)
    requires IsDigit(At(body, 0)) && body[0] != ZERO
    ensures |NumberTail(body).1| < |body|
  {
    hide ReadDigits;
    ReadDigit(0, body[0], body[1..]);
    assert [body[0]] + body[1..] == body;
  }

  lemma NumberMoves(t: seq<byte>, v: Json, rest: seq<byte>)
    requires (At(t, 0) == MINUS || IsDigit(At(t, 0))) && ParseNumber(t) == Ok(v, rest)
    ensures Taken(t, rest) != [] && Taken(t, rest)[0] == t[0]
  {
    hide ReadDigits;
  }

  // ---------- values ----------

  /** m says the same as the value at the head of t, in any text. */
  ghost predicate SaysValue(m: seq<byte>, v: Json) {
    m != [] && m[0] > 32 && m[0] != CLOSE_BRACKET
    && forall post :: EndsNumber(post) ==> ParseValue(m + post) == Ok(v, post)
  }

  lemma MeaningOfNumber(t: seq<byte>, v: Json, rest: seq<byte>) returns (m: seq<byte>)
    requires (At(t, 0) == MINUS || IsDigit(At(t, 0))) && ParseNumber(t) == Ok(v, rest)
    ensures SaysValue(m, v) && Minify(t) == Before(m, Minify(rest))
  {
    m := Taken(t, rest);
    NumberIsPlain(t, v, rest);
    MinifyPlain(m, rest);
    NumberMoves(t, v, rest);
    hide Minify, IsPlain;
    forall post | EndsNumber(post) ensures ParseValue(m + post) == Ok(v, post) {
      NumberAlike(t, v, rest, post);
      ParseValueOfNumber(m + post);
      hide ParseNumber, ParseValue, Taken;
    }
    hide ParseNumber, ParseValue, Taken;
  }

  lemma ParseValueOfNumber(t: seq<byte>)
    requires At(t, 0) == MINUS || IsDigit(At(t, 0))
    ensures ParseValue(t) == ParseNumber(t)
  {
    hide ParseNumber;
  }

  lemma MeaningOfString(t: seq<byte>, s: seq<byte>, rest: seq<byte>) returns (m: seq<byte>)
    requires ParseString(t) == Ok(s, rest) && Closed(t)
    ensures At(m, 0) == QUOTE && Minify(t) == Before(m, Minify(rest))
    ensures forall post :: ParseString(m + post) == Ok(s, post)
  {
    m := Taken(t, rest);
    LiteralAlike(t[1..], s, rest, []);
    forall post ensures ParseString(m + post) == Ok(s, post) {
      LiteralAlike(t[1..], s, rest, post);
      TakenFrom(t, rest, 1, post);
      hide Unescape, LiteralEnd;
    }
  }

  lemma MeaningOfWord(t: seq<byte>, w: seq<byte>, v: Json)
    requires (w == NULL_TEXT && v.Null?) || (w == FALSE_TEXT && v.False?) || (w == TRUE_TEXT && v.True?)
    requires StartsWith(t, w)
    ensures SaysValue(w, v) && Minify(t) == Before(w, Minify(t[|w|..]))
  {
    MinifyPlain(w, t[|w|..]);
    assert w + t[|w|..] == t;
    forall post ensures ParseValue(w + post) == Ok(v, post) {
      WordRoundTrip(w, post);
      hide ParseValue;
    }
  }

  lemma MeaningOfStringValue(t: seq<byte>, s: seq<byte>, rest: seq<byte>) returns (m: seq<byte>)
    requires ParseString(t) == Ok(s, rest) && Closed(t)
    ensures SaysValue(m, String(s)) && Minify(t) == Before(m, Minify(rest))
  {
    m := MeaningOfString(t, s, rest);
    forall post ensures ParseValue(m + post) == Ok(String(s), post) {
      assert ParseString(m + post) == Ok(s, post);
      ParseValueOfString(m + post);
      hide ParseString, ParseValue;
    }
    hide ParseString, ParseValue, Minify;
  }

  /** A value that was read means the same after minifying: its text is some m that says it,
      and what follows is minified on its own. */
  lemma {:induction false} MeaningOfValue(t: seq<byte>, v: Json, rest: seq<byte>) returns (m: seq<byte>)
    requires ParseValue(t) == Ok(v, rest) && Closed(t)
    ensures SaysValue(m, v) && Minify(t) == Before(m, Minify(rest))
    decreases |t|, 2
  {
    hide Minify, ParseString, ParseNumber, ParseArray, ParseObject, SaysValue;
    if StartsWith(t, NULL_TEXT) {
      m := NULL_TEXT;
      MeaningOfWord(t, m, v);
    } else if StartsWith(t, FALSE_TEXT) {
      m := FALSE_TEXT;
      MeaningOfWord(t, m, v);
    } else if StartsWith(t, TRUE_TEXT) {
      m := TRUE_TEXT;
      MeaningOfWord(t, m, v);
    } else if At(t, 0) == QUOTE {
      m := MeaningOfStringValue(t, v.s, rest);
    } else if At(t, 0) == MINUS || IsDigit(At(t, 0)) {
      m := MeaningOfNumber(t, v, rest);
    } else if At(t, 0) == OPEN_BRACKET {
      m := MeaningOfArray(t, v, rest);
    } else {
      m := MeaningOfObject(t, v, rest);
    }
  }

  /** Minify, one plain byte ahead. */
  lemma MinifyHead(t: seq<byte>)
    requires At(t, 0) > 32 && t[0] != QUOTE && t[0] != SLASH
    ensures Minify(t) == Before([t[0]], Minify(t[1..]))
  {
  }

  lemma SaysArray(w: seq<byte>, m: seq<byte>, items: seq<Json>)
    requires IsBlank(w) && SaysItems(m, items)
    ensures SaysValue([OPEN_BRACKET] + w + m, Array(items))
  {
    hide ParseItems, ParseValue, Skip, IsBlank;
    forall post | EndsNumber(post) ensures ParseValue([OPEN_BRACKET] + w + m + post) == Ok(Array(items), post) {
      var u := [OPEN_BRACKET] + w + m + post;
      assert u[1..] == w + (m + post);
      SkipBlank(w, m + post);
      ParseValueOfArray(u);
      NoSkip(m + post);
      assert ParseItems(m + post) == Ok(items, post);
      ParseArrayOfItems(u, items, post);
    }
  }

  lemma SaysEmptyArray(w: seq<byte>)
    requires IsBlank(w)
    ensures SaysValue([OPEN_BRACKET] + w + [CLOSE_BRACKET], Array([]))
  {
    hide ParseValue, Skip, IsBlank;
    forall post ensures ParseValue([OPEN_BRACKET] + w + [CLOSE_BRACKET] + post) == Ok(Array([]), post) {
      var u := [OPEN_BRACKET] + w + [CLOSE_BRACKET] + post;
      assert u[1..] == w + [CLOSE_BRACKET] + post;
      SkipToByte(w, CLOSE_BRACKET, post);
      ParseValueOfArray(u);
    }
  }

  lemma {:induction false} MeaningOfArray(t: seq<byte>, v: Json, rest: seq<byte>) returns (m: seq<byte>)
    requires At(t, 0) == OPEN_BRACKET && ParseArray(t) == Ok(v, rest)
    ensures SaysValue(m, v) && Minify(t) == Before(m, Minify(rest))
    decreases |t|, 1
  {
    hide Minify, ParseItems, ParseValue, Skip, SaysValue, SaysItems, IsBlank;
    MinifyHead(t);
    var w := MinifySkip(t[1..]);
    var body := Skip(t[1..]);
    if At(body, 0) == CLOSE_BRACKET {
      MinifyHead(body);
      m := [OPEN_BRACKET] + w + [CLOSE_BRACKET];
      BeforeThree([OPEN_BRACKET], w, [CLOSE_BRACKET], Minify(rest));
      SaysEmptyArray(w);
    } else {
      SkipTwice(t[1..]);
      ItemsNeedByte(body);
      var inside := MeaningOfItems(body, v.items, rest);
      m := [OPEN_BRACKET] + w + inside;
      BeforeThree([OPEN_BRACKET], w, inside, Minify(rest));
      SaysArray(w, inside, v.items);
    }
  }

  /** Minify across blanks and the byte after them. */
  lemma MinifyToByte(t: seq<byte>, b: byte) returns (w: seq<byte>)
    requires At(Skip(t), 0) == b && b > 32 && b != QUOTE && b != SLASH
    ensures IsBlank(w) && Minify(t) == Before(w + [b], Minify(Skip(t)[1..]))
  {
    w := MinifySkip(t);
    MinifyHead(Skip(t));
    BeforeBefore(w, [b], Minify(Skip(t)[1..]));
    hide Minify, Skip;
  }

  lemma SkipToByte(w: seq<byte>, b: byte, t: seq<byte>)
    requires IsBlank(w) && b > 32
    ensures Skip(w + [b] + t) == [b] + t && Skip(w + [b] + t)[1..] == t
    ensures b != DOT && b != 69 && b != 101 && !IsDigit(b) ==> EndsNumber(w + [b] + t)
  {
    assert w + [b] + t == w + ([b] + t);
    SkipBlank(w, [b] + t);
  }

  /** m says the same as the items at the head of t. */
  ghost predicate SaysItems(m: seq<byte>, items: seq<Json>) {
    At(m, 0) > 32 && m[0] != CLOSE_BRACKET && forall post :: ParseItems(m + post) == Ok(items, post)
  }

  lemma SaysMoreItems(m: seq<byte>, v: Json, w: seq<byte>, w': seq<byte>, m': seq<byte>, items: seq<Json>)
    requires SaysValue(m, v) && IsBlank(w) && IsBlank(w') && SaysItems(m', items)
    ensures SaysItems(m + (w + [COMMA]) + (w' + m'), [v] + items)
  {
    hide ParseItems, ParseValue, Skip, IsBlank;
    var whole := m + (w + [COMMA]) + (w' + m');
    assert whole[0] == m[0];
    forall post ensures ParseItems(whole + post) == Ok([v] + items, post) {
      var more := w' + (m' + post);
      var u := w + [COMMA] + more;
      assert whole + post == m + u;
      SkipToByte(w, COMMA, more);
      ValueThen(m, v, u);
      ParseItemsStep(m + u, v, u);
      SkipInItems(w', m' + post);
      assert ParseItems(m' + post) == Ok(items, post);
    }
  }

  lemma SaysLastItem(m: seq<byte>, v: Json, w: seq<byte>)
    requires SaysValue(m, v) && IsBlank(w)
    ensures SaysItems(m + (w + [CLOSE_BRACKET]), [v])
  {
    hide ParseItems, ParseValue, Skip, IsBlank;
    var whole := m + (w + [CLOSE_BRACKET]);
    assert whole[0] == m[0];
    forall post ensures ParseItems(whole + post) == Ok([v], post) {
      var u := w + [CLOSE_BRACKET] + post;
      assert whole + post == m + u;
      SkipToByte(w, CLOSE_BRACKET, post);
      ValueThen(m, v, u);
      ParseItemsStep(m + u, v, u);
    }
  }

  lemma {:induction false} MeaningOfItems(t: seq<byte>, items: seq<Json>, rest: seq<byte>) returns (m: seq<byte>)
    requires ParseItems(t) == Ok(items, rest) && At(t, 0) > 32
    ensures SaysItems(m, items) && Minify(t) == Before(m, Minify(rest))
    decreases |t|, 4
  {
    NoSkip(t);
    var v, after := ParseValue(t).value, ParseValue(t).rest;
    hide Minify, ParseValue, Skip, SaysItems, SaysValue, Closed;
    var tail := Skip(after);
    ValueIsClosed(t);
    var m1 := MeaningOfValue(t, v, after);
    if At(tail, 0) == COMMA {
      var more := ParseItems(tail[1..]).value;
      assert items == [v] + more;
      var w := MinifyToByte(after, COMMA);
      var w' := MinifySkip(tail[1..]);
      ParseItemsFromSkip(tail[1..]);
      assert At(Skip(tail[1..]), 0) > 32 by { ItemsNeedByte(tail[1..]); }
      assert |Skip(tail[1..])| < |t|;
      hide ParseItems;
      var m2 := MeaningOfItems(Skip(tail[1..]), more, rest);
      m := m1 + (w + [COMMA]) + (w' + m2);
      BeforeFour(m1, w + [COMMA], w', m2, Minify(rest));
      SaysMoreItems(m1, v, w, w', m2, more);
    } else {
      assert items == [v];
      var w := MinifyToByte(after, CLOSE_BRACKET);
      hide ParseItems;
      m := m1 + (w + [CLOSE_BRACKET]);
      BeforeBefore(m1, w + [CLOSE_BRACKET], Minify(rest));
      SaysLastItem(m1, v, w);
    }
  }

  lemma ValueThen(m: seq<byte>, v: Json, u: seq<byte>)
    requires SaysValue(m, v) && EndsNumber(u)
    ensures ParseValue(Skip(m + u)) == Ok(v, u)
  {
    NoSkip(m + u);
    hide ParseValue, Skip;
  }

  lemma BeforeFour(x: seq<byte>, y: seq<byte>, z: seq<byte>, z': seq<byte>, m: Minified)
    ensures Before(x, Before(y, Before(z, Before(z', m)))) == Before(x + y + (z + z'), m)
  {
    BeforeBefore(z, z', m);
    BeforeThree(x, y, z + z', m);
  }

  lemma ItemsNeedByte(t: seq<byte>)
    requires ParseItems(t).Ok?
    ensures At(Skip(t), 0) > 32
  {
    SkipStops(t);
    hide Skip, ParseArray, ParseObject, ParseString, ParseNumber;
  }

  lemma {:induction false} SkipStops(t: seq<byte>)
    ensures At(Skip(t), 0) > 32 || At(Skip(t), 0) == 0
  {
    if t != [] && 0 < t[0] <= 32 { SkipStops(t[1..]); }
  }

  lemma SaysObject(w: seq<byte>, m: seq<byte>, members: seq<Member>)
    requires IsBlank(w) && SaysMembers(m, members)
    ensures SaysValue([OPEN_BRACE] + w + m, Object(members))
  {
    hide ParseMembers, ParseValue, Skip, IsBlank;
    forall post | EndsNumber(post) ensures ParseValue([OPEN_BRACE] + w + m + post) == Ok(Object(members), post) {
      var u := [OPEN_BRACE] + w + m + post;
      assert u[1..] == w + (m + post);
      SkipBlank(w, m + post);
      ParseValueOfObject(u);
      NoSkip(m + post);
      assert ParseMembers(m + post) == Ok(members, post);
      ParseObjectOfMembers(u, members, post);
    }
  }

  lemma SaysEmptyObject(w: seq<byte>)
    requires IsBlank(w)
    ensures SaysValue([OPEN_BRACE] + w + [CLOSE_BRACE], Object([]))
  {
    hide ParseValue, Skip, IsBlank;
    forall post ensures ParseValue([OPEN_BRACE] + w + [CLOSE_BRACE] + post) == Ok(Object([]), post) {
      var u := [OPEN_BRACE] + w + [CLOSE_BRACE] + post;
      assert u[1..] == w + [CLOSE_BRACE] + post;
      SkipToByte(w, CLOSE_BRACE, post);
      ParseValueOfObject(u);
    }
  }

  lemma {:induction false} MeaningOfObject(t: seq<byte>, v: Json, rest: seq<byte>) returns (m: seq<byte>)
    requires At(t, 0) == OPEN_BRACE && ParseObject(t) == Ok(v, rest)
    ensures SaysValue(m, v) && Minify(t) == Before(m, Minify(rest))
    decreases |t|, 1
  {
    hide Minify, ParseMembers, ParseValue, Skip, SaysValue, SaysMembers, IsBlank;
    MinifyHead(t);
    var w := MinifySkip(t[1..]);
    var body := Skip(t[1..]);
    if At(body, 0) == CLOSE_BRACE {
      MinifyHead(body);
      m := [OPEN_BRACE] + w + [CLOSE_BRACE];
      BeforeThree([OPEN_BRACE], w, [CLOSE_BRACE], Minify(rest));
      SaysEmptyObject(w);
    } else {
      SkipTwice(t[1..]);
      MembersNeedByte(body);
      var inside := MeaningOfMembers(body, v.members, rest);
      m := [OPEN_BRACE] + w + inside;
      BeforeThree([OPEN_BRACE], w, inside, Minify(rest));
      SaysObject(w, inside, v.members);
    }
  }

  ghost predicate SaysMember(m: seq<byte>, member: Member) {
    At(m, 0) == QUOTE && forall post :: EndsNumber(post) ==> ParseMember(m + post) == Ok(member, post)
  }

  ghost predicate SaysMembers(m: seq<byte>, ms: seq<Member>) {
    At(m, 0) == QUOTE && forall post :: ParseMembers(m + post) == Ok(ms, post)
  }

  lemma MembersNeedByte(t: seq<byte>)
    requires ParseMembers(t).Ok?
    ensures At(Skip(t), 0) == QUOTE
  {
    hide Skip, ParseValue, Unescape;
  }

  lemma SaysNameAndValue(name: seq<byte>, w: seq<byte>, w': seq<byte>, value: seq<byte>, member: Member)
    requires At(name, 0) == QUOTE && IsBlank(w) && IsBlank(w') && SaysValue(value, member.value)
    requires forall post :: ParseString(name + post) == Ok(member.name, post)
    ensures SaysMember(name + (w + [COLON]) + (w' + value), member)
  {
    hide ParseMember, ParseString, ParseValue, Skip, IsBlank;
    var whole := name + (w + [COLON]) + (w' + value);
    assert whole[0] == name[0];
    forall post | EndsNumber(post) ensures ParseMember(whole + post) == Ok(member, post) {
      var more := w' + (value + post);
      var u := w + [COLON] + more;
      assert whole + post == name + u;
      SkipToByte(w, COLON, more);
      SkipBlank(w', value + post);
      ValueThen(value, member.value, post);
      assert (name + u)[0] == QUOTE;
      NoSkip(name + u);
      ParseMemberStep(name + u, member, u, post);
    }
  }

  lemma {:induction false} MeaningOfMember(t: seq<byte>, member: Member, rest: seq<byte>) returns (m: seq<byte>)
    requires ParseMember(t) == Ok(member, rest) && At(t, 0) == QUOTE && At(Skip(rest), 0) != 0
    ensures SaysMember(m, member) && Minify(t) == Before(m, Minify(rest))
    decreases |t|, 3
  {
    NoSkip(t);
    hide Minify, ParseValue, ParseString, Skip, SaysMember, SaysValue, Closed;
    var after := ParseString(t).rest;
    var colon := Skip(after);
    assert ParseValue(Skip(colon[1..])) == Ok(member.value, rest);
    assert ParseString(t) == Ok(member.name, after) && At(colon, 0) == COLON;
    hide ParseMember;
    ClosedBefore(t);
    ValueIsClosed(Skip(colon[1..]));
    var name := MeaningOfString(t, member.name, after);
    var w := MinifyToByte(after, COLON);
    var w' := MinifySkip(colon[1..]);
    var value := MeaningOfValue(Skip(colon[1..]), member.value, rest);
    m := name + (w + [COLON]) + (w' + value);
    BeforeFour(name, w + [COLON], w', value, Minify(rest));
    SaysNameAndValue(name, w, w', value, member);
  }

  lemma SaysMoreMembers(m: seq<byte>, v: Member, w: seq<byte>, w': seq<byte>, m': seq<byte>, ms: seq<Member>)
    requires SaysMember(m, v) && IsBlank(w) && IsBlank(w') && SaysMembers(m', ms)
    ensures SaysMembers(m + (w + [COMMA]) + (w' + m'), [v] + ms)
  {
    hide ParseMembers, ParseMember, Skip, IsBlank;
    var whole := m + (w + [COMMA]) + (w' + m');
    assert whole[0] == m[0];
    forall post ensures ParseMembers(whole + post) == Ok([v] + ms, post) {
      var more := w' + (m' + post);
      var u := w + [COMMA] + more;
      assert whole + post == m + u;
      SkipToByte(w, COMMA, more);
      ParseMembersStep(m + u, v, u);
      SkipInMembers(w', m' + post);
      assert ParseMembers(m' + post) == Ok(ms, post);
    }
  }

  lemma SaysLastMember(m: seq<byte>, v: Member, w: seq<byte>)
    requires SaysMember(m, v) && IsBlank(w)
    ensures SaysMembers(m + (w + [CLOSE_BRACE]), [v])
  {
    hide ParseMembers, ParseMember, Skip, IsBlank;
    var whole := m + (w + [CLOSE_BRACE]);
    assert whole[0] == m[0];
    forall post ensures ParseMembers(whole + post) == Ok([v], post) {
      var u := w + [CLOSE_BRACE] + post;
      assert whole + post == m + u;
      SkipToByte(w, CLOSE_BRACE, post);
      ParseMembersStep(m + u, v, u);
    }
  }

  lemma {:induction false} MeaningOfMembers(t: seq<byte>, ms: seq<Member>, rest: seq<byte>) returns (m: seq<byte>)
    requires ParseMembers(t) == Ok(ms, rest) && At(t, 0) == QUOTE
    ensures SaysMembers(m, ms) && Minify(t) == Before(m, Minify(rest))
    decreases |t|, 4
  {
    hide Minify, ParseMember, Skip, SaysMember, SaysMembers;
    var member, after := ParseMember(t).value, ParseMember(t).rest;
    var m1 := MeaningOfMember(t, member, after);
    var tail := Skip(after);
    if At(tail, 0) == COMMA {
      var more := ParseMembers(tail[1..]).value;
      assert ms == [member] + more;
      var w := MinifyToByte(after, COMMA);
      var w' := MinifySkip(tail[1..]);
      ParseMembersFromSkip(tail[1..]);
      MembersNeedByte(tail[1..]);
      assert |Skip(tail[1..])| < |t|;
      hide ParseMembers;
      var m2 := MeaningOfMembers(Skip(tail[1..]), more, rest);
      m := m1 + (w + [COMMA]) + (w' + m2);
      BeforeFour(m1, w + [COMMA], w', m2, Minify(rest));
      SaysMoreMembers(m1, member, w, w', m2, more);
    } else {
      assert ms == [member];
      var w := MinifyToByte(after, CLOSE_BRACE);
      hide ParseMembers;
      m := m1 + (w + [CLOSE_BRACE]);
      BeforeBefore(m1, w + [CLOSE_BRACE], Minify(rest));
      SaysLastMember(m1, member, w);
    }
  }

  /** A text that is accepted as a whole runs over iff it is a string that is never closed, which the parser
      accepts. */
  lemma OverrunsIff(t: seq<byte>)
    requires NulFree(t) && ParseText(t, true).Ok?
    ensures Minify(t).Overrun? <==> At(Skip(t), 0) == QUOTE && LiteralEnd(Skip(t)[1..]).None?
  {
    var w := MinifySkip(t);
    if Closed(Skip(t)) {
      var u := MinifiedText(t);
    } else {
      assert Minify(Skip(t)).Overrun?;
    }
    hide ParseValue, Skip, LiteralEnd;
  }

  /** Such as a quote and an a. */
  lemma OpenStringIsAccepted()
    ensures ParseText([QUOTE, 97], true) == Ok(String([97]), []) && Minify([QUOTE, 97]).Overrun?
  {
    var t: seq<byte>, a: seq<byte> := [QUOTE, 97], [97];
    assert t[1..] == a && a[1..] == [];
    var none: seq<byte> := [];
    assert Unescape(a[1..]) == Ok(none, none) && [a[0]] + none == a;
    assert Unescape(a) == Prepend([a[0]], Unescape(a[1..])) == Ok(a, none);
    assert ParseValue(t) == Ok(String([97]), []);
    assert LiteralEnd(a) == LiteralEnd([]) == None;
    hide ParseValue, LiteralEnd;
  }

  lemma MinifiedText(t: seq<byte>) returns (u: seq<byte>)
    requires NulFree(t) && ParseText(t, true).Ok? && Closed(Skip(t))
    ensures Minify(t) == Text(u) && ParseText(u, true).Ok? && ParseText(u, true).value == ParseText(t, true).value
  {
    var v, after := ParseText(t, true).value, ParseValue(Skip(t)).rest;
    var w := MinifySkip(t);
    var m := MeaningOfValue(Skip(t), v, after);
    var w' := MinifySkip(after);
    hide ParseValue, Minify, Skip;
    assert Minify(Skip(after)) == Text([]) by { MinifyNothing(Skip(after)); }
    BeforeThree(w, m, w', Text([]));
    var b := m + w';
    u := w + b;
    SkipBlank(w, b);
    NoSkip(b);
    assert ParseValue(b) == Ok(v, w');
    SkipBlank(w', []);
    assert w' + [] == w';
    NothingToSkip();
  }

  /** cJSON_Minify keeps the meaning of every other text that is accepted as a whole. */
  lemma MinifyKeepsMeaning(t: seq<byte>)
    requires NulFree(t) && ParseText(t, true).Ok?
    requires !(At(Skip(t), 0) == QUOTE && LiteralEnd(Skip(t)[1..]).None?)
    ensures Minify(t).Text? && ParseText(Minify(t).bytes, true).Ok?
    ensures ParseText(Minify(t).bytes, true).value == ParseText(t, true).value
  {
    var u := MinifiedText(t);
    hide ParseText, Minify, Skip;
  }

  lemma NothingToSkip()
    ensures Skip([]) == []
  {
  }

  lemma MinifyNothing(t: seq<byte>)
    requires At(t, 0) == 0
    ensures Minify(t) == Text([])
  {
  }
}
