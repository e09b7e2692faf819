/** The tokens of JSON as the parser takes them, and what stands between: how each is written, what it means, that it
    is read so, and that nothing else is read. */
module JsonTokens {
  import opened Bytes
  import opened JsonText
  import opened JsonUnicode
  import opened JsonRoundTrip
  import opened JsonMinify

  // ---------- what stands between tokens ----------

  /** A blank, a comment up to the end of its line, or one between a slash and star and a star and slash.
      The parser knows no comments; cJSON_Minify drops them. */
  datatype Filler = Blank(b: byte) | Line(text: seq<byte>) | Block(text: seq<byte>)

  predicate ClosesAt(t: seq<byte>, i: nat)
    requires i + 1 < |t|
  {
    t[i] == STAR && t[i + 1] == SLASH
  }

  /** Inside a block comment, its opening star included, there is no star and slash. */
  predicate StaysOpen(text: seq<byte>) {
    NulFree(text) && forall i :: 0 <= i < |text| ==> !ClosesAt([STAR] + text, i)
  }

  predicate IsFiller(f: Filler) {
    match f
    case Blank(b) => 0 < b <= 32
    case Line(text) => NulFree(text) && NEWLINE !in text
    case Block(text) => StaysOpen(text)
  }

  function FillerText(f: Filler): seq<byte> {
    match f
    case Blank(b) => [b]
    case Line(text) => [SLASH, SLASH] + text + [NEWLINE]
    case Block(text) => [SLASH, STAR] + text + [STAR, SLASH]
  }

  predicate IsGap(gap: seq<Filler>) {
    forall i :: 0 <= i < |gap| ==> IsFiller(gap[i])
  }

  predicate AreBlanks(gap: seq<Filler>) {
    forall i :: 0 <= i < |gap| ==> gap[i].Blank?
  }

  function GapText(gap: seq<Filler>): seq<byte> {
    if gap == [] then [] else FillerText(gap[0]) + GapText(gap[1..])
  }

  // ---------- strings ----------

  /** A character of a literal as it is written. A raw byte may be a control character, and any letter but u may
      stand behind a backslash, beyond section 7 of RFC 8259. Lost and Broken are surrogates out of place, and NUL. */
  datatype Char =
    | Raw(b: byte)
    | Short(letter: byte)
    | Unicode(piece: Piece)
    | Lost(hex: seq<Digit>)
    | Broken(high: seq<Digit>, other: seq<Digit>)

  predicate IsChar(c: Char) {
    match c
    case Raw(b) => b !in {0, QUOTE, BACKSLASH}
    case Short(letter) => letter !in {0, LETTER_U}
    case Unicode(piece) => IsPiece(piece)
    case Lost(hex) => IsFour(hex) && (HexNumber(hex) == 0 || 0xD800 <= HexNumber(hex) < 0xE000)
    case Broken(high, other) =>
      IsFour(high) && 0xD800 <= HexNumber(high) < 0xDC00 && IsFour(other) && !(0xDC00 <= HexNumber(other) < 0xE000)
  }

  function CharText(c: Char): (t: seq<byte>)
    requires IsChar(c)
    ensures t != []
  {
    match c
    case Raw(b) => [b]
    case Short(letter) => [BACKSLASH, letter]
    case Unicode(piece) => PieceText(piece)
    case Lost(hex) => HexEscape(hex)
    case Broken(high, other) => HexEscape(high) + HexEscape(other)
  }

  function CharMeaning(c: Char): seq<byte>
    requires IsChar(c)
  {
    match c
    case Raw(b) => [b]
    case Short(letter) => [LetterMeaning(letter)]
    case Unicode(piece) => Utf8(PieceScalar(piece))
    case Lost(_) => []
    case Broken(_, _) => []
  }

  /** The letters b, f, n, r and t; any other stands for itself, as quote, slash and backslash do. */
  function LetterMeaning(letter: byte): byte {
    match letter
    case 98 => 8
    case 102 => 12
    case 110 => 10
    case 114 => 13
    case 116 => 9
    case _ => letter
  }

  /** A high surrogate is lost only when no \u follows. */
  predicate MayFollow(c: Char, next: Char) {
    c.Lost? && IsFour(c.hex) && 0xD800 <= HexNumber(c.hex) < 0xDC00 ==> next.Raw? || next.Short?
  }

  predicate IsLiteral(cs: seq<Char>) {
    && (forall i :: 0 <= i < |cs| ==> IsChar(cs[i]))
    && forall i :: 0 <= i < |cs| - 1 ==> MayFollow(cs[i], cs[i + 1])
  }

  function LiteralText(cs: seq<Char>): seq<byte>
    requires IsLiteral(cs)
  {
    if cs == [] then [] else RestIsLiteral(cs); CharText(cs[0]) + LiteralText(cs[1..])
  }

  function LiteralMeaning(cs: seq<Char>): seq<byte>
    requires IsLiteral(cs)
  {
    if cs == [] then [] else RestIsLiteral(cs); CharMeaning(cs[0]) + LiteralMeaning(cs[1..])
  }

  lemma RestIsLiteral(cs: seq<Char>)
    requires cs != [] && IsLiteral(cs)
    ensures IsChar(cs[0]) && IsLiteral(cs[1..])
  {
    var rest := cs[1..];
    forall i | 0 <= i < |rest| - 1 ensures MayFollow(rest[i], rest[i + 1]) {
      assert rest[i] == cs[i + 1] && rest[i + 1] == cs[i + 2] && MayFollow(cs[i + 1], cs[i + 2]);
    }
  }

  /** One character is read as what it means. */
  lemma ReadChar(c: Char, t: seq<byte>)
    requires IsChar(c)
    requires c.Lost? ==> At(t, 0) != BACKSLASH || At(t, 1) != LETTER_U || !IsHighSurrogate(HexNumber(c.hex))
    ensures Unescape(CharText(c) + t) == Prepend(CharMeaning(c), Unescape(t))
  {
    match c
    case Raw(b) => assert (CharText(c) + t)[1..] == t;
    case Short(letter) => assert (CharText(c) + t)[2..] == t;
    case Unicode(piece) => UnescapePiece(piece, t);
    case Lost(hex) => ReadLost(hex, t);
    case Broken(high, other) => ReadBroken(high, other, t);
  }

  lemma ReadLost(hex: seq<Digit>, t: seq<byte>)
    requires IsChar(Lost(hex))
    requires At(t, 0) != BACKSLASH || At(t, 1) != LETTER_U || !IsHighSurrogate(HexNumber(hex))
    ensures Unescape(HexEscape(hex) + t) == Prepend([], Unescape(t))
  {
    HexEscapeReads(hex, t);
    LostHasSix(hex, t);
    hide Hex4, IsHex4, HexNumber, HexEscape;
    assert ReadEscape(HexEscape(hex) + t) == Step([], 6);
  }

  lemma ReadBroken(high: seq<Digit>, other: seq<Digit>, t: seq<byte>)
    requires IsChar(Broken(high, other))
    ensures Unescape(HexEscape(high) + HexEscape(other) + t) == Prepend([], Unescape(t))
  {
    PairReads(high, other, t);
    hide Hex4, IsHex4, HexNumber, HexEscape;
    var u := HexEscape(high) + (HexEscape(other) + t);
    assert HexEscape(high) + HexEscape(other) + t == u;
    assert ReadEscape(u) == Step([], 12);
  }

  lemma LostHasSix(hex: seq<Digit>, t: seq<byte>)
    requires IsFour(hex)
    ensures var u := HexEscape(hex) + t; At(u, 6) == At(t, 0) && At(u, 7) == At(t, 1)
  {
    hide HexEscape;
  }

  lemma NextIsNoUnicode(cs: seq<Char>, t: seq<byte>)
    requires cs != [] && IsLiteral(cs) && (cs[0].Raw? || cs[0].Short?)
    ensures At(LiteralText(cs) + t, 0) != BACKSLASH || At(LiteralText(cs) + t, 1) != LETTER_U
  {
  }

  /** Where a literal ends: at its quote, or open, with the text. */
  function Close(closed: bool): seq<byte> {
    if closed then [QUOTE] else []
  }

  lemma {:induction false} ReadLiteral(cs: seq<Char>, closed: bool, rest: seq<byte>)
    requires IsLiteral(cs) && (!closed ==> At(rest, 0) == 0)
    ensures Unescape(LiteralText(cs) + (Close(closed) + rest)) == Ok(LiteralMeaning(cs), rest)
  {
    var end := Close(closed) + rest;
    if cs == [] {
      assert LiteralText(cs) + end == end;
      assert closed ==> end[1..] == rest;
    } else {
      RestIsLiteral(cs);
      var more := LiteralText(cs[1..]) + end;
      FirstChar(cs, end);
      ReadLiteral(cs[1..], closed, rest);
      if cs[0].Lost? {
        LostIsFollowed(cs, end);
      }
      hide Unescape, LiteralText, LiteralMeaning, IsLiteral, CharText, CharMeaning;
      ReadChar(cs[0], more);
    }
  }

  lemma FirstChar(cs: seq<Char>, t: seq<byte>)
    requires cs != [] && IsLiteral(cs)
    ensures IsChar(cs[0]) && IsLiteral(cs[1..])
    ensures LiteralText(cs) + t == CharText(cs[0]) + (LiteralText(cs[1..]) + t)
    ensures LiteralMeaning(cs) == CharMeaning(cs[0]) + LiteralMeaning(cs[1..])
  {
    RestIsLiteral(cs);
    hide CharText, CharMeaning, IsLiteral;
    Assoc(CharText(cs[0]), LiteralText(cs[1..]), t);
  }

  lemma LostIsFollowed(cs: seq<Char>, end: seq<byte>)
    requires cs != [] && IsLiteral(cs) && cs[0].Lost? && At(end, 0) in {0, QUOTE}
    ensures IsChar(cs[0]) && IsLiteral(cs[1..])
    ensures var t := LiteralText(cs[1..]) + end;
      At(t, 0) != BACKSLASH || At(t, 1) != LETTER_U || !IsHighSurrogate(HexNumber(cs[0].hex))
  {
    RestIsLiteral(cs);
    if |cs| == 1 {
      assert LiteralText([]) + end == end;
    } else {
      assert MayFollow(cs[0], cs[1]) && cs[1..][0] == cs[1];
      if IsHighSurrogate(HexNumber(cs[0].hex)) {
        NextIsNoUnicode(cs[1..], end);
      }
    }
  }

  // ---------- whatever is read as a literal is one ----------

  lemma DigitOf(b: byte) returns (d: Digit)
    requires IsHex(b)
    ensures IsHexDigit(d) && DigitByte(d) == b && d.value == HexValue(b)
  {
    d := Digit(HexValue(b), b <= 70);
  }

  lemma DigitsOf(t: seq<byte>) returns (hex: seq<Digit>)
    requires IsHex4(t)
    ensures IsFour(hex) && HexText(hex) == t[..4] && HexNumber(hex) == Hex4(t)
  {
    var a := DigitOf(t[0]);
    var b := DigitOf(t[1]);
    var c := DigitOf(t[2]);
    var d := DigitOf(t[3]);
    hex := [a, b, c, d];
  }

  lemma EscapeOf(t: seq<byte>) returns (hex: seq<Digit>)
    requires At(t, 0) == BACKSLASH && At(t, 1) == LETTER_U && IsHex4(t[2..])
    ensures IsFour(hex) && HexNumber(hex) == Hex4(t[2..]) && t == HexEscape(hex) + t[6..]
  {
    hex := DigitsOf(t[2..]);
    hide HexText, IsHex4, Hex4, HexNumber;
    assert t[2..6] == t[2..][..4];
  }

  /** The escape at the head of a text, as a character. */
  lemma CharOf(t: seq<byte>) returns (c: Char)
    requires At(t, 0) == BACKSLASH && ReadEscape(t).Step?
    ensures IsChar(c) && !c.Raw? && |CharText(c)| == ReadEscape(t).read && CharMeaning(c) == ReadEscape(t).written
    ensures t == CharText(c) + t[ReadEscape(t).read..]
    ensures c.Lost? && IsHighSurrogate(HexNumber(c.hex)) ==> At(t, 6) != BACKSLASH || At(t, 7) != LETTER_U
  {
    hide Hex4, IsHex4, HexNumber, HexEscape, Utf8;
    if t[1] != LETTER_U {
      c := Short(t[1]);
    } else {
      c := UnicodeOf(t);
    }
  }

  lemma UnicodeOf(t: seq<byte>) returns (c: Char)
    requires At(t, 0) == BACKSLASH && At(t, 1) == LETTER_U && ReadUnicodeEscape(t).Step?
    ensures IsChar(c) && !c.Raw? && |CharText(c)| == ReadUnicodeEscape(t).read
    ensures CharMeaning(c) == ReadUnicodeEscape(t).written && t == CharText(c) + t[ReadUnicodeEscape(t).read..]
    ensures c.Lost? && IsHighSurrogate(HexNumber(c.hex)) ==> At(t, 6) != BACKSLASH || At(t, 7) != LETTER_U
  {
    hide Hex4, IsHex4, HexNumber, HexEscape, Utf8;
    var high := EscapeOf(t);
    var uc := Hex4(t[2..]);
    if IsLowSurrogate(uc) || uc == 0 || (IsHighSurrogate(uc) && (At(t, 6) != BACKSLASH || At(t, 7) != LETTER_U)) {
      c := Lost(high);
    } else if !IsHighSurrogate(uc) {
      c := Unicode(Single(high));
    } else {
      assert t[6..][2..] == t[8..] && t[6..][6..] == t[12..];
      var low := EscapeOf(t[6..]);
      Assoc(HexEscape(high), HexEscape(low), t[12..]);
      c := if IsLowSurrogate(Hex4(t[8..])) then Unicode(Pair(high, low)) else Broken(high, low);
    }
  }

  lemma LiteralGrows(c: Char, cs: seq<Char>, t: seq<byte>, end: seq<byte>)
    requires IsChar(c) && IsLiteral(cs) && t == LiteralText(cs) + end
    requires c.Lost? && IsHighSurrogate(HexNumber(c.hex)) ==> At(t, 0) != BACKSLASH || At(t, 1) != LETTER_U
    ensures IsLiteral([c] + cs) && LiteralText([c] + cs) + end == CharText(c) + t
    ensures LiteralMeaning([c] + cs) == CharMeaning(c) + LiteralMeaning(cs)
  {
    var more := [c] + cs;
    assert more[1..] == cs;
    if cs != [] {
      FirstChar(cs, end);
      NextMayFollow(c, cs[0], t, LiteralText(cs[1..]) + end);
    }
    assert IsLiteral(more);
    FirstChar(more, end);
  }

  lemma NextMayFollow(c: Char, next: Char, t: seq<byte>, rest: seq<byte>)
    requires IsChar(c) && IsChar(next) && t == CharText(next) + rest
    requires c.Lost? && IsHighSurrogate(HexNumber(c.hex)) ==> At(t, 0) != BACKSLASH || At(t, 1) != LETTER_U
    ensures MayFollow(c, next)
  {
  }

  /** Whatever is read as a literal is one. */
  lemma {:induction false} LiteralOf(t: seq<byte>) returns (cs: seq<Char>, closed: bool)
    requires Unescape(t).Ok?
    ensures IsLiteral(cs) && t == LiteralText(cs) + (Close(closed) + Unescape(t).rest)
    ensures LiteralMeaning(cs) == Unescape(t).value && (!closed ==> At(Unescape(t).rest, 0) == 0)
    decreases |t|
  {
    if At(t, 0) == 0 {
      cs, closed := [], false;
    } else if t[0] == QUOTE {
      cs, closed := [], true;
    } else {
      hide HexNumber, ReadEscape, CharText, CharMeaning, LiteralText, LiteralMeaning, IsLiteral, Unescape;
      var c, k := HeadOf(t);
      var more;
      more, closed := LiteralOf(t[k..]);
      cs := [c] + more;
      LiteralGrows(c, more, t[k..], Close(closed) + Unescape(t[k..]).rest);
    }
  }

  /** The first character of a literal, and how many bytes it takes. */
  lemma HeadOf(t: seq<byte>) returns (c: Char, k: nat)
    requires Unescape(t).Ok? && At(t, 0) !in {0, QUOTE}
    ensures 0 < k <= |t| && IsChar(c) && t == CharText(c) + t[k..] && Unescape(t[k..]).Ok?
    ensures Unescape(t) == Ok(CharMeaning(c) + Unescape(t[k..]).value, Unescape(t[k..]).rest)
    ensures c.Lost? && IsHighSurrogate(HexNumber(c.hex)) ==> At(t[k..], 0) != BACKSLASH || At(t[k..], 1) != LETTER_U
  {
    if t[0] != BACKSLASH {
      c, k := Raw(t[0]), 1;
    } else {
      c := CharOf(t);
      k := ReadEscape(t).read;
      LostHasRead(c, t, k);
    }
    hide HexNumber, ReadEscape, CharMeaning;
  }

  lemma LostHasRead(c: Char, t: seq<byte>, k: nat)
    requires IsChar(c) && k == |CharText(c)| <= |t|
    ensures c.Lost? ==> At(t[k..], 0) == At(t, 6) && At(t[k..], 1) == At(t, 7)
  {
  }

  // ---------- numbers ----------

  /** A minus, a zero and digits that start with another; section 6 of RFC 8259 has a zero or digits. */
  datatype Numeral = Numeral(minus: bool, zero: bool, digits: seq<int>)

  predicate AreDigits(ds: seq<int>) {
    forall i :: 0 <= i < |ds| ==> 0 <= ds[i] < 10
  }

  function NumberOn(n: nat, ds: seq<int>): nat
    requires AreDigits(ds)
    decreases |ds|
  {
    if ds == [] then n else NumberOn(10 * n + ds[0], ds[1..])
  }

  function NumeralMeaning(x: Numeral): int
    requires AreDigits(x.digits)
  {
    if x.minus then -(NumberOn(0, x.digits) as int) else NumberOn(0, x.digits)
  }

  predicate IsNumeral(x: Numeral) {
    && AreDigits(x.digits) && (x.digits != [] ==> x.digits[0] != 0) && (x.digits == [] ==> x.minus || x.zero)
    && IsInt32(NumeralMeaning(x))
  }

  function DigitsText(ds: seq<int>): seq<byte>
    requires AreDigits(ds)
  {
    if ds == [] then [] else [48 + ds[0]] + DigitsText(ds[1..])
  }

  function NumeralText(x: Numeral): seq<byte>
    requires IsNumeral(x)
  {
    (if x.minus then [MINUS] else []) + (if x.zero then [ZERO] else []) + DigitsText(x.digits)
  }

  /** What may stand behind a numeral without being taken into it, or into a fraction or an exponent. */
  predicate EndsNumeral(x: Numeral, rest: seq<byte>) {
    var b := At(rest, 0);
    && (IsDigit(b) ==> x.digits == [] && x.zero && b == ZERO)
    && !(b == DOT && IsDigit(At(rest, 1))) && b !in {69, 101}
  }

  lemma {:induction false} DigitsRead(n: nat, ds: seq<int>, rest: seq<byte>)
    requires AreDigits(ds) && !IsDigit(At(rest, 0))
    ensures ReadDigits(n, DigitsText(ds) + rest) == (NumberOn(n, ds), rest)
    decreases |ds|
  {
    if ds == [] {
      assert DigitsText(ds) + rest == rest;
    } else {
      var more := DigitsText(ds[1..]) + rest;
      assert DigitsText(ds) + rest == [48 + ds[0]] + more;
      ReadDigit(n, 48 + ds[0], more);
      DigitsRead(10 * n + ds[0], ds[1..], rest);
      hide ReadDigits, DigitsText;
    }
  }

  lemma NumeralReads(x: Numeral, rest: seq<byte>)
    requires IsNumeral(x) && EndsNumeral(x, rest)
    ensures var t := NumeralText(x) + rest;
      && (At(t, 0) == MINUS || IsDigit(At(t, 0))) && ParseNumber(t) == Ok(Number(NumeralMeaning(x)), rest)
  {
    var t, digits := NumeralText(x) + rest, DigitsText(x.digits) + rest;
    var unsigned := if x.zero then [ZERO] + digits else digits;
    assert t == if x.minus then [MINUS] + unsigned else unsigned;
    assert x.minus ==> t[1..] == unsigned;
    assert x.zero ==> unsigned[1..] == digits;
    if x.digits == [] {
      assert digits == rest && NumberOn(0, x.digits) == 0;
    } else {
      assert digits[0] == 48 + x.digits[0];
      DigitsRead(0, x.digits, rest);
    }
    hide ReadDigits, DigitsText, NumberOn;
    assert x.zero <==> At(unsigned, 0) == ZERO;
    assert x.minus <==> t[0] == MINUS;
    assert x.digits != [] <==> IsDigit(At(digits, 0)) && digits[0] != ZERO;
  }

  lemma {:induction false} DigitsOnceRead(n: nat, t: seq<byte>) returns (ds: seq<int>)
    ensures AreDigits(ds) && t == DigitsText(ds) + ReadDigits(n, t).1 && NumberOn(n, ds) == ReadDigits(n, t).0
    ensures !IsDigit(At(ReadDigits(n, t).1, 0)) && (IsDigit(At(t, 0)) ==> ds != [] && ds[0] == t[0] as int - 48)
    decreases |t|
  {
    if IsDigit(At(t, 0)) {
      var d := t[0] as int - 48;
      var more := DigitsOnceRead(n * 10 + d, t[1..]);
      ds := [d] + more;
      assert ds[1..] == more;
    } else {
      ds := [];
    }
  }

  lemma NumeralOf(t: seq<byte>) returns (x: Numeral)
    requires (At(t, 0) == MINUS || IsDigit(At(t, 0))) && ParseNumber(t).Ok?
    ensures IsNumeral(x) && t == NumeralText(x) + ParseNumber(t).rest && EndsNumeral(x, ParseNumber(t).rest)
    ensures ParseNumber(t).value == Number(NumeralMeaning(x))
  {
    hide ReadDigits, DigitsText, NumberOn, AreDigits, NumeralText;
    var unsigned := if t[0] == MINUS then t[1..] else t;
    var body := if At(unsigned, 0) == ZERO then unsigned[1..] else unsigned;
    var ds := DigitsAt(body);
    x := Numeral(t[0] == MINUS, At(unsigned, 0) == ZERO, ds);
    NumberParts(t, unsigned, body);
    hide ParseNumber;
    NumeralIs(x, t, unsigned, body, ParseNumber(t).rest);
  }

  lemma NumberParts(t: seq<byte>, unsigned: seq<byte>, body: seq<byte>)
    requires (At(t, 0) == MINUS || IsDigit(At(t, 0))) && ParseNumber(t).Ok?
    requires unsigned == if t[0] == MINUS then t[1..] else t
    requires body == if At(unsigned, 0) == ZERO then unsigned[1..] else unsigned
    ensures var r := if IsDigit(At(body, 0)) && body[0] != ZERO then ReadDigits(0, body) else (0, body);
      var v := Signed(t[0] == MINUS, r.0);
      && ParseNumber(t) == Ok(Number(v), r.1) && IsInt32(v)
      && !(At(r.1, 0) == DOT && IsDigit(At(r.1, 1))) && At(r.1, 0) !in {69, 101}
  {
    hide ReadDigits;
  }

  /** The digits a number goes on with, none when it goes on with a zero or something else. */
  lemma DigitsAt(t: seq<byte>) returns (ds: seq<int>)
    ensures AreDigits(ds) && (ds != [] ==> ds[0] != 0)
    ensures var r := if IsDigit(At(t, 0)) && t[0] != ZERO then ReadDigits(0, t) else (0, t);
      && t == DigitsText(ds) + r.1 && NumberOn(0, ds) == r.0
      && (ds == [] ==> r.1 == t && (IsDigit(At(t, 0)) ==> At(t, 0) == ZERO)) && (ds != [] ==> !IsDigit(At(r.1, 0)))
  {
    ds := [];
    if IsDigit(At(t, 0)) && t[0] != ZERO {
      ds := DigitsOnceRead(0, t);
    }
    hide ReadDigits;
  }

  lemma NumeralIs(x: Numeral, t: seq<byte>, unsigned: seq<byte>, body: seq<byte>, rest: seq<byte>)
    requires IsNumeral(x) && body == DigitsText(x.digits) + rest
    requires if x.minus then t != [] && t[0] == MINUS && t[1..] == unsigned else t == unsigned
    requires if x.zero then unsigned != [] && unsigned[0] == ZERO && unsigned[1..] == body else unsigned == body
    ensures t == NumeralText(x) + rest
  {
    hide DigitsText, IsNumeral;
    assert x.minus ==> t == [MINUS] + unsigned;
    assert x.zero ==> unsigned == [ZERO] + body;
  }

  // ---------- gaps ----------

  lemma {:induction false} BlanksAreBlank(gap: seq<Filler>)
    requires IsGap(gap) && AreBlanks(gap)
    ensures IsBlank(GapText(gap))
  {
    if gap != [] {
      BlanksAreBlank(gap[1..]);
      assert IsFiller(gap[0]);
    }
  }

  lemma {:induction false} GapOf(t: seq<byte>) returns (gap: seq<Filler>)
    ensures IsGap(gap) && AreBlanks(gap) && t == GapText(gap) + Skip(t)
  {
    gap := [];
    if t != [] && 0 < t[0] <= 32 {
      var more := GapOf(t[1..]);
      gap := [Blank(t[0])] + more;
      assert gap[1..] == more;
    }
  }
}
