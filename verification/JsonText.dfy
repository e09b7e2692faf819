/** What cJSON prints and what it reads, as functions on the bytes of a text. */
module JsonText {
  import opened Bytes

  const NEWLINE: byte := 10
  const TAB: byte := 9
  const SPACE: byte := 32
  const QUOTE: byte := 34
  const COMMA: byte := 44
  const MINUS: byte := 45
  const DOT: byte := 46
  const ZERO: byte := 48
  const COLON: byte := 58
  const OPEN_BRACKET: byte := 91
  const BACKSLASH: byte := 92
  const CLOSE_BRACKET: byte := 93
  const OPEN_BRACE: byte := 123
  const CLOSE_BRACE: byte := 125
  const LETTER_B: byte := 98
  const LETTER_F: byte := 102
  const LETTER_N: byte := 110
  const LETTER_R: byte := 114
  const LETTER_T: byte := 116
  const LETTER_U: byte := 117
  const NULL_TEXT: seq<byte> := [110, 117, 108, 108]
  const FALSE_TEXT: seq<byte> := [102, 97, 108, 115, 101]
  const TRUE_TEXT: seq<byte> := [116, 114, 117, 101]

  datatype Member = Member(name: seq<byte>, value: Json)

  datatype Json =
    | Null
    | False
    | True
    | Number(n: int)
    | String(s: seq<byte>)
    | Array(items: seq<Json>)
    | Object(members: seq<Member>)

  predicate IsInt32(n: int) {
    -0x8000_0000 <= n < 0x8000_0000
  }

  /** The trees the printer is asked to print: int32 numbers and C strings. */
  predicate Printable(v: Json) {
    match v
    case Number(n) => IsInt32(n)
    case String(s) => NulFree(s)
    case Array(items) => forall i :: 0 <= i < |items| ==> Printable(items[i])
    case Object(ms) => forall i :: 0 <= i < |ms| ==> NulFree(ms[i].name) && Printable(ms[i].value)
    case _ => true
  }

  // ---------- printing ----------

  function HexDigit(d: int): byte
    requires 0 <= d < 16
  {
    if d < 10 then 48 + d else 87 + d
  }

  /** What print_string_ptr writes for one byte. */
  function EscapeByte(b: byte): seq<byte> {
    if b > 31 && b != QUOTE && b != BACKSLASH then [b]
    else if b == BACKSLASH then [BACKSLASH, BACKSLASH]
    else if b == QUOTE then [BACKSLASH, QUOTE]
    else if b == 8 then [BACKSLASH, LETTER_B]
    else if b == 12 then [BACKSLASH, LETTER_F]
    else if b == 10 then [BACKSLASH, LETTER_N]
    else if b == 13 then [BACKSLASH, LETTER_R]
    else if b == 9 then [BACKSLASH, LETTER_T]
    else [BACKSLASH, LETTER_U, ZERO, ZERO, HexDigit(b / 16), HexDigit(b % 16)]
  }

  function Escape(s: seq<byte>): seq<byte> {
    if s == [] then [] else EscapeByte(s[0]) + Escape(s[1..])
  }

  function PrintString(s: seq<byte>): seq<byte> {
    [QUOTE] + Escape(s) + [QUOTE]
  }

  /** The decimal digits of n. */
  function Decimal(n: nat): seq<byte> {
    if n < 10 then [ZERO + n] else Decimal(n / 10) + [ZERO + n % 10]
  }

  function Pow10(k: nat): (p: nat)
    ensures p >= 1
  {
    if k == 0 then 1 else 10 * Pow10(k - 1)
  }

  function PrintNumber(n: int): seq<byte> {
    if n < 0 then [MINUS] + Decimal(-n) else Decimal(n)
  }

  function Tabs(k: int): seq<byte> {
    if k <= 0 then [] else [TAB] + Tabs(k - 1)
  }

  /** Layout that is only there when the text is formatted. */
  function When(fmt: bool, layout: seq<byte>): seq<byte> {
    if fmt then layout else []
  }

  function PrintValue(v: Json, depth: nat, fmt: bool): seq<byte>
    decreases v, 1
  {
    match v
    case Null => NULL_TEXT
    case False => FALSE_TEXT
    case True => TRUE_TEXT
    case Number(n) => PrintNumber(n)
    case String(s) => PrintString(s)
    case Array(items) =>
      if items == [] then [OPEN_BRACKET, CLOSE_BRACKET]
      else [OPEN_BRACKET] + PrintItems(items, depth + 1, fmt) + [CLOSE_BRACKET]
    case Object(ms) =>
      if ms == [] then [OPEN_BRACE] + When(fmt, [NEWLINE] + Tabs(depth - 1)) + [CLOSE_BRACE]
      else
        [OPEN_BRACE] + When(fmt, [NEWLINE]) + PrintMembers(ms, depth + 1, fmt)
        + When(fmt, Tabs(depth)) + [CLOSE_BRACE]
  }

  function PrintItems(items: seq<Json>, depth: nat, fmt: bool): seq<byte>
    requires items != []
    decreases items, 0
  {
    var first := PrintValue(items[0], depth, fmt);
    if |items| == 1 then first
    else first + [COMMA] + When(fmt, [SPACE]) + PrintItems(items[1..], depth, fmt)
  }

  function PrintMember(m: Member, depth: nat, fmt: bool): seq<byte>
    decreases m, 2
  {
    When(fmt, Tabs(depth)) + PrintString(m.name) + [COLON] + When(fmt, [TAB]) + PrintValue(m.value, depth, fmt)
  }

  function PrintMembers(ms: seq<Member>, depth: nat, fmt: bool): seq<byte>
    requires ms != []
    decreases ms, 0
  {
    var first := PrintMember(ms[0], depth, fmt);
    if |ms| == 1 then first + When(fmt, [NEWLINE])
    else first + [COMMA] + When(fmt, [NEWLINE]) + PrintMembers(ms[1..], depth, fmt)
  }

  // ---------- reading ----------

  /** What a parsing function answers. Outside: the source has then left what is modelled,
      by stepping over the terminator of the text or by reading a number that is no int32. */
  datatype Result<T> = Ok(value: T, rest: seq<byte>) | Fail(at: seq<byte>) | Outside

  function Skip(t: seq<byte>): (r: seq<byte>)
    ensures |r| <= |t|
  {
    if t != [] && 0 < t[0] <= 32 then Skip(t[1..]) else t
  }

  predicate IsHex(b: byte) {
    IsDigit(b) || 65 <= b <= 70 || 97 <= b <= 102
  }

  function HexValue(b: byte): (d: int)
    requires IsHex(b)
    ensures 0 <= d < 16
  {
    if b <= 57 then b - 48 else if b <= 70 then b - 55 else b - 87
  }

  predicate IsHex4(t: seq<byte>) {
    |t| >= 4 && IsHex(t[0]) && IsHex(t[1]) && IsHex(t[2]) && IsHex(t[3])
  }

  /** parse_hex4, on four hexadecimal digits. */
  function Hex4(t: seq<byte>): (h: int)
    requires IsHex4(t)
    ensures 0 <= h < 0x10000
  {
    ((HexValue(t[0]) * 16 + HexValue(t[1])) * 16 + HexValue(t[2])) * 16 + HexValue(t[3])
  }

  /** The one to four bytes parse_string writes for a code point: uc | 0x80 & 0xBF is 0x80 + uc % 64. */
  function Utf8(uc: int): (s: seq<byte>)
    requires 0 <= uc < 0x110000
    ensures 1 <= |s| <= 4
  {
    if uc < 0x80 then [uc]
    else if uc < 0x800 then [0xC0 + uc / 64, 0x80 + uc % 64]
    else if uc < 0x10000 then [0xE0 + uc / 4096, 0x80 + uc / 64 % 64, 0x80 + uc % 64]
    else [0xF0 + uc / 262144, 0x80 + uc / 4096 % 64, 0x80 + uc / 64 % 64, 0x80 + uc % 64]
  }

  predicate IsHighSurrogate(h: int) {
    0xD800 <= h < 0xDC00
  }

  predicate IsLowSurrogate(h: int) {
    0xDC00 <= h < 0xE000
  }

  function FromSurrogates(high: int, low: int): (uc: int)
    requires IsHighSurrogate(high) && IsLowSurrogate(low)
    ensures 0x10000 <= uc < 0x110000
  {
    0x10000 + (high - 0xD800) * 0x400 + (low - 0xDC00)
  }

  /** One escape of a string: the bytes written for it and the number of bytes read. */
  datatype EscapeStep = Step(written: seq<byte>, read: nat) | Stuck

  /** The escape at the head of t. Stuck when the escape is cut short by the end of the text,
      or when \u is not followed by four hexadecimal digits. */
  function ReadEscape(t: seq<byte>): (e: EscapeStep)
    requires At(t, 0) == BACKSLASH
    ensures e.Step? ==> e.read in {2, 6, 12} && e.read <= |t|
  {
    if At(t, 1) == 0 then Stuck
    else if t[1] == LETTER_U then ReadUnicodeEscape(t)
    else Step([SimpleEscape(t[1])], 2)
  }

  function SimpleEscape(b: byte): byte {
    if b == LETTER_B then 8
    else if b == LETTER_F then 12
    else if b == LETTER_N then 10
    else if b == LETTER_R then 13
    else if b == LETTER_T then 9
    else b
  }

  function ReadUnicodeEscape(t: seq<byte>): (e: EscapeStep)
    requires |t| >= 2
    ensures e.Step? ==> e.read in {6, 12} && e.read <= |t|
  {
    if !IsHex4(t[2..]) then Stuck
    else
      var uc := Hex4(t[2..]);
      if IsLowSurrogate(uc) || uc == 0 then Step([], 6)
      else if !IsHighSurrogate(uc) then Step(Utf8(uc), 6)
      else if At(t, 6) != BACKSLASH || At(t, 7) != LETTER_U then Step([], 6)
      else if !IsHex4(t[8..]) then Stuck
      else
        var uc2 := Hex4(t[8..]);
        if !IsLowSurrogate(uc2) then Step([], 12)
        else Step(Utf8(FromSurrogates(uc, uc2)), 12)
  }

  /** Prefix the value of an answer. */
  function Prepend<T>(front: seq<T>, r: Result<seq<T>>): (r': Result<seq<T>>)
    ensures r'.Ok? <==> r.Ok?
    ensures r.Ok? ==> r'.rest == r.rest
  {
    match r
    case Ok(back, rest) => Ok(front + back, rest)
    case Fail(at) => Fail(at)
    case Outside => Outside
  }

  /** The inside of a string literal, up to and including its closing quote. A string that ends
      with the text is accepted. */
  function Unescape(t: seq<byte>): (r: Result<seq<byte>>)
    ensures r.Ok? ==> |r.rest| <= |t|
    ensures !r.Fail?
  {
    if At(t, 0) == 0 then Ok([], t)
    else if t[0] == QUOTE then Ok([], t[1..])
    else if t[0] != BACKSLASH then Prepend([t[0]], Unescape(t[1..]))
    else
      match ReadEscape(t)
      case Stuck => Outside
      case Step(w, k) => Prepend(w, Unescape(t[k..]))
  }

  function ParseString(t: seq<byte>): (r: Result<seq<byte>>)
    ensures r.Ok? ==> |r.rest| < |t|
  {
    if At(t, 0) != QUOTE then Fail(t) else Unescape(t[1..])
  }

  /** The digits at the head of t, taken onto n. */
  function ReadDigits(n: nat, t: seq<byte>): (r: (nat, seq<byte>))
    ensures |r.1| <= |t|
    decreases |t|
  {
    if IsDigit(At(t, 0)) then ReadDigits(n * 10 + (t[0] - ZERO), t[1..]) else (n, t)
  }

  function Signed(negative: bool, n: int): int {
    if negative then -n else n
  }

  function ParseNumber(t: seq<byte>): (r: Result<Json>)
    requires At(t, 0) == MINUS || IsDigit(At(t, 0))
    ensures r.Ok? ==> |r.rest| < |t|
  {
    var unsigned := if t[0] == MINUS then t[1..] else t;
    var body := if At(unsigned, 0) == ZERO then unsigned[1..] else unsigned;
    var (n, rest) := if IsDigit(At(body, 0)) && body[0] != ZERO then ReadDigits(0, body) else (0, body);
    var value := Signed(t[0] == MINUS, n);
    if (At(rest, 0) == DOT && IsDigit(At(rest, 1))) || At(rest, 0) in {69, 101} || !IsInt32(value) then Outside
    else Ok(Number(value), rest)
  }

  function ParseValue(t: seq<byte>): (r: Result<Json>)
    ensures r.Ok? ==> |r.rest| < |t|
    decreases |t|, 2
  {
    if StartsWith(t, NULL_TEXT) then Ok(Null, t[4..])
    else if StartsWith(t, FALSE_TEXT) then Ok(False, t[5..])
    else if StartsWith(t, TRUE_TEXT) then Ok(True, t[4..])
    else if At(t, 0) == QUOTE then
      match ParseString(t)
      case Ok(s, rest) => Ok(String(s), rest)
      case Fail(at) => Fail(at)
      case Outside => Outside
    else if At(t, 0) == MINUS || IsDigit(At(t, 0)) then ParseNumber(t)
    else if At(t, 0) == OPEN_BRACKET then ParseArray(t)
    else if At(t, 0) == OPEN_BRACE then ParseObject(t)
    else Fail(t)
  }

  function ParseArray(t: seq<byte>): (r: Result<Json>)
    requires At(t, 0) == OPEN_BRACKET
    ensures r.Ok? ==> |r.rest| < |t|
    decreases |t|, 1
  {
    var body := Skip(t[1..]);
    if At(body, 0) == CLOSE_BRACKET then Ok(Array([]), body[1..])
    else
      match ParseItems(body)
      case Ok(items, rest) => Ok(Array(items), rest)
      case Fail(at) => Fail(at)
      case Outside => Outside
  }

  /** One item, what follows it, and the closing bracket. */
  function ParseItems(t: seq<byte>): (r: Result<seq<Json>>)
    ensures r.Ok? ==> |r.rest| < |t|
    decreases |t|, 4
  {
    match ParseValue(Skip(t))
    case Fail(at) => Fail(at)
    case Outside => Outside
    case Ok(v, after) =>
      var rest := Skip(after);
      if At(rest, 0) == COMMA then Prepend([v], ParseItems(rest[1..]))
      else if At(rest, 0) == CLOSE_BRACKET then Ok([v], rest[1..])
      else Fail(rest)
  }

  function ParseObject(t: seq<byte>): (r: Result<Json>)
    requires At(t, 0) == OPEN_BRACE
    ensures r.Ok? ==> |r.rest| < |t|
    decreases |t|, 1
  {
    var body := Skip(t[1..]);
    if At(body, 0) == CLOSE_BRACE then Ok(Object([]), body[1..])
    else
      match ParseMembers(body)
      case Ok(ms, rest) => Ok(Object(ms), rest)
      case Fail(at) => Fail(at)
      case Outside => Outside
  }

  /** A name, its colon and its value. */
  function ParseMember(t: seq<byte>): (r: Result<Member>)
    ensures r.Ok? ==> |r.rest| < |t|
    decreases |t|, 3
  {
    match ParseString(Skip(t))
    case Fail(at) => Fail(at)
    case Outside => Outside
    case Ok(name, after) =>
      var colon := Skip(after);
      if At(colon, 0) != COLON then Fail(colon)
      else
        match ParseValue(Skip(colon[1..]))
        case Fail(at) => Fail(at)
        case Outside => Outside
        case Ok(v, rest) => Ok(Member(name, v), rest)
  }

  /** One member, what follows it, and the closing brace. */
  function ParseMembers(t: seq<byte>): (r: Result<seq<Member>>)
    ensures r.Ok? ==> |r.rest| < |t|
    decreases |t|, 4
  {
    match ParseMember(t)
    case Fail(at) => Fail(at)
    case Outside => Outside
    case Ok(m, after) =>
      var rest := Skip(after);
      if At(rest, 0) == COMMA then Prepend([m], ParseMembers(rest[1..]))
      else if At(rest, 0) == CLOSE_BRACE then Ok([m], rest[1..])
      else Fail(rest)
  }

  /** cJSON_ParseWithOpts: a value, and when terminated is asked for nothing but blanks after it. */
  function ParseText(t: seq<byte>, terminated: bool): Result<Json> {
    match ParseValue(Skip(t))
    case Fail(at) => Fail(at)
    case Outside => Outside
    case Ok(v, after) =>
      if !terminated then Ok(v, after)
      else if At(Skip(after), 0) != 0 then Fail(Skip(after))
      else Ok(v, Skip(after))
  }
}
