/** \u escapes: what parse_string writes for them is the UTF-8 of RFC 3629, and the MQTT check accepts it. */
module JsonUnicode {
  import opened Bytes
  import opened JsonText
  import opened Utf8Check

  /** Unicode scalar values: code points that are no surrogates. */
  predicate IsScalar(uc: int) {
    0 <= uc < 0x110000 && !(0xD800 <= uc < 0xE000)
  }

  /** The bits a byte carries behind its mark. */
  function Carries(b: int, mark: int): int {
    b - mark
  }

  /** The number a UTF8-char stands for (section 3 of RFC 3629). */
  function DecodeUtf8Char(c: seq<byte>): int
    requires IsUtf8Char(c)
  {
    if |c| == 1 then c[0]
    else if |c| == 2 then Carries(c[0], 0xC0) * 64 + Carries(c[1], 0x80)
    else if |c| == 3 then (Carries(c[0], 0xE0) * 64 + Carries(c[1], 0x80)) * 64 + Carries(c[2], 0x80)
    else
      ((Carries(c[0], 0xF0) * 64 + Carries(c[1], 0x80)) * 64 + Carries(c[2], 0x80)) * 64 + Carries(c[3], 0x80)
  }

  /** What is written for a scalar value is the one UTF8-char that stands for it. */
  lemma EncodeThenDecode(uc: int)
    requires IsScalar(uc)
    ensures IsUtf8Char(Utf8(uc)) && DecodeUtf8Char(Utf8(uc)) == uc
  {
    if uc < 0x80 {
    } else if uc < 0x800 {
      assert uc == uc / 64 * 64 + uc % 64;
    } else if uc < 0x10000 {
      assert uc / 64 == uc / 4096 * 64 + uc / 64 % 64;
    } else {
      assert uc / 4096 / 64 == uc / 262144;
      assert uc / 64 == uc / 4096 * 64 + uc / 64 % 64;
      assert uc / 4096 == uc / 262144 * 64 + uc / 4096 % 64;
    }
  }

  lemma DecodeThenEncode(c: seq<byte>)
    requires IsUtf8Char(c)
    ensures IsScalar(DecodeUtf8Char(c)) && Utf8(DecodeUtf8Char(c)) == c
  {
    if |c| == 3 {
      ThreeThenEncode(c);
    } else if |c| == 4 {
      FourThenEncode(c);
    }
  }

  lemma ThreeThenEncode(c: seq<byte>)
    requires IsUtf8Char(c) && |c| == 3
    ensures IsScalar(DecodeUtf8Char(c)) && Utf8(DecodeUtf8Char(c)) == c
  {
    ThreeParts(Carries(c[0], 0xE0), Carries(c[1], 0x80), Carries(c[2], 0x80));
  }

  lemma FourThenEncode(c: seq<byte>)
    requires IsUtf8Char(c) && |c| == 4
    ensures IsScalar(DecodeUtf8Char(c)) && Utf8(DecodeUtf8Char(c)) == c
  {
    FourParts(Carries(c[0], 0xF0), Carries(c[1], 0x80), Carries(c[2], 0x80), Carries(c[3], 0x80));
  }

  lemma ThreeParts(x: int, y: int, z: int)
    requires 0 <= x && 0 <= y < 64 && 0 <= z < 64
    ensures var n := (x * 64 + y) * 64 + z; n / 4096 == x && n / 64 % 64 == y && n % 64 == z
  {
    var n := (x * 64 + y) * 64 + z;
    assert n / 64 == x * 64 + y;
  }

  lemma FourParts(w: int, x: int, y: int, z: int)
    requires 0 <= w && 0 <= x < 64 && 0 <= y < 64 && 0 <= z < 64
    ensures var n := ((w * 64 + x) * 64 + y) * 64 + z;
            n / 262144 == w && n / 4096 % 64 == x && n / 64 % 64 == y && n % 64 == z
  {
    ThreeParts(w * 64 + x, y, z);
  }

  /** A surrogate alone would not be UTF-8; parse_string writes nothing for one. */
  lemma SurrogateIsNoUtf8(uc: int)
    requires 0xD800 <= uc < 0xE000
    ensures !IsUtf8Char(Utf8(uc))
  {
  }

  // ---------- hexadecimal digits ----------

  /** A hexadecimal digit and, above 9, whether it is written as a capital letter. */
  datatype Digit = Digit(value: int, upper: bool)

  predicate IsHexDigit(d: Digit) {
    0 <= d.value < 16
  }

  /** Four of them, as \u has them. */
  predicate IsFour(hex: seq<Digit>) {
    |hex| == 4 && forall i :: 0 <= i < 4 ==> IsHexDigit(hex[i])
  }

  function DigitByte(d: Digit): byte
    requires IsHexDigit(d)
  {
    if d.value < 10 then 48 + d.value else if d.upper then 55 + d.value else 87 + d.value
  }

  function HexText(hex: seq<Digit>): (t: seq<byte>)
    requires IsFour(hex)
    ensures |t| == 4
  {
    [DigitByte(hex[0]), DigitByte(hex[1]), DigitByte(hex[2]), DigitByte(hex[3])]
  }

  function HexNumber(hex: seq<Digit>): (n: int)
    requires IsFour(hex)
    ensures 0 <= n < 0x10000
  {
    hex[0].value * 4096 + hex[1].value * 256 + hex[2].value * 16 + hex[3].value
  }

  /** Digits of either case read as the number they write. */
  lemma HexReadsBack(hex: seq<Digit>, t: seq<byte>)
    requires IsFour(hex)
    ensures IsHex4(HexText(hex) + t) && Hex4(HexText(hex) + t) == HexNumber(hex)
  {
    var u := HexText(hex) + t;
    assert forall i :: 0 <= i < 4 ==> u[i] == DigitByte(hex[i]) && HexValue(u[i]) == hex[i].value;
  }

  /** Every number below 65536, in every choice of cases. */
  lemma NumberReadsBack(n: int, a: bool, b: bool, c: bool, d: bool)
    requires 0 <= n < 0x10000
    ensures var hex := [Digit(n / 4096, a), Digit(n / 256 % 16, b), Digit(n / 16 % 16, c), Digit(n % 16, d)];
      IsFour(hex) && HexNumber(hex) == n && IsHex4(HexText(hex)) && Hex4(HexText(hex)) == n
  {
    var hex := [Digit(n / 4096, a), Digit(n / 256 % 16, b), Digit(n / 16 % 16, c), Digit(n % 16, d)];
    FourParts16(n);
    HexReadsBack(hex, []);
    assert HexText(hex) + [] == HexText(hex);
    hide HexText, IsHex4, Hex4;
  }

  lemma FourParts16(n: int)
    requires 0 <= n < 0x10000
    ensures n / 4096 < 16 && n == n / 4096 * 4096 + n / 256 % 16 * 256 + n / 16 % 16 * 16 + n % 16
  {
    var a, b := n / 16, n / 256;
    assert n == a * 16 + n % 16;
    assert a == b * 16 + a % 16 && a / 16 == b;
    assert b == n / 4096 * 16 + b % 16 && b / 16 == n / 4096;
  }

  // ---------- escapes ----------

  function HexEscape(hex: seq<Digit>): (t: seq<byte>)
    requires IsFour(hex)
    ensures |t| == 6
  {
    [BACKSLASH, LETTER_U] + HexText(hex)
  }

  /** An escape as section 7 of RFC 8259 has it: four hexadecimal digits, or two of them as a surrogate pair. */
  datatype Piece = Single(hex: seq<Digit>) | Pair(high: seq<Digit>, low: seq<Digit>)

  predicate IsPiece(p: Piece) {
    match p
    case Single(hex) => IsFour(hex) && HexNumber(hex) != 0 && IsScalar(HexNumber(hex))
    case Pair(high, low) =>
      IsFour(high) && 0xD800 <= HexNumber(high) < 0xDC00 && IsFour(low) && 0xDC00 <= HexNumber(low) < 0xE000
  }

  function PieceText(p: Piece): seq<byte>
    requires IsPiece(p)
  {
    match p
    case Single(hex) => HexEscape(hex)
    case Pair(high, low) => HexEscape(high) + HexEscape(low)
  }

  function PieceScalar(p: Piece): (uc: int)
    requires IsPiece(p)
    ensures IsScalar(uc) && uc != 0
  {
    match p
    case Single(hex) => HexNumber(hex)
    case Pair(high, low) => 0x10000 + (HexNumber(high) - 0xD800) * 0x400 + (HexNumber(low) - 0xDC00)
  }

  predicate ArePieces(ps: seq<Piece>) {
    forall i :: 0 <= i < |ps| ==> IsPiece(ps[i])
  }

  function PiecesText(ps: seq<Piece>): seq<byte>
    requires ArePieces(ps)
  {
    if ps == [] then [] else PieceText(ps[0]) + PiecesText(ps[1..])
  }

  function PiecesUtf8(ps: seq<Piece>): seq<seq<byte>>
    requires ArePieces(ps)
  {
    if ps == [] then [] else [Utf8(PieceScalar(ps[0]))] + PiecesUtf8(ps[1..])
  }

  lemma HexEscapeReads(hex: seq<Digit>, t: seq<byte>)
    requires IsFour(hex)
    ensures var u := HexEscape(hex) + t;
      u[0] == BACKSLASH && u[1] == LETTER_U && IsHex4(u[2..]) && Hex4(u[2..]) == HexNumber(hex) && u[6..] == t
  {
    var u := HexEscape(hex) + t;
    assert u[2..] == HexText(hex) + t;
    HexReadsBack(hex, t);
    hide HexText, IsHex4, Hex4, HexNumber;
  }

  lemma PairReads(high: seq<Digit>, low: seq<Digit>, t: seq<byte>)
    requires IsFour(high) && IsFour(low)
    ensures var u := HexEscape(high) + (HexEscape(low) + t);
      && u[0] == BACKSLASH && u[1] == LETTER_U && IsHex4(u[2..]) && Hex4(u[2..]) == HexNumber(high)
      && u[6] == BACKSLASH && u[7] == LETTER_U && IsHex4(u[8..]) && Hex4(u[8..]) == HexNumber(low) && u[12..] == t
  {
    var u, v := HexEscape(high) + (HexEscape(low) + t), HexEscape(low) + t;
    HexEscapeReads(high, v);
    HexEscapeReads(low, t);
    hide HexEscape, IsHex4, Hex4, HexNumber;
    assert u[6..] == v && u[8..] == v[2..] && u[12..] == v[6..];
  }

  lemma UnescapePiece(p: Piece, t: seq<byte>)
    requires IsPiece(p)
    ensures Unescape(PieceText(p) + t) == Prepend(Utf8(PieceScalar(p)), Unescape(t))
  {
    hide Utf8, Hex4, IsHex4, HexNumber, HexEscape;
    var u := PieceText(p) + t;
    match p
    case Single(hex) =>
      HexEscapeReads(hex, t);
      assert ReadEscape(u) == Step(Utf8(HexNumber(hex)), 6);
    case Pair(high, low) =>
      PairReads(high, low, t);
      assert u == HexEscape(high) + (HexEscape(low) + t);
      assert ReadEscape(u) == Step(Utf8(FromSurrogates(HexNumber(high), HexNumber(low))), 12);
  }

  /** A string of escapes decodes to the UTF-8 of their scalar values, in order. */
  lemma {:induction false} UnescapePieces(ps: seq<Piece>, post: seq<byte>)
    requires ArePieces(ps)
    ensures ParseString([QUOTE] + (PiecesText(ps) + ([QUOTE] + post))) == Ok(Concat(PiecesUtf8(ps)), post)
  {
    hide Unescape, PiecesText, PiecesUtf8, Concat;
    var inside := PiecesText(ps) + ([QUOTE] + post);
    assert ([QUOTE] + inside)[1..] == inside;
    UnescapePiecesFrom(ps, post);
  }

  lemma {:induction false} UnescapePiecesFrom(ps: seq<Piece>, post: seq<byte>)
    requires ArePieces(ps)
    ensures Unescape(PiecesText(ps) + ([QUOTE] + post)) == Ok(Concat(PiecesUtf8(ps)), post)
  {
    var close := [QUOTE] + post;
    if ps == [] {
      assert PiecesText(ps) + close == close && close[1..] == post;
    } else {
      var more := PiecesText(ps[1..]) + close;
      assert PiecesText(ps) + close == PieceText(ps[0]) + more;
      UnescapePiece(ps[0], more);
      UnescapePiecesFrom(ps[1..], post);
      assert PiecesUtf8(ps)[1..] == PiecesUtf8(ps[1..]);
      hide Unescape, PieceText, PiecesText;
    }
  }

  lemma {:induction false} PiecesAreUtf8(ps: seq<Piece>)
    requires ArePieces(ps)
    ensures IsUtf8Split(PiecesUtf8(ps), Concat(PiecesUtf8(ps))) && NulFree(Concat(PiecesUtf8(ps)))
  {
    if ps != [] {
      var uc := PieceScalar(ps[0]);
      var c := Utf8(uc);
      EncodeThenDecode(uc);
      assert NulFree(c);
      hide Utf8, DecodeUtf8Char, IsUtf8Char;
      PiecesAreUtf8(ps[1..]);
      assert PiecesUtf8(ps) == [c] + PiecesUtf8(ps[1..]);
      assert Concat(PiecesUtf8(ps)) == c + Concat(PiecesUtf8(ps[1..])) by {
        assert PiecesUtf8(ps)[1..] == PiecesUtf8(ps[1..]);
      }
    }
  }

  /** So the MQTT walk, testing where it reads, accepts every such string whole. */
  lemma PiecesPassTheCheck(ps: seq<Piece>)
    requires ArePieces(ps)
    ensures var s := Concat(PiecesUtf8(ps)); Walk(s, 0, false, true) == |s|
    ensures forall i :: 0 <= i < |PiecesUtf8(ps)| ==>
      IsLegalUtf8(PiecesUtf8(ps)[i], |PiecesUtf8(ps)[i]|, false)
  {
    var parts := PiecesUtf8(ps);
    PiecesAreUtf8(ps);
    RebasedWalkIsRfc3629(Concat(parts));
    forall i | 0 <= i < |parts| ensures IsLegalUtf8(parts[i], |parts[i]|, false) {
      Utf8CharLength(parts[i], false);
      LegalIsUtf8Char(parts[i], false);
    }
    hide Walk, IsUtf8Char, IsLegalUtf8;
  }
}
