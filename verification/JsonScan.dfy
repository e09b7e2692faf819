/** The scanners of cJSON: blanks, numbers, and strings decoded into a buffer measured beforehand. */
module JsonScan {
  import opened Bytes
  import opened JsonText

  /** skip */
  method SkipBlanks(s: seq<byte>, i: nat) returns (j: nat)
    requires i <= |s|
    ensures i <= j <= |s| && s[j..] == Skip(s[i..])
  {
    j := i;
    while At(s, j) != 0 && At(s, j) <= 32
      invariant i <= j <= |s| && Skip(s[j..]) == Skip(s[i..])
      decreases |s| - j
    {
      assert s[j..][1..] == s[j + 1..];
      j := j + 1;
    }
  }

  // ---------- numbers ----------

  lemma DigitsStep(n: nat, s: seq<byte>, i: nat)
    requires i <= |s|
    ensures ReadDigits(n, s[i..]) ==
      if IsDigit(At(s, i)) then ReadDigits(n * 10 + (s[i] - ZERO), s[i + 1..]) else (n, s[i..])
  {
    if i < |s| {
      assert s[i..][1..] == s[i + 1..];
    }
  }

  /** The loop of parse_number over the digits before the point. */
  method TakeDigits(s: seq<byte>, i: nat) returns (n: nat, j: nat)
    requires i <= |s|
    ensures i <= j <= |s| && (n, s[j..]) == ReadDigits(0, s[i..])
  {
    hide ReadDigits;
    n, j := 0, i;
    DigitsStep(n, s, j);
    while IsDigit(At(s, j))
      invariant i <= j <= |s| && ReadDigits(n, s[j..]) == ReadDigits(0, s[i..])
      decreases |s| - j
    {
      DigitsStep(n, s, j);
      n, j := n * 10 + (s[j] - ZERO), j + 1;
    }
    DigitsStep(n, s, j);
  }

  /** parse_number, on a number that is an int32 written without fraction or exponent. */
  method ParseInt(s: seq<byte>, i: nat) returns (value: int, j: nat)
    requires i <= |s| && (At(s, i) == MINUS || IsDigit(At(s, i)))
    requires !ParseNumber(s[i..]).Outside?
    ensures i < j <= |s| && ParseNumber(s[i..]) == Ok(Number(value), s[j..])
  {
    hide ReadDigits;
    var sign: int, n: nat := 1, 0;
    j := i;
    if At(s, j) == MINUS {
      sign, j := -1, j + 1;
    }
    assert s[j..] == if s[i] == MINUS then s[i..][1..] else s[i..];
    ghost var k := j;
    if At(s, j) == ZERO {
      j := j + 1;
    }
    assert s[j..] == if At(s[k..], 0) == ZERO then s[k..][1..] else s[k..];
    if 49 <= At(s, j) <= 57 {
      n, j := TakeDigits(s, j);
    }
    value := sign * n;
  }

  // ---------- strings ----------

  /** The first pass over a string never steps over the end of the text. */
  predicate Scannable(t: seq<byte>) {
    At(t, 0) == 0 || t[0] == QUOTE ||
    if t[0] == BACKSLASH then At(t, 1) != 0 && Scannable(t[2..]) else Scannable(t[1..])
  }

  /** What the first pass adds to len. */
  function Count(t: seq<byte>): nat
    requires Scannable(t)
  {
    if At(t, 0) == 0 || t[0] == QUOTE then 0
    else 1 + if t[0] == BACKSLASH then Count(t[2..]) else Count(t[1..])
  }

  lemma {:induction false} CountPlain(t: seq<byte>, k: nat)
    requires k <= |t| && forall i :: 0 <= i < k ==> t[i] !in {0, QUOTE, BACKSLASH}
    ensures Scannable(t) == Scannable(t[k..]) && (Scannable(t) ==> Count(t) == k + Count(t[k..]))
  {
    if k == 0 {
      assert t[0..] == t;
    } else {
      assert t[1..][k - 1..] == t[k..];
      CountPlain(t[1..], k - 1);
    }
  }

  lemma CountHex4(t: seq<byte>)
    requires |t| >= 6 && t[0] == BACKSLASH && t[1] == LETTER_U && IsHex4(t[2..])
    ensures Scannable(t) == Scannable(t[6..]) && (Scannable(t) ==> Count(t) == 5 + Count(t[6..]))
  {
    var u := t[2..];
    assert u[4..] == t[6..];
    CountPlain(u, 4);
  }

  /** One escape, as the first pass sees it. */
  lemma CountEscape(t: seq<byte>)
    requires At(t, 0) == BACKSLASH && ReadEscape(t).Step?
    ensures var e := ReadEscape(t);
      && Scannable(t) == Scannable(t[e.read..])
      && (Scannable(t) ==> Count(t) >= |e.written| + Count(t[e.read..]))
  {
    hide Hex4, Utf8;
    var e := ReadEscape(t);
    if t[1] == LETTER_U {
      CountHex4(t);
      if e.read == 12 {
        var v := t[6..];
        assert v[2..] == t[8..] && v[6..] == t[12..];
        hide ReadEscape, ReadUnicodeEscape;
        CountHex4(v);
      }
    }
    hide Scannable, Count;
  }

  /** A string that is read whole can be scanned, and is no longer than counted. */
  lemma {:induction false} CountFits(t: seq<byte>)
    requires Unescape(t).Ok?
    ensures Scannable(t) && Count(t) >= |Unescape(t).value|
    decreases |t|
  {
    if At(t, 0) != 0 && t[0] != QUOTE {
      if t[0] != BACKSLASH {
        CountFits(t[1..]);
      } else {
        CountEscape(t);
        CountFits(t[ReadEscape(t).read..]);
        hide ReadEscape;
      }
    }
  }

  /** The first pass of parse_string. */
  method Measure(s: seq<byte>, i: nat) returns (len: nat)
    requires i <= |s| && Scannable(s[i..])
    ensures len == Count(s[i..])
  {
    len := 0;
    var p := i;
    while At(s, p) != QUOTE && At(s, p) != 0
      invariant i <= p <= |s| && Scannable(s[p..]) && len + Count(s[p..]) == Count(s[i..])
      decreases |s| - p
    {
      assert s[p..][1..] == s[p + 1..];
      len := len + 1;
      if s[p] == BACKSLASH {
        assert s[p..][2..] == s[p + 2..];
        p := p + 1;
      }
      p := p + 1;
    }
  }

  /** parse_hex4: 0 unless there are four hexadecimal digits. */
  method ParseHex4(s: seq<byte>, i: nat) returns (h: int)
    requires i <= |s|
    ensures h == if IsHex4(s[i..]) then Hex4(s[i..]) else 0
  {
    assert forall k :: 0 <= k < |s[i..]| ==> s[i..][k] == s[i + k];
    if !IsHex(At(s, i)) {
      return 0;
    }
    h := HexValue(s[i]);
    if !IsHex(At(s, i + 1)) {
      return 0;
    }
    h := h * 16 + HexValue(s[i + 1]);
    if !IsHex(At(s, i + 2)) {
      return 0;
    }
    h := h * 16 + HexValue(s[i + 2]);
    if !IsHex(At(s, i + 3)) {
      return 0;
    }
    h := h * 16 + HexValue(s[i + 3]);
  }

  /** (uc | 0x80) & 0xBF, as a byte. */
  function Continuation(uc: nat): byte {
    0x80 + uc % 64
  }

  /** uc | firstByteMark[len], for what is left of a code point that takes len bytes. */
  function Lead(uc: nat, len: nat): byte
    requires 1 <= len <= 4 && uc < [0, 128, 32, 16, 8][len]
  {
    [0, 0, 0xC0, 0xE0, 0xF0][len] + uc
  }

  /** The bytes that are written from the last to the first are those of the encoding. */
  lemma PiecesOfUtf8(code: nat)
    requires code < 0x110000
    ensures var u1 := code / 64; var u2 := u1 / 64; var u3 := u2 / 64;
      && u1 < 0x4400 && u2 < 0x110 && u3 < 5
      && (code < 0x800 ==> u1 < 32) && (code < 0x10000 ==> u2 < 16)
      && Utf8(code) ==
        if code < 0x80 then [Lead(code, 1)]
        else if code < 0x800 then [Lead(u1, 2), Continuation(code)]
        else if code < 0x10000 then [Lead(u2, 3), Continuation(u1), Continuation(code)]
        else [Lead(u3, 4), Continuation(u2), Continuation(u1), Continuation(code)]
  {
    assert code / 64 / 64 == code / 4096;
    assert code / 4096 / 64 == code / 262144;
  }

  /** The bytes of one code point, written from the last to the first. */
  method WriteUtf8(out: array<byte>, at: nat, code: nat) returns (at': nat)
    requires code < 0x110000 && at + |Utf8(code)| <= out.Length
    modifies out
    ensures at' == at + |Utf8(code)| && out[..at] == old(out[..at]) && out[at..at'] == Utf8(code)
  {
    PiecesOfUtf8(code);
    hide Utf8, Lead, Continuation;
    var len := if code < 0x80 then 1 else if code < 0x800 then 2 else if code < 0x10000 then 3 else 4;
    var uc, p := code, at + len;
    if len >= 4 {
      p := p - 1;
      out[p], uc := Continuation(uc), uc / 64;
    }
    if len >= 3 {
      p := p - 1;
      out[p], uc := Continuation(uc), uc / 64;
    }
    if len >= 2 {
      p := p - 1;
      out[p], uc := Continuation(uc), uc / 64;
    }
    p := p - 1;
    out[p] := Lead(uc, len);
    return p + len;
  }

  /** The case u of parse_string, with ptr at the letter: nothing is written for what is no code point. */
  method DecodeUnicode(s: seq<byte>, at: nat, out: array<byte>, q: nat) returns (ptr: nat, q': nat)
    requires at + 2 <= |s| && s[at] == BACKSLASH && s[at + 1] == LETTER_U && ReadUnicodeEscape(s[at..]).Step?
    requires q + |ReadUnicodeEscape(s[at..]).written| <= out.Length
    modifies out
    ensures var e := ReadUnicodeEscape(s[at..]);
      && ptr == at + e.read - 1 && q' == q + |e.written| && out[..q'] == old(out[..q]) + e.written
  {
    hide Hex4, Utf8;
    ghost var t := s[at..];
    assert t[2..] == s[at + 2..];
    ptr, q' := at + 1, q;
    var uc := ParseHex4(s, ptr + 1);
    ptr := ptr + 4;
    if 0xDC00 <= uc <= 0xDFFF || uc == 0 {
      return;
    }
    if 0xD800 <= uc <= 0xDBFF {
      if At(s, ptr + 1) != BACKSLASH || At(s, ptr + 2) != LETTER_U {
        return;
      }
      assert t[8..] == s[at + 8..];
      var uc2 := ParseHex4(s, ptr + 3);
      ptr := ptr + 6;
      if uc2 < 0xDC00 || uc2 > 0xDFFF {
        return;
      }
      assert FromSurrogates(uc, uc2) == 0x10000 + uc % 0x400 * 0x400 + uc2 % 0x400;
      uc := 0x10000 + uc % 0x400 * 0x400 + uc2 % 0x400;
    }
    q' := WriteUtf8(out, q, uc);
    assert out[..q'] == out[..q] + out[q..q'];
  }

  /** One escape of the second pass. */
  method DecodeEscape(s: seq<byte>, at: nat, out: array<byte>, q: nat) returns (p: nat, q': nat)
    requires at < |s| && s[at] == BACKSLASH && ReadEscape(s[at..]).Step?
    requires q + |ReadEscape(s[at..]).written| <= out.Length
    modifies out
    ensures var e := ReadEscape(s[at..]);
      && p == at + e.read && q' == q + |e.written| && out[..q'] == old(out[..q]) + e.written
  {
    hide ReadUnicodeEscape;
    assert At(s[at..], 1) == At(s, at + 1);
    var ptr := at + 1;
    if s[ptr] == LETTER_U {
      ptr, q' := DecodeUnicode(s, at, out, q);
    } else {
      out[q] := match s[ptr]
        case 98 => 8
        case 102 => 12
        case 110 => 10
        case 114 => 13
        case 116 => 9
        case b => b;
      q' := q + 1;
      assert out[..q'] == out[..q] + [SimpleEscape(s[ptr])];
    }
    p := ptr + 1;
  }

  /** What a string decodes to is a C string. */
  lemma {:induction false} UnescapeIsNulFree(t: seq<byte>)
    requires Unescape(t).Ok?
    ensures NulFree(Unescape(t).value)
    decreases |t|
  {
    if At(t, 0) != 0 && t[0] != QUOTE {
      if t[0] != BACKSLASH {
        UnescapeIsNulFree(t[1..]);
      } else {
        WrittenIsNulFree(t);
        UnescapeIsNulFree(t[ReadEscape(t).read..]);
        hide ReadEscape;
      }
    }
  }

  lemma WrittenIsNulFree(t: seq<byte>)
    requires At(t, 0) == BACKSLASH && ReadEscape(t).Step?
    ensures NulFree(ReadEscape(t).written)
  {
    hide Hex4;
  }

  lemma UnescapeStep(s: seq<byte>, p: nat)
    requires p <= |s| && Unescape(s[p..]).Ok?
    ensures var r := Unescape(s[p..]);
      if At(s, p) == 0 then r == Ok([], s[p..])
      else if s[p] == QUOTE then r == Ok([], s[p + 1..])
      else if s[p] != BACKSLASH then r == Prepend([s[p]], Unescape(s[p + 1..]))
      else
        var e := ReadEscape(s[p..]);
        e.Step? && r == Prepend(e.written, Unescape(s[p + e.read..]))
  {
    var t := s[p..];
    if At(s, p) != 0 {
      assert t[1..] == s[p + 1..];
      if s[p] == BACKSLASH {
        var e := ReadEscape(t);
        assert e.Step? ==> t[e.read..] == s[p + e.read..];
      }
    }
    hide ReadEscape;
  }

  /** parse_string: the text decoded, in a buffer of the length counted. */
  method ParseStringLiteral(s: seq<byte>, i: nat) returns (end: int, out: array?<byte>, n: nat)
    requires i <= |s| && !ParseString(s[i..]).Outside?
    ensures end < 0 <==> ParseString(s[i..]).Fail?
    ensures ParseString(s[i..]).Fail? ==> At(s, i) != QUOTE && ParseString(s[i..]) == Fail(s[i..])
    ensures end >= 0 ==>
      && i < end <= |s| && out != null && fresh(out) && n < out.Length && out[n] == 0
      && ParseString(s[i..]) == Ok(out[..n], s[end..]) && NulFree(out[..n])
  {
    hide Unescape, ReadEscape, Scannable, Count;
    if At(s, i) != QUOTE {
      return -1, null, 0;
    }
    assert s[i..][1..] == s[i + 1..];
    ghost var whole := Unescape(s[i + 1..]);
    assert At(s[i..], 0) == QUOTE && ParseString(s[i..]) == whole && whole.Ok?;
    hide ParseString;
    CountFits(s[i + 1..]);
    UnescapeIsNulFree(s[i + 1..]);
    var len := Measure(s, i + 1);
    out := new byte[len + 1];
    var ptr: nat, q: nat := i + 1, 0;
    while At(s, ptr) != QUOTE && At(s, ptr) != 0
      invariant i < ptr <= |s| && q <= len && Unescape(s[ptr..]).Ok? && Unescape(s[ptr..]).rest == whole.rest
      invariant out[..q] + Unescape(s[ptr..]).value == whole.value
      decreases |s| - ptr
    {
      UnescapeStep(s, ptr);
      ghost var done := out[..q];
      if s[ptr] != BACKSLASH {
        out[q] := s[ptr];
        ptr, q := ptr + 1, q + 1;
        assert out[..q] == done + [s[ptr - 1]];
        assert done + ([s[ptr - 1]] + Unescape(s[ptr..]).value) == out[..q] + Unescape(s[ptr..]).value;
      } else {
        ghost var e := ReadEscape(s[ptr..]);
        ghost var p' := ptr + e.read;
        assert done + (e.written + Unescape(s[p'..]).value) == done + e.written + Unescape(s[p'..]).value;
        ptr, q := DecodeEscape(s, ptr, out, q);
      }
    }
    UnescapeStep(s, ptr);
    out[q] := 0;
    if At(s, ptr) == QUOTE {
      ptr := ptr + 1;
    }
    assert out[..q] == whole.value;
    return ptr, out, q;
  }
}
