/** The UTF-8 check of the MQTT SDK: the walk over a string, the walk as it is written, and RFC 3629. */
module Utf8Check {
  import opened Bytes

  const NOT_UTF8: int := -6

  /** Mqtt_TrailingBytesForUTF8: six rows of 32 zeros, then one row of ones, then twos to fives. */
  function TrailingBytes(b: byte): (n: nat)
    ensures n <= 5
  {
    if b < 0xC0 then 0 else if b < 0xE0 then 1 else if b < 0xF0 then 2
    else if b < 0xF8 then 3 else if b < 0xFC then 4 else 5
  }

  function CharLength(b: byte): nat {
    TrailingBytes(b) + 1
  }

  predicate IsTail(b: byte) {
    0x80 <= b <= 0xBF
  }

  /** The bounds on the second byte that depend on the first. */
  predicate SecondFits(first: byte, second: byte) {
    && (first == 0xE0 ==> second >= 0xA0)
    && (first == 0xED ==> second <= 0x9F)
    && (first == 0xF0 ==> second >= 0x90)
    && (first == 0xF4 ==> second <= 0x8F)
  }

  /** The test of the first byte. It compares a plain char, so where char is signed no byte fails it. */
  predicate FirstFits(first: byte, signedChar: bool) {
    signedChar || !(0x80 <= first < 0xC2 || first > 0xF4)
  }

  /** Mqtt_IsLegalUtf8 on the first len bytes of s; its switch falls through from 4 to 1. */
  predicate IsLegalUtf8(s: seq<byte>, len: nat, signedChar: bool)
    requires len <= |s|
  {
    && 1 <= len <= 4
    && (len >= 4 ==> IsTail(s[3]))
    && (len >= 3 ==> IsTail(s[2]))
    && (len >= 2 ==> IsTail(s[1]) && SecondFits(s[0], s[1]))
    && FirstFits(s[0], signedChar)
  }

  // ---------- RFC 3629, section 4 ----------

  /** UTF8-char of the grammar in section 4 of RFC 3629. */
  predicate IsUtf8Char(c: seq<byte>) {
    || (|c| == 1 && c[0] <= 0x7F)
    || (|c| == 2 && 0xC2 <= c[0] <= 0xDF && IsTail(c[1]))
    || (|c| == 3 && c[0] == 0xE0 && 0xA0 <= c[1] <= 0xBF && IsTail(c[2]))
    || (|c| == 3 && 0xE1 <= c[0] <= 0xEC && IsTail(c[1]) && IsTail(c[2]))
    || (|c| == 3 && c[0] == 0xED && 0x80 <= c[1] <= 0x9F && IsTail(c[2]))
    || (|c| == 3 && 0xEE <= c[0] <= 0xEF && IsTail(c[1]) && IsTail(c[2]))
    || (|c| == 4 && c[0] == 0xF0 && 0x90 <= c[1] <= 0xBF && IsTail(c[2]) && IsTail(c[3]))
    || (|c| == 4 && 0xF1 <= c[0] <= 0xF3 && IsTail(c[1]) && IsTail(c[2]) && IsTail(c[3]))
    || (|c| == 4 && c[0] == 0xF4 && 0x80 <= c[1] <= 0x8F && IsTail(c[2]) && IsTail(c[3]))
  }

  /** What a signed first byte lets through besides: a tail byte alone, an overlong pair, or four bytes
      beyond the code points. */
  predicate IsStray(c: seq<byte>) {
    || (|c| == 1 && IsTail(c[0]))
    || (|c| == 2 && 0xC0 <= c[0] <= 0xC1 && IsTail(c[1]))
    || (|c| == 4 && 0xF5 <= c[0] <= 0xF7 && IsTail(c[1]) && IsTail(c[2]) && IsTail(c[3]))
  }

  predicate IsCharFor(c: seq<byte>, signedChar: bool) {
    IsUtf8Char(c) || (signedChar && IsStray(c))
  }

  ghost predicate IsSplit(parts: seq<seq<byte>>, s: seq<byte>, signedChar: bool) {
    Concat(parts) == s && forall i :: 0 <= i < |parts| ==> IsCharFor(parts[i], signedChar)
  }

  ghost predicate IsUtf8Split(parts: seq<seq<byte>>, s: seq<byte>) {
    IsSplit(parts, s, false)
  }

  ghost predicate IsUtf8(s: seq<byte>) {
    exists parts :: IsUtf8Split(parts, s)
  }

  /** With the length the table gives, the legality test is the grammar; where char is signed it is the
      grammar and the strays. */
  lemma LegalIsUtf8Char(c: seq<byte>, signedChar: bool)
    requires c != [] && |c| == CharLength(c[0])
    ensures IsLegalUtf8(c, |c|, signedChar) <==> IsCharFor(c, signedChar)
  {
  }

  /** A stray is no UTF8-char. */
  lemma StraysAreNoUtf8(c: seq<byte>)
    requires IsStray(c)
    ensures |c| == CharLength(c[0]) && !IsUtf8Char(c)
  {
  }

  lemma Utf8CharLength(c: seq<byte>, signedChar: bool)
    requires IsCharFor(c, signedChar)
    ensures |c| == CharLength(c[0]) && forall i :: 1 <= i < |c| ==> IsTail(c[i])
  {
  }

  // ---------- the walk ----------

  /** The loop of Mqtt_CheckUtf8 from index i on. The source tests each character at the start of the
      string; rebased says that the test is moved along with i, as the table look-up is. */
  function Walk(s: seq<byte>, i: nat, signedChar: bool, rebased: bool): (r: int)
    requires i <= |s|
    decreases |s| - i
  {
    if i == |s| then i
    else
      var n := CharLength(s[i]);
      if i + n > |s| then NOT_UTF8
      else if !IsLegalUtf8(if rebased then s[i..] else s, n, signedChar) then NOT_UTF8
      else if At(s, i + n) == 0 then i + n
      else Walk(s, i + n, signedChar, rebased)
  }

  /** Mqtt_CheckUtf8, as written. */
  method CheckUtf8(s: seq<byte>, signedChar: bool) returns (r: int)
    ensures r == Walk(s, 0, signedChar, false)
  {
    var i := 0;
    while i < |s|
      invariant 0 <= i <= |s| && Walk(s, i, signedChar, false) == Walk(s, 0, signedChar, false)
    {
      var n := CharLength(s[i]);
      if i + n > |s| {
        return NOT_UTF8;
      }
      if !IsLegalUtf8(s, n, signedChar) {
        return NOT_UTF8;
      }
      i := i + n;
      if At(s, i) == 0 {
        break;
      }
    }
    return i;
  }

  // ---------- the walk that tests where it reads ----------

  lemma LegalHead(t: seq<byte>, n: nat, signedChar: bool)
    requires t != [] && n == CharLength(t[0]) <= |t|
    ensures IsLegalUtf8(t, n, signedChar) <==> IsCharFor(t[..n], signedChar)
  {
    LegalIsUtf8Char(t[..n], signedChar);
    hide IsCharFor, CharLength;
  }

  lemma WalkStep(s: seq<byte>, i: nat, signedChar: bool)
    requires i < |s| && Walk(s, i, signedChar, true) == |s|
    ensures var n := CharLength(s[i]);
      && 0 < n <= |s| - i && IsLegalUtf8(s[i..], n, signedChar)
      && (i + n < |s| ==> Walk(s, i + n, signedChar, true) == |s|)
  {
    assert CharLength(s[i]) > 0;
    hide IsLegalUtf8, CharLength;
  }

  lemma OneCharMore(c: seq<byte>, more: seq<seq<byte>>, s: seq<byte>, signedChar: bool)
    requires IsCharFor(c, signedChar) && IsSplit(more, s, signedChar)
    ensures IsSplit([c] + more, c + s, signedChar)
  {
    hide IsCharFor;
    assert ([c] + more)[1..] == more;
  }

  lemma NoChars(signedChar: bool)
    ensures IsSplit([], [], signedChar)
  {
  }

  lemma {:induction false} RebasedWalkSplits(s: seq<byte>, i: nat, signedChar: bool) returns (parts: seq<seq<byte>>)
    requires i <= |s| && Walk(s, i, signedChar, true) == |s|
    ensures IsSplit(parts, s[i..], signedChar)
    decreases |s| - i
  {
    hide Walk, IsSplit, IsCharFor, IsLegalUtf8, CharLength;
    NoChars(signedChar);
    if i == |s| {
      parts := [];
    } else {
      WalkStep(s, i, signedChar);
      var n := CharLength(s[i]);
      var c, rest := s[i..][..n], s[i + n..];
      LegalHead(s[i..], n, signedChar);
      var more := [];
      assert i + n == |s| ==> rest == [];
      if i + n < |s| {
        more := RebasedWalkSplits(s, i + n, signedChar);
      }
      parts := [c] + more;
      OneCharMore(c, more, rest, signedChar);
      assert c + rest == s[i..];
    }
  }

  lemma {:induction false} SplitIsWalked(s: seq<byte>, i: nat, parts: seq<seq<byte>>, signedChar: bool)
    requires i <= |s| && NulFree(s) && IsSplit(parts, s[i..], signedChar)
    ensures Walk(s, i, signedChar, true) == |s|
    decreases |parts|
  {
    if parts == [] {
      assert |s[i..]| == 0;
    } else {
      var c, more := parts[0], parts[1..];
      Utf8CharLength(c, signedChar);
      LegalIsUtf8Char(c, signedChar);
      hide IsCharFor, CharLength;
      var rest := s[i..];
      assert rest == c + Concat(more);
      assert rest[..|c|] == c && s[i] == c[0];
      assert forall k :: 0 <= k < |c| ==> rest[k] == c[k];
      assert s[i + |c|..] == rest[|c|..] == Concat(more);
      SplitIsWalked(s, i + |c|, more, signedChar);
    }
  }

  /** Tested where it reads, the walk accepts exactly the strings that split into characters of its kind. */
  lemma RebasedWalkAccepts(s: seq<byte>, signedChar: bool)
    requires NulFree(s)
    ensures Walk(s, 0, signedChar, true) == |s| <==> exists parts :: IsSplit(parts, s, signedChar)
  {
    assert s[0..] == s;
    if Walk(s, 0, signedChar, true) == |s| {
      var parts := RebasedWalkSplits(s, 0, signedChar);
    }
    if parts :| IsSplit(parts, s, signedChar) {
      SplitIsWalked(s, 0, parts, signedChar);
    }
  }

  /** With unsigned bytes these are the strings of RFC 3629. */
  lemma RebasedWalkIsRfc3629(s: seq<byte>)
    requires NulFree(s)
    ensures Walk(s, 0, false, true) == |s| <==> IsUtf8(s)
  {
    RebasedWalkAccepts(s, false);
    assert forall parts :: IsUtf8Split(parts, s) <==> IsSplit(parts, s, false);
  }

  lemma SplitOfNothing(parts: seq<seq<byte>>, s: seq<byte>, signedChar: bool)
    requires IsSplit(parts, s, signedChar)
    ensures s == [] <==> parts == []
  {
    if parts != [] {
      Utf8CharLength(parts[0], signedChar);
      assert |s| >= |parts[0]| >= 1;
    }
  }

  /** A string splits into characters in one way only. */
  lemma {:induction false} SplitIsUnique(parts: seq<seq<byte>>, parts': seq<seq<byte>>, s: seq<byte>, signedChar: bool)
    requires IsSplit(parts, s, signedChar) && IsSplit(parts', s, signedChar)
    ensures parts == parts'
    decreases |parts|
  {
    if parts == [] || parts' == [] {
      SplitOfNothing(parts, s, signedChar);
      SplitOfNothing(parts', s, signedChar);
    } else {
      var c, c' := parts[0], parts'[0];
      Utf8CharLength(c, signedChar);
      Utf8CharLength(c', signedChar);
      hide IsCharFor, CharLength;
      assert s[0] == c[0] == c'[0];
      assert s[..|c|] == c == c' && s[|c|..] == Concat(parts[1..]) == Concat(parts'[1..]);
      SplitIsUnique(parts[1..], parts'[1..], s[|c|..], signedChar);
      assert [c] + parts[1..] == parts && [c'] + parts'[1..] == parts';
    }
  }

  /** Where char is signed, a string that is accepted is UTF-8 iff it splits without strays. */
  lemma SignedWalkIsRightIff(s: seq<byte>, parts: seq<seq<byte>>)
    requires NulFree(s) && IsSplit(parts, s, true)
    ensures Walk(s, 0, true, true) == |s|
    ensures IsUtf8(s) <==> forall i :: 0 <= i < |parts| ==> !IsStray(parts[i])
  {
    RebasedWalkAccepts(s, true);
    if IsUtf8(s) {
      var parts' :| IsUtf8Split(parts', s);
      SplitIsUnique(parts, parts', s, true);
      forall i | 0 <= i < |parts| ensures !IsStray(parts[i]) {
        assert IsCharFor(parts'[i], false);
        if IsStray(parts[i]) {
          StraysAreNoUtf8(parts[i]);
        }
      }
    } else {
      assert !IsUtf8Split(parts, s);
    }
  }

  /** A tail byte alone, and the overlong NUL, pass where char is signed and are refused where it is not. */
  lemma SignednessParts(rebased: bool)
    ensures Walk([0x80], 0, true, rebased) == 1 && Walk([0x80], 0, false, rebased) == NOT_UTF8
    ensures Walk([0xC0, 0x80], 0, true, rebased) == 2 && Walk([0xC0, 0x80], 0, false, rebased) == NOT_UTF8
  {
  }

  // ---------- the walk as written ----------

  /** Lengths of the characters from index i on, by the table; TooLong when the last does not fit. */
  datatype Lengths = Fits(longest: nat) | TooLong

  function LongestFrom(s: seq<byte>, i: nat): (r: Lengths)
    requires i <= |s|
    ensures r.Fits? && i < |s| ==> i + CharLength(s[i]) <= |s| && r.longest >= CharLength(s[i])
    decreases |s| - i
  {
    if i == |s| then Fits(0)
    else
      var n := CharLength(s[i]);
      if i + n > |s| then TooLong
      else
        match LongestFrom(s, i + n)
        case TooLong => TooLong
        case Fits(m) => Fits(if m > n then m else n)
  }

  lemma {:induction false} LongestFits(s: seq<byte>, i: nat)
    requires i <= |s| && LongestFrom(s, i).Fits?
    ensures i + LongestFrom(s, i).longest <= |s|
    decreases |s| - i
  {
    if i < |s| { LongestFits(s, i + CharLength(s[i])); }
  }

  lemma {:induction false} WalkFromStart(s: seq<byte>, i: nat, signedChar: bool)
    requires i < |s| && NulFree(s)
    ensures Walk(s, i, signedChar, false) == |s|
       <==> LongestFrom(s, i).Fits? && LongestFrom(s, i).longest <= |s|
            && IsLegalUtf8(s, LongestFrom(s, i).longest, signedChar)
    decreases |s| - i
  {
    var n := CharLength(s[i]);
    if LongestFrom(s, i).Fits? { LongestFits(s, i); }
    if i + n < |s| { WalkFromStart(s, i + n, signedChar); }
  }

  /** As written, a string is accepted iff its characters fit by the table and its first bytes, as many as
      its longest character has, pass the legality test. */
  lemma WalkAsWritten(s: seq<byte>, signedChar: bool)
    requires NulFree(s) && s != []
    ensures Walk(s, 0, signedChar, false) == |s|
       <==> LongestFrom(s, 0).Fits? && LongestFrom(s, 0).longest <= |s|
            && IsLegalUtf8(s, LongestFrom(s, 0).longest, signedChar)
  {
    WalkFromStart(s, 0, signedChar);
  }

  lemma SplitHead(s: seq<byte>, parts: seq<seq<byte>>, signedChar: bool)
    requires parts != [] && IsSplit(parts, s, signedChar)
    ensures var c := parts[0];
      && |c| <= 4 && s != [] && |c| == CharLength(s[0]) && c <= s
      && IsSplit(parts[1..], s[|c|..], signedChar)
  {
    var c := parts[0];
    Utf8CharLength(c, signedChar);
    assert |c| <= 4;
    hide IsCharFor, CharLength;
    assert s == c + Concat(parts[1..]);
    assert s[0] == c[0];
  }

  lemma {:induction false} SplitFits(s: seq<byte>, i: nat, parts: seq<seq<byte>>)
    requires i <= |s| && IsSplit(parts, s[i..], false)
    ensures LongestFrom(s, i).Fits? && LongestFrom(s, i).longest <= 4
    decreases |parts|
  {
    if parts == [] {
      assert |s[i..]| == 0;
    } else {
      hide IsSplit, CharLength;
      SplitHead(s[i..], parts, false);
      assert s[i..][|parts[0]|..] == s[i + |parts[0]|..];
      SplitFits(s, i + |parts[0]|, parts[1..]);
    }
  }

  /** So of the strings of RFC 3629 it accepts those whose first character is as long as any, whatever the
      signedness of char. */
  lemma WellFormedAsWritten(s: seq<byte>, signedChar: bool)
    requires NulFree(s) && s != [] && IsUtf8(s)
    ensures Walk(s, 0, signedChar, false) == |s| <==> LongestFrom(s, 0) == Fits(CharLength(s[0]))
  {
    var parts :| IsUtf8Split(parts, s);
    assert s[0..] == s;
    SplitFits(s, 0, parts);
    WalkAsWritten(s, signedChar);
    LongestFits(s, 0);
    var c, more := parts[0], parts[1..];
    Utf8CharLength(c, false);
    LegalIsUtf8Char(c, signedChar);
    assert s == c + Concat(more);
    assert forall k :: 0 <= k < |c| ==> s[k] == c[k];
    if LongestFrom(s, 0).longest > |c| {
      assert more != [];
      Utf8CharLength(more[0], false);
      assert s[|c|] == Concat(more)[0] == more[0][0];
      assert IsUtf8Char(more[0]) && !IsTail(more[0][0]);
    }
  }

  /** On ASCII the two walks agree, whatever the signedness of char. */
  lemma AsciiIsAccepted(s: seq<byte>, signedChar: bool, rebased: bool)
    requires NulFree(s) && forall k :: 0 <= k < |s| ==> s[k] < 0x80
    ensures Walk(s, 0, signedChar, rebased) == |s|
  {
    AsciiWalk(s, 0, signedChar, rebased);
  }

  lemma {:induction false} AsciiWalk(s: seq<byte>, i: nat, signedChar: bool, rebased: bool)
    requires i <= |s| && NulFree(s) && forall k :: 0 <= k < |s| ==> s[k] < 0x80
    ensures Walk(s, i, signedChar, rebased) == |s|
    decreases |s| - i
  {
    if i < |s| { AsciiWalk(s, i + 1, signedChar, rebased); }
  }

  /** Where the walks part: "a" then e-acute is refused, e-acute then a stray tail byte is accepted. */
  lemma WalksPart()
    ensures Walk([0x61, 0xC3, 0xA9], 0, false, false) == NOT_UTF8
         && Walk([0x61, 0xC3, 0xA9], 0, false, true) == 3
    ensures Walk([0xC3, 0xA9, 0x80], 0, false, false) == 3
         && Walk([0xC3, 0xA9, 0x80], 0, false, true) == NOT_UTF8
  {
  }
}
