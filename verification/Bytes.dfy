/** Bytes, and NUL-terminated text seen as the bytes before its terminator. */
module Bytes {

  type byte = b: int | 0 <= b < 256

  /** The byte a C reader sees at index i: the terminator once the text has ended. */
  function At(t: seq<byte>, i: nat): byte {
    if i < |t| then t[i] else 0
  }

  /** strncmp(t, p, |p|) == 0, for a p without NUL. */
  predicate StartsWith(t: seq<byte>, p: seq<byte>) {
    |p| <= |t| && t[..|p|] == p
  }

  predicate IsDigit(b: byte) {
    48 <= b <= 57
  }

  predicate NulFree(s: seq<byte>) {
    forall i :: 0 <= i < |s| ==> s[i] != 0
  }

  function Concat(parts: seq<seq<byte>>): seq<byte> {
    if parts == [] then [] else parts[0] + Concat(parts[1..])
  }

  lemma {:induction false} ConcatLast(parts: seq<seq<byte>>, last: seq<byte>)
    ensures Concat(parts + [last]) == Concat(parts) + last
  {
    if parts == [] {
      assert parts + [last] == [last] && [last][1..] == [];
    } else {
      assert (parts + [last])[1..] == parts[1..] + [last];
      ConcatLast(parts[1..], last);
    }
  }

  lemma Assoc<T>(a: seq<T>, b: seq<T>, c: seq<T>)
    ensures a + b + c == a + (b + c)
  {
  }

  lemma SubSlice<T>(t: seq<T>, lo: nat, hi: nat, i: nat, j: nat)
    requires lo <= hi <= |t| && i <= j <= hi - lo
    ensures t[lo..hi][i..j] == t[lo + i..lo + j]
  {
    var s := t[lo..hi];
    assert forall k :: 0 <= k < j - i ==> s[i..j][k] == s[i + k] == t[lo + i..lo + j][k];
  }
}
