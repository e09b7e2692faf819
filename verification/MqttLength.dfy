/** The Remaining Length field: how the MQTT SDK writes it, and how far it reads it back. */
module MqttLength {
  import opened Bytes

  const MAX3: nat := 128 * 128 * 128
  const MAX4: nat := 128 * 128 * 128 * 128

  const INCOMPLETE: int := -1
  const OUT_OF_RANGE: int := -2

  /** The digits of a length to base 128, least first, each but the last marked with the top bit
      (section 2.2.3 of MQTT 3.1.1). */
  function Dump(len: nat): (s: seq<byte>)
    ensures s != []
  {
    if len < 128 then [len] else [128 + len % 128] + Dump(len / 128)
  }

  /** The loop of Mqtt_ReadLength from byte i on; limit is the multiplier at which it gives up.
      The answer is the number of bytes read, or a negative code, and the length so far. */
  function ReadFrom(s: seq<byte>, i: nat, multiplier: nat, len: nat, limit: nat): (int, nat)
    requires i <= |s|
    decreases |s| - i
  {
    if i == |s| then (INCOMPLETE, len)
    else
      var len' := len + s[i] % 128 * multiplier;
      if s[i] < 128 then (i + 1, len')
      else if multiplier * 128 >= limit then (OUT_OF_RANGE, len')
      else ReadFrom(s, i + 1, multiplier * 128, len', limit)
  }

  /** Mqtt_ReadLength as written: three bytes at most. */
  function Read(s: seq<byte>): (int, nat) {
    ReadFrom(s, 0, 1, 0, MAX3)
  }

  /** The reading section 2.2.3 of MQTT 3.1.1 asks for: four bytes at most. */
  function ReadFour(s: seq<byte>): (int, nat) {
    ReadFrom(s, 0, 1, 0, MAX4)
  }

  /** Mqtt_ReadLength on size bytes of stream from index at on. */
  method ReadLength(stream: array<byte>, at: nat, size: nat) returns (ret: int, len: nat)
    requires at + size <= stream.Length
    ensures (ret, len) == Read(stream[at..at + size])
    ensures ret == INCOMPLETE || ret == OUT_OF_RANGE || 1 <= ret <= size
  {
    ghost var s := stream[at..at + size];
    var i: nat, multiplier: nat := 0, 1;
    len := 0;
    while i < size
      invariant 0 <= i <= size && ReadFrom(s, i, multiplier, len, MAX3) == Read(s)
    {
      var b := stream[at + i];
      len := len + b % 128 * multiplier;
      if b < 128 {
        return i + 1, len;
      }
      multiplier := multiplier * 128;
      if multiplier >= MAX3 {
        return OUT_OF_RANGE, len;
      }
      i := i + 1;
    }
    return INCOMPLETE, len;
  }

  /** The bytes Mqtt_DumpLength writes: four when it fails. */
  function Written(len: nat): nat {
    if len < MAX4 then |Dump(len)| else 4
  }

  /** Mqtt_DumpLength to buf from index at on: at most four bytes, and -1 when they do not suffice. */
  method DumpLength(len: nat, buf: array<byte>, at: nat) returns (ret: int)
    requires at + Written(len) <= buf.Length
    modifies buf
    ensures len < MAX4 ==> 1 <= ret <= 4 && ret == |Dump(len)| && buf[at..at + ret] == Dump(len)
    ensures len >= MAX4 ==> ret == -1
    ensures buf[..at] == old(buf[..at]) && buf[at + Written(len)..] == old(buf[at + Written(len)..])
  {
    hide Dump, Remains, Written;
    ghost var end := at + Written(len);
    var rest, i := len, 1;
    assert buf[at..at + 0] + Dump(len) == Dump(len);
    Whole(len);
    while i <= 4
      invariant 1 <= i <= 5 && Remains(len, rest, i - 1) && (i > 1 ==> rest > 0)
      invariant buf[..at] == old(buf[..at]) && at + i - 1 <= end && buf[end..] == old(buf[end..])
      invariant Dump(len) == buf[at..at + i - 1] + Dump(rest)
    {
      var digit := rest % 128;
      ghost var done := buf[at..at + i - 1];
      OneMore(len, done, rest, i);
      buf[at + i - 1] := digit;
      if rest >= 128 {
        buf[at + i - 1] := 128 + digit;
        assert buf[at..at + i] == done + [128 + digit];
        rest := rest / 128;
      } else {
        assert buf[at..at + i] == done + [digit];
        return i;
      }
      i := i + 1;
    }
    NeverEnds(len, rest);
    return -1;
  }

  /** How many bytes a length takes. */
  function Width(len: nat): nat {
    if len < 128 then 1 else if len < 128 * 128 then 2 else if len < MAX3 then 3 else 4
  }

  lemma DumpHasWidth(len: nat)
    requires len < MAX4
    ensures |Dump(len)| == Width(len)
  {
  }

  lemma AtMostFour(len: nat)
    ensures 1 <= Written(len) <= 4
  {
    if len < MAX4 {
      DumpHasWidth(len);
    }
    hide Dump;
  }

  /** rest is len without its first k digits. */
  ghost predicate Remains(len: nat, rest: nat, k: nat) {
    rest * Power(k) <= len < (rest + 1) * Power(k)
  }

  lemma Whole(len: nat)
    ensures Remains(len, len, 0)
  {
  }

  lemma NeverEnds(len: nat, rest: nat)
    requires Remains(len, rest, 4) && rest > 0
    ensures len >= MAX4 && Written(len) == 4
  {
    PowerStep(rest, 0);
    Monotone(1, rest, MAX4);
    hide Dump;
  }

  /** One round, when done has been written and rest is still to be dumped. */
  lemma OneMore(len: nat, done: seq<byte>, rest: nat, i: nat)
    requires 1 <= i <= 4 && |done| == i - 1 && Dump(len) == done + Dump(rest) && Remains(len, rest, i - 1)
    ensures i <= Written(len)
    ensures rest < 128 ==> len < MAX4 && Written(len) == i && Dump(len) == done + [rest]
    ensures rest >= 128 ==> Dump(len) == done + [128 + rest % 128] + Dump(rest / 128) && Remains(len, rest / 128, i)
  {
    DumpStep(rest);
    PowerStep(rest, i - 1);
    if rest < 128 {
      Monotone(rest + 1, 128, Power(i - 1));
    }
    hide Dump;
  }

  lemma DumpStep(len: nat)
    ensures Dump(len) == if len < 128 then [len] else [128 + len % 128] + Dump(len / 128)
  {
  }

  function Power(k: nat): nat {
    if k == 0 then 1 else 128 * Power(k - 1)
  }

  lemma PowerStep(rest: nat, k: nat)
    ensures rest / 128 * Power(k + 1) <= rest * Power(k)
    ensures (rest + 1) * Power(k) <= (rest / 128 + 1) * Power(k + 1)
    ensures Power(0) == 1 && Power(1) == 128 && Power(2) == 128 * 128 && Power(3) == MAX3 && Power(4) == MAX4
  {
    var q, r, p := rest / 128, rest % 128, Power(k);
    assert Power(k + 1) == 128 * p;
    Times(q, p);
    Times(q + 1, p);
    assert (q * 128) * p <= rest * p by { Monotone(q * 128, rest, p); }
    assert (rest + 1) * p <= ((q + 1) * 128) * p by { Monotone(rest + 1, (q + 1) * 128, p); }
    assert Power(1) == 128 * Power(0) && Power(2) == 128 * Power(1);
    assert Power(3) == 128 * Power(2) && Power(4) == 128 * Power(3);
  }

  lemma Times(q: nat, p: nat)
    ensures q * (128 * p) == (q * 128) * p
  {
  }

  lemma Monotone(a: nat, b: nat, p: nat)
    requires a <= b
    ensures a * p <= b * p
  {
  }

  // ---------- reading back ----------

  lemma {:induction false} ReadDump(len: nat, i: nat, front: seq<byte>, rest: seq<byte>, multiplier: nat, sum: nat,
                                    limit: nat)
    requires i == |front| && multiplier > 0
    requires len * multiplier < limit
    ensures var s := front + Dump(len) + rest;
            ReadFrom(s, i, multiplier, sum, limit) == (i + |Dump(len)|, sum + len * multiplier)
    decreases len
  {
    var s := front + Dump(len) + rest;
    assert s[i] == Dump(len)[0];
    if len >= 128 {
      var front' := front + [128 + len % 128];
      assert s == front' + Dump(len / 128) + rest;
      Digit(len, multiplier);
      ReadDump(len / 128, i + 1, front', rest, multiplier * 128, sum + len % 128 * multiplier, limit);
    }
  }

  lemma Digit(len: nat, m: nat)
    ensures len * m == len % 128 * m + len / 128 * (m * 128)
    ensures len >= 128 ==> m * 128 <= len * m
  {
    assert len == len % 128 + len / 128 * 128;
    assert (len / 128 * 128) * m == len / 128 * (m * 128);
  }

  /** A length below 128^3 reads back, whatever follows it. */
  lemma ReadsBack(len: nat, rest: seq<byte>)
    requires len < MAX3
    ensures Read(Dump(len) + rest) == (|Dump(len)|, len)
  {
    ReadDump(len, 0, [], rest, 1, 0, MAX3);
    assert [] + Dump(len) + rest == Dump(len) + rest;
  }

  /** And with a four-byte reading every length that is written would. */
  lemma FourBytesReadBack(len: nat, rest: seq<byte>)
    requires len < MAX4
    ensures ReadFour(Dump(len) + rest) == (|Dump(len)|, len)
  {
    ReadDump(len, 0, [], rest, 1, 0, MAX4);
    assert [] + Dump(len) + rest == Dump(len) + rest;
  }

  /** Three marked bytes are out of range, whatever follows. */
  lemma ThreeMarkedBytes(s: seq<byte>)
    requires |s| >= 3 && s[0] >= 128 && s[1] >= 128 && s[2] >= 128
    ensures Read(s).0 == OUT_OF_RANGE
  {
    var len1: nat := s[0] % 128;
    var len2: nat := len1 + (s[1] as int) % 128 * 128;
    assert ReadFrom(s, 0, 1, 0, MAX3) == ReadFrom(s, 1, 128, len1, MAX3);
    assert ReadFrom(s, 1, 128, len1, MAX3) == ReadFrom(s, 2, 16384, len2, MAX3);
  }

  lemma LongDump(len: nat)
    requires MAX3 <= len < MAX4
    ensures |Dump(len)| == 4
    ensures Dump(len)[0] >= 128 && Dump(len)[1] >= 128 && Dump(len)[2] >= 128
  {
    var a, b := len / 128, len / 128 / 128;
    assert Dump(len) == [128 + len % 128] + Dump(a);
    assert Dump(a) == [128 + a % 128] + Dump(b);
    assert Dump(b) == [128 + b % 128] + Dump(b / 128);
    assert Dump(b / 128) == [b / 128];
  }

  /** Every length that can be written reads back, with its own number of bytes, iff it is below 128^3;
      a longer one is written in four bytes and read as out of range. */
  lemma ReadsBackIff(len: nat, rest: seq<byte>)
    requires len < MAX4
    ensures Read(Dump(len) + rest) == (|Dump(len)|, len) <==> len < MAX3
    ensures len >= MAX3 ==> |Dump(len)| == 4 && Read(Dump(len) + rest).0 == OUT_OF_RANGE
  {
    if len < MAX3 {
      ReadsBack(len, rest);
    } else {
      LongDump(len);
      ThreeMarkedBytes(Dump(len) + rest);
    }
    hide Read, Dump;
  }

  // ---------- reading streams ----------

  /** An answer other than incomplete does not change when more bytes arrive. */
  lemma {:induction false} ReadExtends(s: seq<byte>, more: seq<byte>, i: nat, multiplier: nat, len: nat, limit: nat)
    requires i <= |s| && ReadFrom(s, i, multiplier, len, limit).0 != INCOMPLETE
    ensures ReadFrom(s + more, i, multiplier, len, limit) == ReadFrom(s, i, multiplier, len, limit)
    decreases |s| - i
  {
    if s[i] >= 128 && multiplier * 128 < limit {
      ReadExtends(s, more, i + 1, multiplier * 128, len + s[i] % 128 * multiplier, limit);
    }
  }

  lemma {:induction false} ReadFromBounds(s: seq<byte>, i: nat, multiplier: nat, len: nat, limit: nat)
    requires i <= |s|
    ensures var n := ReadFrom(s, i, multiplier, len, limit).0;
            n == INCOMPLETE || n == OUT_OF_RANGE || i < n <= |s|
    decreases |s| - i
  {
    if i < |s| && s[i] >= 128 && multiplier * 128 < limit {
      ReadFromBounds(s, i + 1, multiplier * 128, len + s[i] % 128 * multiplier, limit);
    }
  }

  lemma ReadBounds(s: seq<byte>)
    ensures Read(s).0 == INCOMPLETE || Read(s).0 == OUT_OF_RANGE || 1 <= Read(s).0 <= |s|
  {
    ReadFromBounds(s, 0, 1, 0, MAX3);
  }

  /** A length that has not arrived whole reads as incomplete. */
  lemma PrefixIsIncomplete(len: nat, k: nat)
    requires len < MAX3 && k < |Dump(len)|
    ensures Read(Dump(len)[..k]).0 == INCOMPLETE
  {
    var s := Dump(len);
    ReadBounds(s[..k]);
    if Read(s[..k]).0 != INCOMPLETE {
      ReadExtends(s[..k], s[k..], 0, 1, 0, MAX3);
      assert s[..k] + s[k..] == s == s + [];
      ReadsBack(len, []);
    }
  }
}
