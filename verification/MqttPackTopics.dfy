/** The packers of SUBSCRIBE and UNSUBSCRIBE. */
module MqttPackTopics {
  import opened Bytes
  import opened Memory
  import opened MqttLength
  import opened MqttPacket
  import opened MqttDispatch
  import opened Utf8Check
  import opened MqttBuffer
  import opened MqttPack

  /** What the first loop finds: the code for the first topic that will not do, or none. */
  function TopicsCode(topics: seq<CString?>, signedChar: bool): int {
    if topics == [] then NO_ERROR
    else if topics[0] == null then INVALID_PARAMETER
    else if Walk(topics[0].text, 0, signedChar, false) != |topics[0].text| then NOT_UTF8
    else TopicsCode(topics[1..], signedChar)
  }

  /** The topics two length bytes can count. */
  predicate Countable(topics: seq<CString?>) {
    forall i :: 0 <= i < |topics| ==> topics[i] != null ==> |topics[i].text| < 0x1_0000
  }

  /** Topics can be read, and packing frees none of them: they lie in what is live besides the buffer. */
  ghost predicate Kept(topics: seq<CString?>, base: set<object>) {
    forall i :: 0 <= i < |topics| ==> topics[i] != null ==> topics[i] in base
  }

  function Texts(topics: seq<CString?>): (ts: seq<seq<byte>>)
    requires Countable(topics)
    ensures |ts| == |topics| && forall i :: 0 <= i < |ts| ==> |ts[i]| < 0x1_0000
  {
    seq(|topics|, i requires 0 <= i < |topics| => if topics[i] == null then [] else topics[i].text)
  }

  function LengthSum(ts: seq<seq<byte>>): nat {
    if ts == [] then 0 else LengthSum(ts[..|ts| - 1]) + |ts[|ts| - 1]|
  }

  lemma {:induction false} TopicsAppend(ts: seq<seq<byte>>, t: seq<byte>, after: seq<byte>)
    requires |t| < 0x1_0000 && forall i :: 0 <= i < |ts| ==> |ts[i]| < 0x1_0000
    ensures WriteTopics(ts + [t], after) == WriteTopics(ts, after) + (WriteString(t) + after)
  {
    hide WriteString;
    if ts == [] {
      assert ts + [t] == [t] && [t][1..] == [];
      assert WriteString(t) + after + [] == [] + (WriteString(t) + after);
    } else {
      assert (ts + [t])[1..] == ts[1..] + [t];
      TopicsAppend(ts[1..], t, after);
      Assoc(WriteString(ts[0]) + after, WriteTopics(ts[1..], after), WriteString(t) + after);
    }
  }

  lemma {:induction false} TopicsSize(ts: seq<seq<byte>>, after: seq<byte>)
    requires forall i :: 0 <= i < |ts| ==> |ts[i]| < 0x1_0000
    ensures |WriteTopics(ts, after)| == LengthSum(ts) + |ts| * (2 + |after|)
    decreases |ts|
  {
    hide WriteString;
    if ts != [] {
      var n := |ts| - 1;
      assert ts == ts[..n] + [ts[n]];
      hide WriteTopics;
      TopicsSize(ts[..n], after);
      TopicsAppend(ts[..n], ts[n], after);
      OneMoreSize(n, 2 + |after|);
      StringSize(ts[n]);
    }
  }

  lemma OneMoreSize(n: nat, size: nat)
    ensures (n + 1) * size == n * size + size
  {
  }

  lemma StringSize(s: seq<byte>)
    requires |s| < 0x1_0000
    ensures |WriteString(s)| == 2 + |s|
  {
  }

  /** The first loop of both packers. */
  method CheckTopics(topics: seq<CString?>, signedChar: bool, ghost base: set<object>) returns (code: int, total: nat)
    requires Countable(topics) && Kept(topics, base)
    ensures code == TopicsCode(topics, signedChar)
    ensures code == NO_ERROR ==> total == LengthSum(Texts(topics))
    ensures code == NO_ERROR ==> forall i :: 0 <= i < |topics| ==> topics[i] != null
  {
    hide Walk;
    total := 0;
    var i := 0;
    assert topics[0..] == topics;
    while i < |topics|
      invariant 0 <= i <= |topics| && TopicsCode(topics[i..], signedChar) == TopicsCode(topics, signedChar)
      invariant total == LengthSum(Texts(topics)[..i]) && forall j :: 0 <= j < i ==> topics[j] != null
    {
      assert topics[i..][1..] == topics[i + 1..];
      assert Texts(topics)[..i + 1][..i] == Texts(topics)[..i];
      var topic := topics[i];
      if topic == null {
        return INVALID_PARAMETER, total;
      }
      total := total + |topic.text|;
      var walked := CheckUtf8(topic.text, signedChar);
      if walked != |topic.text| {
        return NOT_UTF8, total;
      }
      i := i + 1;
    }
    assert Texts(topics)[..i] == Texts(topics);
    return NO_ERROR, total;
  }

  /** The second loop: the id, then each topic, and in a SUBSCRIBE a byte behind each. */
  method FillTopics(heap: Heap, buf: Buffer, head: Extent, ext: Extent, id: Id, topics: seq<CString?>, after: seq<byte>,
                    ghost b1: seq<byte>, ghost base: set<object>, ghost flat: seq<byte>, ghost entries: nat,
                    ghost left: nat)
    requires Underway(heap, buf, base, flat, entries, left) && Drafts(buf, [head, ext], [b1, []])
    requires Countable(topics) && Kept(topics, base) && forall i :: 0 <= i < |topics| ==> topics[i] != null
    requires ext.room == 2 + |WriteTopics(Texts(topics), after)|
    modifies ext.home
    ensures Underway(heap, buf, base, flat, entries, left) && buf.Footprint() == old(buf.Footprint())
    ensures Drafts(buf, [head, ext], [b1, Write16(id) + WriteTopics(Texts(topics), after)])
  {
    hide Underway, Drafts, Write16, WriteTopics, WriteString;
    ghost var ts, es := Texts(topics), [head, ext];
    assert [] + Write16(id) == Write16(id) && [b1, []][1 := [] + Write16(id)] == [b1, Write16(id)];
    Put(heap, buf, ext, 0, Write16(id), 1, es, [b1, []], base, flat, entries, left);
    var cursor, i := 2, 0;
    NoTopics(after);
    assert Write16(id) + [] == Write16(id) && ts[..0] == [];
    while i < |topics|
      invariant 0 <= i <= |topics| && Underway(heap, buf, base, flat, entries, left)
      invariant cursor == 2 + |WriteTopics(ts[..i], after)|
      invariant Drafts(buf, es, [b1, Write16(id) + WriteTopics(ts[..i], after)])
      invariant buf.Footprint() == old(buf.Footprint())
    {
      ghost var written := Write16(id) + WriteTopics(ts[..i], after);
      var text := topics[i].text;
      assert ts[..i + 1] == ts[..i] + [text];
      TopicsAppend(ts[..i], text, after);
      TopicsFit(ts, i + 1, after);
      var s := WriteString(text) + after;
      Assoc(Write16(id), WriteTopics(ts[..i], after), s);
      assert [b1, written][1 := written + s] == [b1, written + s];
      Put(heap, buf, ext, cursor, s, 1, es, [b1, written], base, flat, entries, left);
      cursor, i := cursor + |s|, i + 1;
    }
    assert ts[..i] == ts;
  }

  lemma NoTopics(after: seq<byte>)
    ensures WriteTopics([], after) == []
  {
  }

  lemma {:induction false} TopicsFit(ts: seq<seq<byte>>, k: nat, after: seq<byte>)
    requires k <= |ts| && forall i :: 0 <= i < |ts| ==> |ts[i]| < 0x1_0000
    ensures |WriteTopics(ts[..k], after)| <= |WriteTopics(ts, after)|
    decreases |ts| - k
  {
    if k < |ts| {
      assert ts[..k + 1] == ts[..k] + [ts[k]];
      TopicsAppend(ts[..k], ts[k], after);
      TopicsFit(ts, k + 1, after);
    } else {
      assert ts[..k] == ts;
    }
    hide WriteTopics;
  }

  /** What both packers answer. */
  function TopicsPacketCode(id: Id, topics: seq<CString?>, after: seq<byte>, signedChar: bool): int
    requires Countable(topics)
  {
    if id == 0 then INVALID_PARAMETER
    else if TopicsCode(topics, signedChar) != NO_ERROR then TopicsCode(topics, signedChar)
    else if 2 + |WriteTopics(Texts(topics), after)| >= MAX4 then PKT_TOO_LARGE
    else NO_ERROR
  }

  /** Mqtt_PackSubscribePkt */
  method PackSubscribe(heap: Heap, buf: Buffer, id: Id, qos: nat, topics: seq<CString?>, signedChar: bool,
                       ghost base: set<object>, ghost flat: seq<byte>, ghost entries: nat, ghost left: nat)
    returns (r: int)
    requires Underway(heap, buf, base, flat, entries, left) && entries < MAX_ENTRIES && Countable(topics)
    requires Kept(topics, base)
    requires |WriteTopics(Texts(topics), [qos % 256])| + 7 <= left && left + HEADER + ALIGNMENT <= TWO32
    modifies heap`live, buf.Footprint()
    ensures forall o :: o in buf.Footprint() ==> o in old(buf.Footprint()) || fresh(o)
    ensures r == TopicsPacketCode(id, topics, [qos % 256], signedChar)
    ensures r != NO_ERROR ==> Underway(heap, buf, base, flat, entries + 2, left)
    ensures r == NO_ERROR ==>
      Underway(heap, buf, base, flat + Encode(SubscribePacket(id, qos % 256, Texts(topics))), entries + 2,
               left - |WriteTopics(Texts(topics), [qos % 256])| - 7)
  {
    hide Underway, Encode, TopicsCode, WriteTopics, Write16, Buffer.Footprint, SubscribePacket;
    SomeEntries(heap, buf, base, flat, entries, left);
    if id == 0 {
      return INVALID_PARAMETER;
    }
    PayloadsAreAllocated(buf.listed);
    var code, total := CheckTopics(topics, signedChar, base);
    SomeEntries(heap, buf, base, flat, entries, left);
    if code != NO_ERROR {
      return code;
    }
    TopicsSize(Texts(topics), [qos % 256]);
    var remaining := 2 + 2 * |topics| + total + |topics| * 1;
    r := PackTopics(heap, buf, SUBSCRIBE * 16, id, topics, [qos % 256], remaining, base, flat, entries, left);
    SubscribeBytes(id, qos % 256, topics);
  }

  /** Mqtt_PackUnsubscribePkt */
  method PackUnsubscribe(heap: Heap, buf: Buffer, id: Id, topics: seq<CString?>, signedChar: bool,
                         ghost base: set<object>, ghost flat: seq<byte>, ghost entries: nat, ghost left: nat)
    returns (r: int)
    requires Underway(heap, buf, base, flat, entries, left) && entries < MAX_ENTRIES && Countable(topics)
    requires Kept(topics, base)
    requires |WriteTopics(Texts(topics), [])| + 7 <= left && left + HEADER + ALIGNMENT <= TWO32
    modifies heap`live, buf.Footprint()
    ensures forall o :: o in buf.Footprint() ==> o in old(buf.Footprint()) || fresh(o)
    ensures r == TopicsPacketCode(id, topics, [], signedChar)
    ensures r != NO_ERROR ==> Underway(heap, buf, base, flat, entries + 2, left)
    ensures r == NO_ERROR ==>
      Underway(heap, buf, base, flat + Encode(UnsubscribePacket(id, Texts(topics))), entries + 2,
               left - |WriteTopics(Texts(topics), [])| - 7)
  {
    hide Underway, Encode, TopicsCode, WriteTopics, Write16, Buffer.Footprint, UnsubscribePacket;
    SomeEntries(heap, buf, base, flat, entries, left);
    if id == 0 {
      return INVALID_PARAMETER;
    }
    PayloadsAreAllocated(buf.listed);
    var code, total := CheckTopics(topics, signedChar, base);
    SomeEntries(heap, buf, base, flat, entries, left);
    if code != NO_ERROR {
      return code;
    }
    TopicsSize(Texts(topics), []);
    var remaining := 2 + 2 * |topics| + total;
    r := PackTopics(heap, buf, UNSUBSCRIBE * 16, id, topics, [], remaining, base, flat, entries, left);
    UnsubscribeBytes(id, topics);
  }

  lemma SomeEntries(heap: Heap, buf: Buffer, base: set<object>, flat: seq<byte>, entries: nat, left: nat)
    requires Underway(heap, buf, base, flat, entries, left)
    ensures Underway(heap, buf, base, flat, entries + 2, left)
  {
  }

  lemma SubscribeBytes(id: Id, qos: byte, topics: seq<CString?>)
    requires Countable(topics)
    ensures SubscribePacket(id, qos, Texts(topics))
         == Packet(SUBSCRIBE * 16, Write16(id) + WriteTopics(Texts(topics), [qos]))
  {
  }

  lemma UnsubscribeBytes(id: Id, topics: seq<CString?>)
    requires Countable(topics)
    ensures UnsubscribePacket(id, Texts(topics))
         == Packet(UNSUBSCRIBE * 16, Write16(id) + WriteTopics(Texts(topics), []))
  {
  }

  /** An extent for a fixed header, and one of n bytes. */
  method NewPair(heap: Heap, buf: Buffer, n: nat,
                 ghost base: set<object>, ghost flat: seq<byte>, ghost entries: nat, ghost left: nat)
    returns (head: Extent, ext: Extent)
    requires Underway(heap, buf, base, flat, entries, left) && entries < MAX_ENTRIES && n + HEADER + ALIGNMENT <= TWO32
    modifies heap`live, buf.Footprint()
    ensures Underway(heap, buf, base, flat, entries + 2, left)
    ensures forall o :: o in buf.Footprint() ==> o in old(buf.Footprint()) || fresh(o)
    ensures Drafts(buf, [head, ext], [[], []]) && head.room == 5 && ext.room == ext.len == n && head != ext
  {
    hide Underway, Drafts, Buffer.Footprint;
    ghost var none: seq<seq<byte>>, both: seq<seq<byte>> := [[]], [[], []];
    NoDrafts(buf);
    head := NewDraft(heap, buf, 5, [], [], base, flat, entries, left);
    assert [] + [head] == [head] && [] + none == none && head in [head];
    ext := NewDraft(heap, buf, n, [head], none, base, flat, entries + 1, left);
    assert [head] + [ext] == [head, ext] && none + none == both;
  }

  /** The extents of both packets: a fixed header, and the id with the topics. In a SUBSCRIBE the second is
      allocated before the length is written, in an UNSUBSCRIBE after it; the list sees no difference. */
  method PackTopics(heap: Heap, buf: Buffer, header: byte, id: Id, topics: seq<CString?>, after: seq<byte>,
                    remaining: nat,
                    ghost base: set<object>, ghost flat: seq<byte>, ghost entries: nat, ghost left: nat)
    returns (r: int)
    requires Underway(heap, buf, base, flat, entries, left) && entries < MAX_ENTRIES && Countable(topics)
    requires Kept(topics, base)
    requires forall i :: 0 <= i < |topics| ==> topics[i] != null
    requires remaining == 2 + |WriteTopics(Texts(topics), after)| && remaining + 5 <= left
      && left + HEADER + ALIGNMENT <= TWO32
    modifies heap`live, buf.Footprint()
    ensures forall o :: o in buf.Footprint() ==> o in old(buf.Footprint()) || fresh(o)
    ensures r == if remaining >= MAX4 then PKT_TOO_LARGE else NO_ERROR
    ensures r != NO_ERROR ==> Underway(heap, buf, base, flat, entries + 2, left)
    ensures r == NO_ERROR ==>
      Underway(heap, buf, base, flat + Encode(Packet(header, Write16(id) + WriteTopics(Texts(topics), after))),
               entries + 2, left - remaining - 5)
  {
    hide Underway, Drafts, Encode, WriteTopics, Write16, Dump, Buffer.Footprint;
    ghost var both: seq<seq<byte>>, more := [[], []], entries + 2;
    var head, ext := NewPair(heap, buf, remaining, base, flat, entries, left);
    ghost var es := [head, ext];
    DraftIsOurs(heap, buf, es, both, 0, base, flat, more, left);
    ghost var b1 := [header] + Dump(remaining);
    assert both[0 := b1] == [b1, []];
    var ret := HeadOf(heap, buf, head, header, remaining, es, both, base, flat, more, left);
    if ret < 0 {
      return PKT_TOO_LARGE;
    }
    DraftIsOurs(heap, buf, es, [b1, []], 1, base, flat, more, left);
    FillTopics(heap, buf, head, ext, id, topics, after, b1, base, flat, more, left);
    ghost var rest := Write16(id) + WriteTopics(Texts(topics), after);
    AppendTwo(heap, buf, head, ext, b1, rest, base, flat, more, left);
    EncodeOnly(header, rest);
    LessLeft(heap, buf, base, flat + (b1 + rest), more, left - |b1| - |rest|, left - remaining - 5);
    return NO_ERROR;
  }

  lemma EncodeOnly(header: byte, body: seq<byte>)
    ensures Encode(Packet(header, body)) == [header] + Dump(|body|) + body
  {
    hide Dump;
  }
}
