/** Packets byte by byte, as section 3 of MQTT 3.1.1 lays them out: what the packers write, read back by a reader
    of its own, and what Mqtt_Dispatch takes, against what a server writes. */
module MqttReader {
  import opened Bytes
  import opened MqttLength
  import opened Utf8Check
  import opened MqttPacket
  import opened MqttDispatch
  import opened Memory
  import opened MqttPack
  import opened MqttPackTopics
  import opened MqttPackConnect
  import opened MqttExchange
  import opened MqttFraming

  // ---------- strings behind their lengths ----------

  /** A string and the bytes that stand behind it. */
  datatype Entry = Entry(text: seq<byte>, behind: seq<byte>)

  datatype Entries = Entries(es: seq<Entry>) | Malformed

  /** Two bytes, the more significant first. */
  function Number(hi: int, lo: int): int {
    hi * 256 + lo
  }

  /** Strings behind two length bytes, each with so many bytes behind it, up to the end. */
  function ReadEntries(s: seq<byte>, behind: nat): (r: Entries)
    decreases |s|
  {
    if s == [] then Entries([])
    else if |s| < 2 then Malformed
    else
      var end := 2 + Number(s[0], s[1]);
      if |s| < end + behind then Malformed
      else
        match ReadEntries(s[end + behind..], behind)
        case Malformed => Malformed
        case Entries(es) => Entries([Entry(s[2..end], s[end..end + behind])] + es)
  }

  function WithBehind(ts: seq<seq<byte>>, behind: seq<byte>): seq<Entry> {
    seq(|ts|, i requires 0 <= i < |ts| => Entry(ts[i], behind))
  }

  lemma ReadOneEntry(t: seq<byte>, behind: seq<byte>, rest: seq<byte>, es: seq<Entry>)
    requires |t| < 0x1_0000 && ReadEntries(rest, |behind|) == Entries(es)
    ensures ReadEntries(WriteString(t) + behind + rest, |behind|) == Entries([Entry(t, behind)] + es)
  {
    var s := WriteString(t) + behind + rest;
    var end := 2 + |t|;
    assert Number(s[0], s[1]) == |t|;
    assert s[2..end] == t && s[end..end + |behind|] == behind && s[end + |behind|..] == rest;
  }

  /** Topics written one after another are read back, in order. */
  lemma {:induction false} EntriesReadBack(ts: seq<seq<byte>>, behind: seq<byte>)
    requires AllShort(ts)
    ensures ReadEntries(WriteTopics(ts, behind), |behind|) == Entries(WithBehind(ts, behind))
  {
    if ts == [] {
      assert WithBehind(ts, behind) == [];
    } else {
      EntriesReadBack(ts[1..], behind);
      hide ReadEntries;
      ReadOneEntry(ts[0], behind, WriteTopics(ts[1..], behind), WithBehind(ts[1..], behind));
      FirstEntry(ts, behind);
    }
  }

  lemma FirstEntry(ts: seq<seq<byte>>, behind: seq<byte>)
    requires ts != []
    ensures WithBehind(ts, behind) == [Entry(ts[0], behind)] + WithBehind(ts[1..], behind)
  {
  }

  // ---------- CONNECT ----------

  /** What the bytes of a CONNECT say. */
  datatype Session = Session(
    protocol: seq<byte>, level: byte, reserved: bool, cleanSession: bool, will: bool, willQos: int, willRetain: bool,
    password: bool, user: bool, keepAlive: int, strings: Entries)

  /** The variable header and the payload of section 3.1. */
  function ReadConnect(body: seq<byte>): Session
    requires |body| >= 10
  {
    var flags: int := body[7];
    Session(body[2..6], body[6], flags % 2 == 1, flags / 2 % 2 == 1, flags / 4 % 2 == 1, flags / 8 % 4,
            flags / 32 % 2 == 1, flags / 64 % 2 == 1, flags / 128 == 1, Number(body[8], body[9]),
            ReadEntries(body[10..], 0))
  }

  /** The entries of strings with nothing behind them. */
  function Plain(ts: seq<seq<byte>>): seq<Entry> {
    WithBehind(ts, [])
  }

  function BytesOf(d: Data): seq<byte> {
    match d
    case Absent => []
    case Present(bytes) => bytes
  }

  lemma FlagBits(clean: int, will: int, qos: int, retain: int)
    requires 0 <= clean < 2 && 0 <= will < 2 && 0 <= qos < 4 && 0 <= retain < 2
    ensures var f := clean * 2 + will * 4 + qos * 8 + retain * 32 + 64 + 128;
      && f % 2 == 0 && f / 2 % 2 == clean && f / 4 % 2 == will && f / 8 % 4 == qos && f / 32 % 2 == retain
      && f / 64 % 2 == 1 && f / 128 == 1
  {
  }

  /** A packed CONNECT says what the caller asked for; the will is there when there is a topic for it, or a QoS
      above 0, or it is to be retained. */
  lemma ConnectReadsBack(c: Connection)
    requires Legal(c) && c.qos in {0, 1, 2} && c.user.Present? && c.password.Present?
    ensures var p := ConnectPacket(c);
      var will := c.willTopic != Absent || c.qos > 0 || c.willRetain;
      var strings := if will then [c.clientId, BytesOf(c.willTopic), BytesOf(c.willMsg), c.user.bytes, c.password.bytes]
                     else [c.clientId, c.user.bytes, c.password.bytes];
      && p.header == 0x10 && |p.body| >= 10 && p.body[..2] == [0, 4]
      && ReadConnect(p.body) ==
           Session([77, 81, 84, 84], 4, false, c.cleanSession, will, c.qos, c.willRetain, true, true, c.keepAlive,
                   Entries(Plain(strings)))
  {
    var p, fields := ConnectPacket(c), ConnectFields(c);
    FieldsRead(c);
    HeadReads(c);
    assert p.body == ConnectHead(c) + WriteTopics(fields, []);
    hide Legal, ConnectFields, ConnectPacket, ConnectHead;
    assert p.body[10..] == WriteTopics(fields, []) && p.body[..10] == ConnectHead(c);
    assert forall i :: 0 <= i < 10 ==> p.body[i] == ConnectHead(c)[i];
    assert p.body[..2] == ConnectHead(c)[..2] && p.body[2..6] == ConnectHead(c)[2..6];
    EntriesReadBack(fields, []);
    hide WriteTopics, ReadEntries, WithBehind;
  }

  lemma HeadReads(c: Connection)
    requires c.qos in {0, 1, 2}
    ensures var h := ConnectHead(c);
      && h[..2] == [0, 4] && h[2..6] == [77, 81, 84, 84] && h[6] == 4 && Number(h[8], h[9]) == c.keepAlive
      && var f: int := h[7];
      && f % 2 == 0 && (f / 2 % 2 == 1 <==> c.cleanSession)
      && (f / 4 % 2 == 1 <==> c.willTopic != Absent || c.qos > 0 || c.willRetain)
      && f / 8 % 4 == c.qos && (f / 32 % 2 == 1 <==> c.willRetain) && f / 64 % 2 == 1 && f / 128 == 1
  {
    FlagBits(if c.cleanSession then 1 else 0, if HasWill(c) then 1 else 0, c.qos, if c.willRetain then 1 else 0);
  }

  lemma FieldsRead(c: Connection)
    requires Legal(c) && c.qos in {0, 1, 2} && c.user.Present? && c.password.Present?
    ensures ConnectFields(c) ==
      if c.willTopic != Absent || c.qos > 0 || c.willRetain then
        [c.clientId, BytesOf(c.willTopic), BytesOf(c.willMsg), c.user.bytes, c.password.bytes]
      else [c.clientId, c.user.bytes, c.password.bytes]
  {
  }

  // ---------- SUBSCRIBE, UNSUBSCRIBE and PUBLISH ----------

  /** A SUBSCRIBE: its id, and each topic with the QoS behind it. */
  lemma SubscribeReadsBack(id: Id, qos: byte, topics: seq<seq<byte>>)
    requires AllShort(topics)
    ensures var p := SubscribePacket(id, qos, topics);
      && p.header == 0x80 && |p.body| >= 2 && Number(p.body[0], p.body[1]) == id
      && ReadEntries(p.body[2..], 1) == Entries(WithBehind(topics, [qos]))
  {
    var p := SubscribePacket(id, qos, topics);
    assert p.body[2..] == WriteTopics(topics, [qos]);
    EntriesReadBack(topics, [qos]);
    hide WriteTopics, ReadEntries;
  }

  lemma UnsubscribeReadsBack(id: Id, topics: seq<seq<byte>>)
    requires AllShort(topics)
    ensures var p := UnsubscribePacket(id, topics);
      && p.header == 0xA0 && |p.body| >= 2 && Number(p.body[0], p.body[1]) == id
      && ReadEntries(p.body[2..], 0) == Entries(WithBehind(topics, []))
  {
    var p := UnsubscribePacket(id, topics);
    assert p.body[2..] == WriteTopics(topics, []);
    EntriesReadBack(topics, []);
    hide WriteTopics, ReadEntries;
  }

  /** A PUBLISH: flags, topic behind its length, at QoS 1 and 2 the id, and the payload. */
  lemma PublishReadsBack(topic: seq<byte>, id: Id, payload: seq<byte>, qos: Qos, retain: bool, dup: bool)
    requires |topic| < 0x1_0000
    ensures var p, n := PublishPacket(topic, id, payload, qos, retain, dup), |topic|;
      var f: int := p.header;
      && f / 16 == 3 && (f / 8 % 2 == 1 <==> dup) && f / 2 % 4 == qos && (f % 2 == 1 <==> retain)
      && |p.body| >= n + (if qos == 0 then 2 else 4)
      && Number(p.body[0], p.body[1]) == n && p.body[2..2 + n] == topic
      && (qos == 0 ==> p.body[2 + n..] == payload)
      && (qos > 0 ==> Number(p.body[2 + n], p.body[3 + n]) == id && p.body[4 + n..] == payload)
  {
    PublishBody(topic, id, payload, qos, retain, dup);
    hide PublishPacket, Write16;
  }

  // ---------- on the line ----------

  /** The algorithm of section 2.2.3: seven bits of each byte, the least significant first. */
  function Weigh(s: seq<byte>): int {
    if s == [] then 0 else (s[0] as int) % 128 + 128 * Weigh(s[1..])
  }

  /** A length takes the fewest bytes it can: marked ones, then one that is not. */
  lemma {:induction false} LengthOnTheLine(len: nat)
    ensures var d := Dump(len);
      && Weigh(d) == len && d[|d| - 1] < 128 && (|d| > 1 ==> d[|d| - 1] > 0)
      && forall i :: 0 <= i < |d| - 1 ==> d[i] >= 128
  {
    if len >= 128 {
      LengthOnTheLine(len / 128);
      assert Dump(len)[1..] == Dump(len / 128);
    }
  }

  /** A length field: one to three bytes, all but the last marked. */
  predicate IsLength(s: seq<byte>) {
    1 <= |s| <= 3 && s[|s| - 1] < 128 && forall i :: 0 <= i < |s| - 1 ==> s[i] >= 128
  }

  /** At the head of the stream stand the packet's first byte, a length field of n bytes and as many bytes as it
      says. */
  predicate IsFramed(s: seq<byte>, p: Packet, n: nat) {
    && 1 + n + |p.body| <= |s| && s[0] == p.header && IsLength(s[1..1 + n]) && Weigh(s[1..1 + n]) == |p.body|
    && s[1 + n..1 + n + |p.body|] == p.body
  }

  /** Just then the framer finds it. */
  lemma PacketIsFoundIff(s: seq<byte>, p: Packet, size: nat)
    ensures NextPacket(s) == Found(p, size) <==> exists n: nat :: size == 1 + n + |p.body| && IsFramed(s, p, n)
  {
    if NextPacket(s) == Found(p, size) {
      LengthRead(s[1..]);
      var n: nat := Read(s[1..]).0;
      assert s[1..][..n] == s[1..1 + n];
      hide Read, Weigh, IsLength;
      assert IsFramed(s, p, n);
    }
    if n: nat :| size == 1 + n + |p.body| && IsFramed(s, p, n) {
      FramedIsFound(s, p, n);
    }
    hide NextPacket, IsFramed;
  }

  lemma FramedIsFound(s: seq<byte>, p: Packet, n: nat)
    requires IsFramed(s, p, n)
    ensures NextPacket(s) == Found(p, 1 + n + |p.body|)
  {
    assert s[1..][..n] == s[1..1 + n];
    LengthIsRead(s[1..], n);
    assert |s[1..1 + n]| == n >= 1;
    hide Read, Weigh;
  }

  /** What Mqtt_ReadLength reads is a length field and its weight. */
  lemma LengthRead(s: seq<byte>)
    ensures var (n, len) := Read(s);
      n == INCOMPLETE || n == OUT_OF_RANGE || (1 <= n <= |s| && IsLength(s[..n]) && Weigh(s[..n]) == len)
  {
    ReadThree(s);
    WeighThree(s);
    hide Read, Weigh;
  }

  lemma LengthIsRead(s: seq<byte>, n: nat)
    requires n <= |s| && IsLength(s[..n])
    ensures Read(s) == (n as int, Weigh(s[..n]))
  {
    ReadThree(s);
    WeighThree(s);
    hide Read, Weigh;
    assert forall i :: 0 <= i < n ==> s[..n][i] == s[i];
  }

  /** The three rounds of Mqtt_ReadLength. */
  lemma ReadThree(s: seq<byte>)
    ensures var a: int, b: int, c: int := At(s, 0), At(s, 1), At(s, 2);
      Read(s) == if |s| == 0 then (INCOMPLETE, 0)
                 else if a < 128 then (1, a)
                 else if |s| == 1 then (INCOMPLETE, a - 128)
                 else if b < 128 then (2, a - 128 + 128 * b)
                 else if |s| == 2 then (INCOMPLETE, a - 128 + 128 * (b - 128))
                 else if c < 128 then (3, a - 128 + 128 * (b - 128) + 16384 * c)
                 else (OUT_OF_RANGE, a - 128 + 128 * (b - 128) + 16384 * (c - 128))
  {
    if |s| >= 1 && s[0] >= 128 {
      var len1: nat := s[0] % 128;
      assert Read(s) == ReadFrom(s, 1, 128, len1, MAX3);
      if |s| >= 2 && s[1] >= 128 {
        var len2: nat := len1 + (s[1] as int) % 128 * 128;
        assert Read(s) == ReadFrom(s, 2, 16384, len2, MAX3);
      }
    }
  }

  lemma WeighThree(s: seq<byte>)
    ensures var a: int, b: int, c: int := At(s, 0), At(s, 1), At(s, 2);
      && (|s| >= 1 ==> Weigh(s[..1]) == a % 128)
      && (|s| >= 2 ==> Weigh(s[..2]) == a % 128 + 128 * (b % 128))
      && (|s| >= 3 ==> Weigh(s[..3]) == a % 128 + 128 * (b % 128) + 16384 * (c % 128))
  {
    if |s| >= 1 {
      WeighFirst(s[..1]);
      assert s[..1][1..] == [] && Weigh([]) == 0;
    }
    if |s| >= 2 {
      WeighFirst(s[..2]);
      WeighFirst(s[1..2]);
      assert s[..2][1..] == s[1..2] && s[1..2][1..] == [] && Weigh([]) == 0;
    }
    if |s| >= 3 {
      WeighFirst(s[..3]);
      WeighFirst(s[1..3]);
      WeighFirst(s[2..3]);
      assert s[..3][1..] == s[1..3] && s[1..3][1..] == s[2..3] && s[2..3][1..] == [] && Weigh([]) == 0;
    }
    hide Weigh;
  }

  lemma WeighFirst(s: seq<byte>)
    requires s != []
    ensures Weigh(s) == (s[0] as int) % 128 + 128 * Weigh(s[1..])
  {
  }

  /** The acknowledgements, all four bytes. */
  lemma AckOnTheLine(id: Id)
    ensures Encode(Ack(PUBACK, id)) == [0x40, 2, id / 256, id % 256]
    ensures Encode(Ack(PUBREC, id)) == [0x50, 2, id / 256, id % 256]
    ensures Encode(Ack(PUBREL, id)) == [0x62, 2, id / 256, id % 256]
    ensures Encode(Ack(PUBCOMP, id)) == [0x70, 2, id / 256, id % 256]
  {
    assert Dump(2) == [2];
    hide Dump;
  }

  // ---------- what a server writes ----------

  function Two(id: Id): seq<byte> {
    [id / 256, id % 256]
  }

  /** The packet for which a callback is there, PUBLISH aside. */
  function Form(call: Callback): Packet {
    match call
    case OnPingResp => Packet(0xD0, [])
    case OnConnAck(ackFlags, retCode) => Packet(0x20, [ackFlags, retCode])
    case OnPubAck(id) => Packet(0x40, Two(id))
    case OnPubRec(id) => Packet(0x50, Two(id))
    case OnPubRel(id) => Packet(0x62, Two(id))
    case OnPubComp(id) => Packet(0x70, Two(id))
    case OnSubAck(id, codes) => Packet(0x90, Two(id) + codes)
    case OnUnsubAck(id) => Packet(0xB0, Two(id))
    case _ => Packet(0x30, [])
  }

  /** An id is not 0; a session is present only on success; return codes go to 5, and where char is signed
      those from 128 on pass as well; a granted QoS is 0 to 3, or one of these with the failure bit. */
  predicate IsInOrder(call: Callback, signedChar: bool) {
    match call
    case OnPingResp => true
    case OnConnAck(ackFlags, retCode) =>
      && (ackFlags % 2 == 0 || retCode == 0)
      && (retCode in {0, 1, 2, 3, 4, 5} || (signedChar && retCode >= 128))
    case OnSubAck(id, codes) =>
      id != 0 && forall i :: 0 <= i < |codes| ==> codes[i] in {0, 1, 2, 3, 128, 129, 130, 131}
    case OnPublish(_, _, _, _, _) => false
    case OnCommand(_, _, _, _, _) => false
    case OnPubAck(id) => id != 0
    case OnPubRec(id) => id != 0
    case OnPubRel(id) => id != 0
    case OnPubComp(id) => id != 0
    case OnUnsubAck(id) => id != 0
  }

  /** What is in order is called back as it was written, and nothing else is, PUBLISH aside. */
  lemma CalledBackIff(p: Packet, call: Callback, signedChar: bool)
    requires p.header / 16 != 3
    ensures PacketVerdict(p, signedChar) == Call(call) <==> IsInOrder(call, signedChar) && p == Form(call)
  {
    if IsInOrder(call, signedChar) {
      FormIsCalledBack(call, signedChar);
    }
    if PacketVerdict(p, signedChar) == Call(call) {
      CalledBackIsForm(p, signedChar);
    }
    hide PacketVerdict, Form, IsInOrder;
  }

  lemma FormIsCalledBack(call: Callback, signedChar: bool)
    requires IsInOrder(call, signedChar)
    ensures PacketVerdict(Form(call), signedChar) == Call(call)
  {
  }

  /** What is neither is refused. */
  lemma CalledBackIsForm(p: Packet, signedChar: bool)
    requires p.header / 16 != 3 && !PacketVerdict(p, signedChar).Illegal?
    ensures var v := PacketVerdict(p, signedChar); v.Call? && IsInOrder(v.call, signedChar) && p == Form(v.call)
  {
  }

  /** A PUBLISH as a server writes it: not retained, marked DUP at QoS 1 and 2 only, with a topic that passes. */
  predicate IsPublishOf(p: Packet, topic: seq<byte>, id: Id, payload: seq<byte>, qos: Qos, dup: bool,
                        signedChar: bool)
  {
    && |topic| < 0x1_0000 && p == PublishPacket(topic, id, payload, qos, false, dup)
    && (qos == 0 ==> !dup) && id != 0 && TopicPasses(topic, signedChar)
  }

  /** No other PUBLISH is accepted: what is read is what was written. */
  lemma AcceptedIsPublish(p: Packet, signedChar: bool)
    returns (topic: seq<byte>, id: Id, payload: seq<byte>, qos: Qos, dup: bool)
    requires p.header / 16 == 3 && !PacketVerdict(p, signedChar).Illegal?
    ensures IsPublishOf(p, topic, id, payload, qos, dup, signedChar)
  {
    hide PacketVerdict, TopicPasses, PublishPacket, PublishVerdict, WriteString, Write16;
    DispatchedAsPublish(p, signedChar);
    var flags: int := p.header % 16;
    dup, qos := flags >= 8, 0;
    topic, id, payload := AcceptedParts(flags, p.body, signedChar);
    qos := flags / 2 % 4;
    HeaderParts(p.header);
    Reassembled(p, topic, id, payload, qos, dup);
  }

  lemma Reassembled(p: Packet, topic: seq<byte>, id: Id, payload: seq<byte>, qos: Qos, dup: bool)
    requires |topic| < 0x1_0000 && p.header == 48 + (if dup then 8 else 0) + qos * 2
    requires p.body == WriteString(topic) + (if qos == 0 then [] else Write16(id)) + payload
    ensures p == PublishPacket(topic, id, payload, qos, false, dup)
  {
    hide WriteString, Write16;
  }

  /** The parts of a body that is accepted. */
  lemma AcceptedParts(flags: int, body: seq<byte>, signedChar: bool)
    returns (topic: seq<byte>, id: Id, payload: seq<byte>)
    requires 0 <= flags < 16 && !PublishVerdict(flags, body, signedChar).Illegal?
    ensures flags % 2 == 0 && flags / 2 % 4 < 3 && (flags / 2 % 4 == 0 ==> flags < 8)
    ensures |topic| < 0x1_0000 && id != 0 && TopicPasses(topic, signedChar)
    ensures body == WriteString(topic) + (if flags / 2 % 4 == 0 then [] else Write16(id)) + payload
  {
    AcceptedSizes(flags, body, signedChar);
    hide TopicPasses, PublishVerdict, WriteString, Write16;
    var n: nat := Read16(body[0], body[1]);
    topic := body[2..2 + n];
    if flags / 2 % 4 == 0 {
      id, payload := 1, body[2 + n..];
    } else {
      id, payload := Read16(body[n + 2], body[n + 3]), body[4 + n..];
    }
    Rebuilt(body, flags / 2 % 4);
  }

  lemma AcceptedSizes(flags: int, body: seq<byte>, signedChar: bool)
    requires 0 <= flags < 16 && !PublishVerdict(flags, body, signedChar).Illegal?
    ensures flags % 2 == 0 && flags / 2 % 4 < 3 && (flags / 2 % 4 == 0 ==> flags < 8) && |body| >= 2
    ensures var n := Read16(body[0], body[1]);
      && |body| >= n + (if flags / 2 % 4 == 0 then 2 else 4) && TopicPasses(body[2..2 + n], signedChar)
      && (flags / 2 % 4 > 0 ==> Read16(body[n + 2], body[n + 3]) != 0)
  {
    hide TopicPasses, Read16;
  }

  lemma PassingTopic(topic: seq<byte>, id: Id, payload: seq<byte>, dup: bool, qos: Qos, signedChar: bool)
    ensures TopicVerdict(topic, id, payload, dup, qos, signedChar).Illegal? <==> !TopicPasses(topic, signedChar)
  {
    hide TopicPasses;
  }

  lemma HeaderParts(header: byte)
    requires header / 16 == 3 && header % 16 % 2 == 0
    ensures var flags: int := header % 16; header as int == 48 + (if flags >= 8 then 8 else 0) + flags / 2 % 4 * 2
  {
  }

  lemma Rebuilt(body: seq<byte>, qos: Qos)
    requires |body| >= 2
    requires |body| >= Read16(body[0], body[1]) + if qos == 0 then 2 else 4
    ensures var n := Read16(body[0], body[1]);
      && (qos == 0 ==> body == WriteString(body[2..2 + n]) + [] + body[2 + n..])
      && (qos > 0 ==>
            body == WriteString(body[2..2 + n]) + Write16(Read16(body[n + 2], body[n + 3])) + body[4 + n..])
  {
    var n: nat := Read16(body[0], body[1]);
    TwoBytes(body, 0);
    hide Read16, Write16;
    assert body[..2 + n] == WriteString(body[2..2 + n]) by {
      assert body[..2 + n] == body[..2] + body[2..2 + n];
    }
    hide WriteString;
    if qos > 0 {
      TwoBytes(body, n + 2);
      assert body == body[..2 + n] + body[n + 2..n + 4] + body[4 + n..];
    } else {
      assert body == body[..2 + n] + [] + body[2 + n..];
    }
  }

  lemma TwoBytes(s: seq<byte>, i: nat)
    requires i + 2 <= |s|
    ensures Write16(Read16(s[i], s[i + 1])) == s[i..i + 2]
  {
  }

  /** So a PUBLISH is accepted iff it is one of these; the callback gets the C string of its topic. */
  lemma PublishIsAcceptedIff(p: Packet, signedChar: bool)
    requires p.header / 16 == 3
    ensures !PacketVerdict(p, signedChar).Illegal? <==>
      exists topic: seq<byte>, id: Id, payload: seq<byte>, qos: Qos, dup: bool ::
        IsPublishOf(p, topic, id, payload, qos, dup, signedChar)
  {
    if !PacketVerdict(p, signedChar).Illegal? {
      var topic, id, payload, qos, dup := AcceptedIsPublish(p, signedChar);
    }
    if topic: seq<byte>, id: Id, payload: seq<byte>, qos: Qos, dup: bool
       :| IsPublishOf(p, topic, id, payload, qos, dup, signedChar) {
      PublishReaches(topic, id, payload, qos, false, dup, signedChar);
      PassingTopic(topic, if qos == 0 then 0 else id, payload, dup, qos, signedChar);
    }
    hide PacketVerdict, TopicVerdict, TopicPasses, PublishPacket;
  }

  // ---------- which calls are packed ----------

  /** A PUBLISH is packed iff it has an id, a QoS of 0, 1 or 2 and a topic that is UTF-8 to the check and free of
      + and #, and is not too large. */
  lemma PublishIsPackedIff(id: Id, topic: Text, size: nat, qos: int, signedChar: bool)
    ensures PublishCode(id, topic, size, qos, signedChar) == 0 <==>
      && id != 0 && 0 <= qos <= 2
      && (forall i :: 0 <= i < |topic| ==> topic[i] != 43 && topic[i] != 35)
      && Walk(topic, 0, signedChar, false) == |topic|
      && (if qos == 0 then 2 else 4) + |topic| + size < 128 * 128 * 128 * 128
    ensures PublishCode(id, topic, size, qos, signedChar) in {0, -6, -7, -8}
  {
    hide Walk;
    if !HasWildcard(topic) {
      assert forall i :: 0 <= i < |topic| ==> topic[i] !in {PLUS, HASH};
    }
  }

  /** And then it is called back as it was published, unless its topic starts with a dollar sign. */
  lemma WhatIsPackedArrives(id: Id, topic: Text, payload: seq<byte>, qos: int, signedChar: bool)
    requires |topic| < 0x1_0000 && PublishCode(id, topic, |payload|, qos, signedChar) == 0
    requires topic == [] || topic[0] != 36
    ensures 0 <= qos <= 2
    ensures PacketVerdict(PublishPacket(topic, id, payload, qos, false, false), signedChar)
         == Call(OnPublish(if qos == 0 then 0 else id, topic, payload, false, qos))
  {
    hide Walk, HasWildcard, PacketVerdict, PublishPacket;
    PublishIsDelivered(topic, id, payload, qos, false, false, signedChar);
  }

  /** A CONNECT is packed iff its QoS is 0, 1 or 2, there are a user and a password, no will message without a
      will topic, and the will topic and the user are UTF-8 to the check. */
  lemma ConnectIsPackedIff(c: Connection, signedChar: bool)
    requires Legal(c)
    ensures ConnectCode(c, signedChar) == 0 <==>
      && 0 <= c.qos <= 2 && c.user != Absent && c.password != Absent && (c.willMsg != Absent ==> c.willTopic != Absent)
      && (c.willTopic != Absent ==> Walk(c.willTopic.bytes, 0, signedChar, false) == |c.willTopic.bytes|)
      && Walk(c.user.bytes, 0, signedChar, false) == |c.user.bytes|
    ensures ConnectCode(c, signedChar) in {0, -6, -7}
  {
    hide Walk, Legal;
  }

  /** A topic the first loop of SUBSCRIBE and UNSUBSCRIBE lets pass. */
  predicate Passes(t: CString?, signedChar: bool) {
    t != null && Walk(t.text, 0, signedChar, false) == |t.text|
  }

  /** The first topic that does not pass decides. */
  lemma {:induction false} FirstBadTopic(topics: seq<CString?>, signedChar: bool) returns (k: nat)
    ensures k <= |topics| && forall i :: 0 <= i < k ==> Passes(topics[i], signedChar)
    ensures k < |topics| ==> !Passes(topics[k], signedChar)
    ensures TopicsCode(topics, signedChar) == if k == |topics| then 0 else if topics[k] == null then -7 else -6
  {
    hide Walk;
    k := 0;
    if topics != [] && Passes(topics[0], signedChar) {
      k := FirstBadTopic(topics[1..], signedChar);
      k := k + 1;
    }
  }

  /** They are packed iff there is an id, every topic passes, and the packet is not too large. */
  lemma TopicsArePackedIff(id: Id, topics: seq<CString?>, behind: seq<byte>, signedChar: bool)
    requires Countable(topics)
    ensures TopicsPacketCode(id, topics, behind, signedChar) == 0 <==>
      && id != 0 && (forall i :: 0 <= i < |topics| ==> Passes(topics[i], signedChar))
      && 2 + |WriteTopics(Texts(topics), behind)| < 128 * 128 * 128 * 128
    ensures TopicsPacketCode(id, topics, behind, signedChar) in {0, -6, -7, -8}
  {
    var k := FirstBadTopic(topics, signedChar);
    hide TopicsCode, Passes;
  }
}
