/** The packer of CONNECT. */
module MqttPackConnect {
  import opened Bytes
  import opened Memory
  import opened MqttLength
  import opened MqttPacket
  import opened MqttDispatch
  import opened Utf8Check
  import opened MqttBuffer
  import opened MqttPack
  import opened MqttPackTopics

  const CONNECT: int := 1

  /** A pointer and a length, or a null pointer; the length is one that two bytes can hold. */
  datatype Data = Absent | Present(bytes: seq<byte>)

  /** The arguments of Mqtt_PackConnectPkt. */
  datatype Connection = Connection(keepAlive: Id, clientId: Text, cleanSession: bool, willTopic: Data, willMsg: Data,
                                   qos: int, willRetain: bool, user: Data, password: Data)

  predicate Short(d: Data) {
    d.Present? ==> |d.bytes| < 0x1_0000
  }

  /** Lengths that two bytes can hold, C strings without NUL, and an alphanumeric client id. */
  predicate Legal(c: Connection) {
    && Short(c.willTopic) && Short(c.willMsg) && Short(c.user) && Short(c.password)
    && |c.clientId| < 0x1_0000
    && (forall i :: 0 <= i < |c.clientId| ==>
          48 <= c.clientId[i] <= 57 || 65 <= c.clientId[i] <= 90 || 97 <= c.clientId[i] <= 122)
    && (c.willTopic.Present? ==> NulFree(c.willTopic.bytes)) && (c.user.Present? ==> NulFree(c.user.bytes))
  }

  function OrEmpty(d: Data): (s: seq<byte>)
    ensures Short(d) ==> |s| < 0x1_0000
  {
    if d.Present? then d.bytes else []
  }

  /** A will QoS or a will to retain sets the will flag, even without a will topic. */
  predicate HasWill(c: Connection) {
    c.willTopic.Present? || c.qos in {1, 2} || c.willRetain
  }

  function ConnectFlags(c: Connection): byte
    requires c.qos in {0, 1, 2}
  {
    (if c.cleanSession then 2 else 0) + (if HasWill(c) then 4 else 0) + c.qos * 8
      + (if c.willRetain then 32 else 0) + 64 + 128
  }

  /** The packet of section 3.1 of MQTT 3.1.1. */
  function ConnectHead(c: Connection): (s: seq<byte>)
    requires c.qos in {0, 1, 2}
    ensures |s| == 10
  {
    [0, 4, 77, 81, 84, 84, 4, ConnectFlags(c)] + Write16(c.keepAlive)
  }

  function ConnectFields(c: Connection): (fs: seq<seq<byte>>)
    requires Legal(c)
    ensures forall i :: 0 <= i < |fs| ==> |fs[i]| < 0x1_0000
  {
    [c.clientId] + (if HasWill(c) then [OrEmpty(c.willTopic), OrEmpty(c.willMsg)] else [])
    + [OrEmpty(c.user), OrEmpty(c.password)]
  }

  function ConnectPacket(c: Connection): Packet
    requires Legal(c) && c.qos in {0, 1, 2}
  {
    Packet(CONNECT * 16, ConnectHead(c) + WriteTopics(ConnectFields(c), []))
  }

  predicate PassesUtf8(d: Data, signedChar: bool) {
    d.Present? ==> Walk(d.bytes, 0, signedChar, false) == |d.bytes|
  }

  /** What Mqtt_PackConnectPkt answers. The length never exceeds what can be written. */
  function ConnectCode(c: Connection, signedChar: bool): int {
    if c.willMsg.Present? && c.willTopic.Absent? then INVALID_PARAMETER
    else if !PassesUtf8(c.willTopic, signedChar) then NOT_UTF8
    else if c.qos !in {0, 1, 2} then INVALID_PARAMETER
    else if c.user.Absent? || c.password.Absent? then INVALID_PARAMETER
    else if !PassesUtf8(c.user, signedChar) then NOT_UTF8
    else NO_ERROR
  }

  /** The checks of Mqtt_PackConnectPkt, and the flags and the length they leave. */
  method CheckConnect(c: Connection, signedChar: bool) returns (code: int, flags: nat, total: nat)
    requires Legal(c)
    ensures code == ConnectCode(c, signedChar)
    ensures code == NO_ERROR ==>
      && c.qos in {0, 1, 2} && flags == ConnectFlags(c)
      && total == 12 + |c.clientId| + (if HasWill(c) then 4 + |OrEmpty(c.willTopic)| + |OrEmpty(c.willMsg)| else 0)
                  + 2 + |OrEmpty(c.user)| + 2 + |OrEmpty(c.password)|
  {
    hide Walk;
    flags, total := 0, 10 + |c.clientId| + 2;
    var will := false;
    if c.cleanSession {
      flags := flags + 2;
    }
    if c.willMsg.Present? && c.willTopic.Absent? {
      return INVALID_PARAMETER, flags, total;
    }
    if c.willTopic.Present? {
      will := true;
      var walked := CheckUtf8(c.willTopic.bytes, signedChar);
      if walked != |c.willTopic.bytes| {
        return NOT_UTF8, flags, total;
      }
    }
    match c.qos {
      case 0 =>
      case 1 => will, flags := true, flags + 8;
      case 2 => will, flags := true, flags + 16;
      case _ => return INVALID_PARAMETER, flags, total;
    }
    if c.willRetain {
      will, flags := true, flags + 32;
    }
    if will {
      flags, total := flags + 4, total + 4 + |OrEmpty(c.willTopic)| + |OrEmpty(c.willMsg)|;
    }
    if c.user.Absent? || c.password.Absent? {
      return INVALID_PARAMETER, flags, total;
    }
    var walked := CheckUtf8(c.user.bytes, signedChar);
    if walked != |c.user.bytes| {
      return NOT_UTF8, flags, total;
    }
    flags, total := flags + 128, total + |c.user.bytes| + 2;
    flags, total := flags + 64, total + |c.password.bytes| + 2;
    code := NO_ERROR;
  }

  predicate AllShort(fields: seq<seq<byte>>) {
    forall i :: 0 <= i < |fields| ==> |fields[i]| < 0x1_0000
  }

  lemma FieldsSize(c: Connection)
    requires Legal(c)
    ensures AllShort(ConnectFields(c))
    ensures |WriteTopics(ConnectFields(c), [])| ==
      2 + |c.clientId| + (if HasWill(c) then 4 + |OrEmpty(c.willTopic)| + |OrEmpty(c.willMsg)| else 0)
      + 2 + |OrEmpty(c.user)| + 2 + |OrEmpty(c.password)|
  {
    var front, back := [c.clientId], [OrEmpty(c.user), OrEmpty(c.password)];
    var will := if HasWill(c) then [OrEmpty(c.willTopic), OrEmpty(c.willMsg)] else [];
    assert ConnectFields(c) == front + will + back;
    TopicsSize(ConnectFields(c), []);
    LengthsConcat(front + will, back);
    LengthsConcat(front, will);
    LengthsOne(c.clientId);
    LengthsTwo(OrEmpty(c.willTopic), OrEmpty(c.willMsg));
    LengthsTwo(OrEmpty(c.user), OrEmpty(c.password));
    hide WriteTopics, LengthSum;
    NoLengths(will);
  }

  lemma NoLengths(ts: seq<seq<byte>>)
    ensures ts == [] ==> LengthSum(ts) == 0
  {
  }

  lemma LengthsOne(t: seq<byte>)
    ensures LengthSum([t]) == |t|
  {
    assert [t][..0] == [];
  }

  lemma LengthsTwo(t: seq<byte>, u: seq<byte>)
    ensures LengthSum([t, u]) == |t| + |u|
  {
    LengthsOne(t);
    assert [t, u][..1] == [t];
  }

  lemma {:induction false} LengthsConcat(a: seq<seq<byte>>, b: seq<seq<byte>>)
    ensures LengthSum(a + b) == LengthSum(a) + LengthSum(b)
    decreases |b|
  {
    if b == [] {
      assert a + b == a;
    } else {
      assert (a + b)[..|a + b| - 1] == a + b[..|b| - 1];
      LengthsConcat(a, b[..|b| - 1]);
    }
  }

  /** Mqtt_PktWriteString at the cursor of the third extent, which holds the fields done so far. */
  method PutField(heap: Heap, buf: Buffer, ext: Extent, cursor: nat, text: seq<byte>, ghost es: seq<Extent>,
                  ghost bs: seq<seq<byte>>,
                  ghost done: seq<seq<byte>>, ghost base: set<object>, ghost flat: seq<byte>, ghost entries: nat,
                  ghost left: nat)
    returns (cursor': nat, ghost bs': seq<seq<byte>>)
    requires Underway(heap, buf, base, flat, entries, left) && Drafts(buf, es, bs) && |es| == |bs| == 3 && ext == es[2]
    requires AllShort(done) && |text| < 0x1_0000 && bs[2] == WriteTopics(done, []) && cursor == |bs[2]|
    requires cursor + 2 + |text| <= ext.room
    modifies ext.home
    ensures Underway(heap, buf, base, flat, entries, left) && Drafts(buf, es, bs')
      && buf.Footprint() == old(buf.Footprint())
    ensures bs' == [bs[0], bs[1], WriteTopics(done + [text], [])] && cursor' == |bs'[2]| == cursor + 2 + |text|
  {
    hide Underway, Drafts, WriteTopics, Write16;
    TopicsAppend(done, text, []);
    var s := WriteString(text);
    assert s + [] == s;
    bs' := [bs[0], bs[1], bs[2] + s];
    assert bs[2 := bs[2] + s] == bs';
    Put(heap, buf, ext, cursor, s, 2, es, bs, base, flat, entries, left);
    cursor' := cursor + |s|;
  }

  lemma WriteNothing()
    ensures WriteTopics([], []) == []
  {
  }

  /** The strings of a CONNECT. */
  method FillFields(heap: Heap, buf: Buffer, ext: Extent, c: Connection, will: bool, ghost es: seq<Extent>,
                    ghost bs: seq<seq<byte>>,
                    ghost base: set<object>, ghost flat: seq<byte>, ghost entries: nat, ghost left: nat)
    requires Underway(heap, buf, base, flat, entries, left) && Drafts(buf, es, bs) && |es| == |bs| == 3 && ext == es[2]
    requires Legal(c) && bs[2] == [] && will == HasWill(c) && ext.room == |WriteTopics(ConnectFields(c), [])|
    modifies ext.home
    ensures Underway(heap, buf, base, flat, entries, left) && buf.Footprint() == old(buf.Footprint())
    ensures Drafts(buf, es, [bs[0], bs[1], WriteTopics(ConnectFields(c), [])])
  {
    hide Underway, Drafts, WriteTopics, ConnectFields;
    FieldsSize(c);
    WriteNothing();
    ghost var done: seq<seq<byte>> := [];
    ghost var now := bs;
    var cursor: nat := 0;
    cursor, now := PutField(heap, buf, ext, cursor, c.clientId, es, now, done, base, flat, entries, left);
    done := done + [c.clientId];
    if will {
      cursor, now := PutField(heap, buf, ext, cursor, OrEmpty(c.willTopic), es, now, done, base, flat, entries, left);
      done := done + [OrEmpty(c.willTopic)];
      cursor, now := PutField(heap, buf, ext, cursor, OrEmpty(c.willMsg), es, now, done, base, flat, entries, left);
      done := done + [OrEmpty(c.willMsg)];
    }
    cursor, now := PutField(heap, buf, ext, cursor, OrEmpty(c.user), es, now, done, base, flat, entries, left);
    done := done + [OrEmpty(c.user)];
    cursor, now := PutField(heap, buf, ext, cursor, OrEmpty(c.password), es, now, done, base, flat, entries, left);
    done := done + [OrEmpty(c.password)];
    FieldsAre(c, done);
  }

  lemma FieldsAre(c: Connection, done: seq<seq<byte>>)
    requires Legal(c)
    requires done == (if HasWill(c) then [c.clientId, OrEmpty(c.willTopic), OrEmpty(c.willMsg)] else [c.clientId])
                     + [OrEmpty(c.user), OrEmpty(c.password)]
    ensures done == ConnectFields(c)
  {
  }

  /** The three extents of a CONNECT, filled and hung on the list. */
  method PackFields(heap: Heap, buf: Buffer, head: Extent, variable: Extent, c: Connection, will: bool, flags: byte,
                    total: nat,
                    ghost base: set<object>, ghost flat: seq<byte>, ghost entries: nat, ghost left: nat)
    requires Underway(heap, buf, base, flat, entries, left) && entries < 2 * MAX_ENTRIES
    requires Drafts(buf, [head, variable], [[], []]) && head.room == 5 && variable.room == variable.len == 10
      && head != variable
    requires Legal(c) && c.qos in {0, 1, 2} && flags == ConnectFlags(c) && will == HasWill(c)
    requires total == 10 + |WriteTopics(ConnectFields(c), [])| < MAX4 && total + 5 <= left
      && left + HEADER + ALIGNMENT <= TWO32
    modifies heap`live, buf.Footprint(), head`len
    ensures forall o :: o in buf.Footprint() ==> o in old(buf.Footprint()) || fresh(o)
    ensures Underway(heap, buf, base, flat + Encode(ConnectPacket(c)), entries + 1, left - total - 5)
  {
    hide Underway, Drafts, Dump, Encode, WriteTopics, ConnectFields, ConnectHead, ConnectPacket, Buffer.Footprint;
    FieldsSize(c);
    ghost var none: seq<seq<byte>>, two: seq<seq<byte>>, three: seq<seq<byte>> := [[]], [[], []], [[], [], []];
    assert head in [head, variable] && variable in [head, variable];
    var payload := NewDraft(heap, buf, total - 10, [head, variable], two, base, flat, entries, left);
    ghost var es, more := [head, variable, payload], entries + 1;
    assert [head, variable] + [payload] == es && two + none == three;
    OursThree(heap, buf, es, three, base, flat, more, left);
    ghost var b1, b2, b3 := [(CONNECT * 16) as byte] + Dump(total), ConnectHead(c), WriteTopics(ConnectFields(c), []);
    assert three[0 := b1] == [b1, [], []];
    var ret := HeadOf(heap, buf, head, CONNECT * 16, total, es, three, base, flat, more, left);
    HeadIs(c, flags);
    assert [] + b2 == b2 && [b1, [], []][1 := [] + b2] == [b1, b2, []];
    Put(heap, buf, variable, 0, [0, 4, 77, 81, 84, 84, 4, flags] + Write16(c.keepAlive), 1, es, [b1, [], []],
        base, flat, more, left);
    FillFields(heap, buf, payload, c, will, es, [b1, b2, []], base, flat, more, left);
    AppendThree(heap, buf, head, variable, payload, b1, b2, b3, base, flat, more, left, left - total - 5);
    ConnectBytes(c);
  }

  /** Three extents, hung on the list one after the other. */
  method AppendThree(heap: Heap, buf: Buffer, head: Extent, variable: Extent, payload: Extent,
                     ghost b1: seq<byte>, ghost b2: seq<byte>, ghost b3: seq<byte>,
                     ghost base: set<object>, ghost flat: seq<byte>, ghost entries: nat, ghost left: nat,
                     ghost less: nat)
    requires Underway(heap, buf, base, flat, entries, left) && Drafts(buf, [head, variable, payload], [b1, b2, b3])
    requires head.len == |b1| && variable.len == |b2| && payload.len == |b3| && |b1| + |b2| + |b3| + less <= left
    modifies buf.Footprint()
    ensures Underway(heap, buf, base, flat + (b1 + (b2 + b3)), entries, less) && buf.Footprint() == old(buf.Footprint())
  {
    hide Underway, Drafts, Buffer.Footprint;
    ghost var es := [head, variable, payload];
    assert variable in es && payload in es;
    AppendDraft(heap, buf, head, es, [b1, b2, b3], base, flat, entries, left);
    assert es[1..] == [variable, payload] && [b1, b2, b3][1..] == [b2, b3];
    AppendTwo(heap, buf, variable, payload, b2, b3, base, flat + b1, entries, left - |b1|);
    Assoc(flat, b1, b2 + b3);
    LessLeft(heap, buf, base, flat + b1 + (b2 + b3), entries, left - |b1| - |b2| - |b3|, less);
  }

  lemma HeadIs(c: Connection, flags: byte)
    requires c.qos in {0, 1, 2} && flags == ConnectFlags(c)
    ensures ConnectHead(c) == [0, 4, 77, 81, 84, 84, 4, flags] + Write16(c.keepAlive)
  {
  }

  lemma ConnectBytes(c: Connection)
    requires Legal(c) && c.qos in {0, 1, 2}
    ensures Encode(ConnectPacket(c)) ==
      [(CONNECT * 16) as byte] + Dump(10 + |WriteTopics(ConnectFields(c), [])|)
        + (ConnectHead(c) + WriteTopics(ConnectFields(c), []))
  {
    hide ConnectHead, ConnectFields, WriteTopics, Dump;
  }

  lemma OursThree(heap: Heap, buf: Buffer, es: seq<Extent>, bs: seq<seq<byte>>,
                  base: set<object>, flat: seq<byte>, entries: nat, left: nat)
    requires Underway(heap, buf, base, flat, entries, left) && Drafts(buf, es, bs) && |es| == 3
    ensures es[0].home in buf.Footprint() && es[1].home in buf.Footprint() && es[2].home in buf.Footprint()
    ensures es[0] != es[1] && es[0] != es[2] && es[1] != es[2]
    ensures es[0] in buf.Footprint()
  {
    DraftIsOurs(heap, buf, es, bs, 0, base, flat, entries, left);
    DraftIsOurs(heap, buf, es, bs, 1, base, flat, entries, left);
    DraftIsOurs(heap, buf, es, bs, 2, base, flat, entries, left);
  }

  /** Mqtt_PackConnectPkt. The checks touch no memory; here they stand in front of the two allocations. */
  method PackConnect(heap: Heap, buf: Buffer, c: Connection, signedChar: bool,
                     ghost base: set<object>, ghost flat: seq<byte>, ghost entries: nat, ghost left: nat)
    returns (r: int)
    requires Underway(heap, buf, base, flat, entries, left) && entries < MAX_ENTRIES && Legal(c)
    requires |WriteTopics(ConnectFields(c), [])| + 15 <= left && left + HEADER + ALIGNMENT <= TWO32
    modifies heap`live, buf.Footprint()
    ensures forall o :: o in buf.Footprint() ==> o in old(buf.Footprint()) || fresh(o)
    ensures r == ConnectCode(c, signedChar)
    ensures r != NO_ERROR ==> Underway(heap, buf, base, flat, entries + 2, left)
    ensures r == NO_ERROR ==>
      && c.qos in {0, 1, 2}
      && Underway(heap, buf, base, flat + Encode(ConnectPacket(c)), entries + 3,
                  left - |WriteTopics(ConnectFields(c), [])| - 15)
  {
    hide Underway, Drafts, Encode, WriteTopics, ConnectFields, ConnectPacket, ConnectFlags, Buffer.Footprint;
    FieldsSize(c);
    PayloadsAreAllocated(buf.listed);
    var code, flags, total := CheckConnect(c, signedChar);
    var head, variable := NewPair(heap, buf, 10, base, flat, entries, left);
    ghost var both: seq<seq<byte>> := [[], []];
    DraftIsOurs(heap, buf, [head, variable], both, 0, base, flat, entries + 2, left);
    if code != NO_ERROR {
      return code;
    }
    PackFields(heap, buf, head, variable, c, HasWill(c), flags, total, base, flat, entries + 2, left);
    return NO_ERROR;
  }
}
