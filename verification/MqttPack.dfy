/** The packers: packets written into extents of a buffer. */
module MqttPack {
  import opened Bytes
  import opened Memory
  import opened MqttLength
  import opened MqttPacket
  import opened MqttDispatch
  import opened Utf8Check
  import opened MqttBuffer

  const INVALID_PARAMETER: int := -7
  const PKT_TOO_LARGE: int := -8
  const MAX_ENTRIES: nat := 0x100_0000

  // ---------- packets of several extents ----------

  /** Packing underway: what the list holds, what malloc holds besides, and how far table and length may be. */
  ghost predicate Underway(heap: Heap, buf: Buffer, base: set<object>, flat: seq<byte>, entries: nat, left: nat)
    reads heap, buf, buf.allocations, buf.listed, Payloads(buf.listed)
  {
    && buf.Valid() && heap.live == base + buf.Held() && base !! buf.Held() && Flat(buf.listed) == flat
    && buf.count <= entries && buf.buffered + left < TWO32
  }

  /** A new buffer, or one just reset, holds no bytes. */
  lemma NothingPacked(heap: Heap, buf: Buffer, left: nat)
    requires buf.Valid() && buf.listed == [] && buf.Held() == {} && buf.max == buf.buffered == 0 && left < TWO32
    ensures Underway(heap, buf, heap.live, [], 0, left)
  {
  }

  /** One more packet behind a list of packets. */
  lemma {:induction false} OneMorePacket(ps: seq<Packet>, p: Packet)
    ensures EncodeAll(ps + [p]) == EncodeAll(ps) + Encode(p)
  {
    hide Encode;
    if ps == [] {
      assert ps + [p] == [p] && [p][1..] == [];
      assert Encode(p) + [] == [] + Encode(p);
    } else {
      assert (ps + [p])[1..] == ps[1..] + [p];
      OneMorePacket(ps[1..], p);
      assert Encode(ps[0]) + (EncodeAll(ps[1..]) + Encode(p)) == Encode(ps[0]) + EncodeAll(ps[1..]) + Encode(p);
    }
  }

  /** One extent that is being filled: bytes is what it holds so far. */
  ghost predicate Draft(buf: Buffer, ext: Extent, bytes: seq<byte>)
    reads buf`made, buf`listed, ext`len, ext`payload, ext`start, ext.home
  {
    && ext in buf.made && ext !in buf.listed && ext.OwnsPayload()
    && |ext.Room()| == ext.room && |bytes| <= ext.room && ext.Room()[..|bytes|] == bytes
  }

  ghost function Homes(es: seq<Extent>): set<array<byte>> {
    set e | e in es :: e.home
  }

  /** The extents of a packet, on no list yet. */
  ghost predicate Drafts(buf: Buffer, es: seq<Extent>, bs: seq<seq<byte>>)
    reads buf`made, buf`listed, es`len, es`payload, es`start, Homes(es)
  {
    && |es| == |bs| && (forall i, j :: 0 <= i < j < |es| ==> es[i] != es[j])
    && forall i :: 0 <= i < |es| ==> Draft(buf, es[i], bs[i])
  }

  /** A new extent for a packet that is being packed. */
  method NewDraft(heap: Heap, buf: Buffer, n: nat, ghost es: seq<Extent>, ghost bs: seq<seq<byte>>,
                  ghost base: set<object>, ghost flat: seq<byte>, ghost entries: nat, ghost left: nat)
    returns (ext: Extent)
    requires Underway(heap, buf, base, flat, entries, left) && Drafts(buf, es, bs)
    requires entries < 2 * MAX_ENTRIES && n + HEADER + ALIGNMENT <= TWO32
    modifies heap`live, buf.Footprint()
    ensures Underway(heap, buf, base, flat, entries + 1, left)
    ensures forall o :: o in buf.Footprint() ==> o in old(buf.Footprint()) || fresh(o)
    ensures Drafts(buf, es + [ext], bs + [[]]) && ext.room == ext.len == n && fresh(ext)
    ensures forall e :: e in es ==> e.len == old(e.len)
  {
    hide Flat, Payloads, Extent.Room, Buffer.Valid, Buffer.Held, Buffer.Footprint;
    buf.TableInFootprint();
    ext := buf.AllocExtent(heap, n);
    buf.OwnPayload(ext);
    assert forall i :: 0 <= i < |es| ==> old(Draft(buf, es[i], bs[i])) && es[i] != ext;
  }

  /** memcpy to the cursor of extent i. */
  method Put(heap: Heap, buf: Buffer, ext: Extent, cursor: nat, data: seq<byte>,
             ghost i: nat, ghost es: seq<Extent>, ghost bs: seq<seq<byte>>,
             ghost base: set<object>, ghost flat: seq<byte>, ghost entries: nat, ghost left: nat)
    requires Underway(heap, buf, base, flat, entries, left) && Drafts(buf, es, bs)
    requires i < |es| && ext == es[i] && cursor == |bs[i]| && cursor + |data| <= ext.room
    modifies ext.home
    ensures Underway(heap, buf, base, flat, entries, left) && Drafts(buf, es, bs[i := bs[i] + data])
    ensures buf.Footprint() == old(buf.Footprint())
  {
    hide Flat, Payloads, Extent.Room, Buffer.Valid, Buffer.Held, Buffer.Footprint;
    assert Draft(buf, ext, bs[i]);
    ghost var before := ext.Room();
    buf.Write(ext, cursor, data);
    assert ext.Room()[..cursor] == before[..cursor];
    assert ext.Room()[..cursor + |data|] == ext.Room()[..cursor] + ext.Room()[cursor..cursor + |data|];
    assert forall j :: 0 <= j < |es| && j != i ==> old(Draft(buf, es[j], bs[j])) && es[j] != ext;
  }

  /** The Remaining Length behind the first byte of a fixed header, which shrinks to what it needs. */
  method PutLength(heap: Heap, buf: Buffer, ext: Extent, len: nat,
                   ghost i: nat, ghost es: seq<Extent>, ghost bs: seq<seq<byte>>,
                   ghost base: set<object>, ghost flat: seq<byte>, ghost entries: nat, ghost left: nat)
    returns (ret: int)
    requires Underway(heap, buf, base, flat, entries, left) && Drafts(buf, es, bs)
    requires i < |es| && ext == es[i] && |bs[i]| == 1 && ext.room == 5
    modifies ext.home, ext`len
    ensures Underway(heap, buf, base, flat, entries, left) && buf.Footprint() == old(buf.Footprint())
    ensures ret < 0 <==> len >= MAX4
    ensures ret >= 0 ==> Drafts(buf, es, bs[i := bs[i] + Dump(len)]) && ext.len == 1 + |Dump(len)| <= 5
  {
    hide Flat, Parts, Concat, Payloads, Extent.Room, Dump, Buffer.Valid, Buffer.Held, Buffer.Footprint;
    assert Draft(buf, ext, bs[i]);
    ghost var before := ext.Room();
    ret := buf.WriteLength(ext, 1, len);
    ghost var parts := Parts(buf.listed);
    FlatFrom(buf.listed, parts);
    if ret >= 0 {
      assert len < MAX4 && 1 <= ret <= 4;
      DumpSize(len, ext.Room(), ret);
      ext.len := ret + 1;
      assert ext.Room()[..1] == before[..1];
      assert ext.Room()[..1 + ret] == ext.Room()[..1] + ext.Room()[1..1 + ret];
    }
    FlatFrom(buf.listed, parts);
    assert forall j :: 0 <= j < |es| && j != i ==> old(Draft(buf, es[j], bs[j])) && es[j] != ext;
  }

  lemma DumpSize(len: nat, room: seq<byte>, ret: int)
    requires 1 <= ret && 1 + ret <= |room| && room[1..1 + ret] == Dump(len)
    ensures |Dump(len)| == ret
  {
    hide Dump;
  }

  /** The first extent of a packet, hung on the list. */
  method AppendDraft(heap: Heap, buf: Buffer, ext: Extent, ghost es: seq<Extent>, ghost bs: seq<seq<byte>>,
                     ghost base: set<object>, ghost flat: seq<byte>, ghost entries: nat, ghost left: nat)
    requires Underway(heap, buf, base, flat, entries, left) && Drafts(buf, es, bs)
    requires es != [] && ext == es[0] && ext.len == |bs[0]| <= left
    modifies buf.Footprint()
    ensures Underway(heap, buf, base, flat + bs[0], entries, left - |bs[0]|) && Drafts(buf, es[1..], bs[1..])
    ensures buf.Footprint() == old(buf.Footprint()) && forall e :: e in es ==> e.len == old(e.len)
  {
    hide Flat, Payloads, Extent.Room, Buffer.Valid, Buffer.Held, Buffer.Footprint, PayloadIn;
    assert Draft(buf, ext, bs[0]);
    buf.OwnPayload(ext);
    buf.InFootprint(ext);
    buf.AppendExtent(ext);
    forall j | 0 <= j < |es[1..]| ensures Draft(buf, es[1..][j], bs[1..][j]) {
      assert old(Draft(buf, es[j + 1], bs[j + 1])) && es[j + 1] != ext;
    }
  }

  // ---------- acknowledgements ----------

  /** Mqtt_PackPubAckPkt, Mqtt_PackPubRecPkt, Mqtt_PackPubRelPkt and Mqtt_PackPubCompPkt. */
  method PackAck(heap: Heap, buf: Buffer, kind: int, id: Id,
                 ghost base: set<object>, ghost flat: seq<byte>, ghost entries: nat, ghost left: nat) returns (r: int)
    requires Underway(heap, buf, base, flat, entries, left) && entries < MAX_ENTRIES && left >= 4
    requires PUBACK <= kind <= PUBCOMP
    modifies heap`live, buf.Footprint()
    ensures forall o :: o in buf.Footprint() ==> o in old(buf.Footprint()) || fresh(o)
    ensures r == if id == 0 then INVALID_PARAMETER else NO_ERROR
    ensures r != NO_ERROR ==> Underway(heap, buf, base, flat, entries, left)
    ensures r == NO_ERROR ==> Underway(heap, buf, base, flat + Encode(Ack(kind, id)), entries + 1, left - 4)
  {
    hide Underway, Drafts, Encode, Ack, Write16, Buffer.Footprint;
    if id == 0 {
      return INVALID_PARAMETER;
    }
    NoDrafts(buf);
    var header: byte := kind * 16 + (if kind == PUBREL then 2 else 0);
    ghost var b0: seq<seq<byte>>, b1, b2, b3 := [[]], [[header]], [[header, 2]], [[header, 2] + Write16(id)];
    var ext := NewDraft(heap, buf, 4, [], [], base, flat, entries, left);
    ghost var es, more := [ext], entries + 1;
    assert [] + [ext] == es && [] + b0 == b0;
    DraftIsOurs(heap, buf, es, b0, 0, base, flat, more, left);
    Put(heap, buf, ext, 0, [header], 0, es, b0, base, flat, more, left);
    assert b0[0] + [header] == [header] && b0[0 := b0[0] + [header]] == b1;
    Put(heap, buf, ext, 1, [2], 0, es, b1, base, flat, more, left);
    assert b1[0] + [2] == [header, 2] && b1[0 := b1[0] + [2]] == b2;
    Put(heap, buf, ext, 2, Write16(id), 0, es, b2, base, flat, more, left);
    assert b2[0 := b2[0] + Write16(id)] == b3;
    AckBytes(kind, id);
    AppendDraft(heap, buf, ext, es, b3, base, flat, more, left);
    return NO_ERROR;
  }

  lemma AckBytes(kind: int, id: Id)
    requires PUBACK <= kind <= PUBCOMP
    ensures Encode(Ack(kind, id)) == [kind * 16 + (if kind == PUBREL then 2 else 0), 2] + Write16(id)
  {
  }

  lemma NoDrafts(buf: Buffer)
    ensures Drafts(buf, [], [])
  {
  }

  /** What may be written when an extent is filled. */
  lemma DraftIsOurs(heap: Heap, buf: Buffer, es: seq<Extent>, bs: seq<seq<byte>>, i: nat,
                    base: set<object>, flat: seq<byte>, entries: nat, left: nat)
    requires Underway(heap, buf, base, flat, entries, left) && Drafts(buf, es, bs) && i < |es|
    ensures es[i] in buf.Footprint() && es[i].home in buf.Footprint()
  {
    assert Draft(buf, es[i], bs[i]);
    buf.InFootprint(es[i]);
  }

  // ---------- PUBLISH ----------

  /** MqttBuffer_Append of the caller's bytes. */
  method AppendData(heap: Heap, buf: Buffer, data: array<byte>, from: nat, size: nat, own: bool,
                    ghost base: set<object>, ghost flat: seq<byte>, ghost entries: nat, ghost left: nat)
    requires Underway(heap, buf, base, flat, entries, left) && entries < 2 * MAX_ENTRIES && size <= left
    requires from + size <= data.Length && data !in buf.Footprint() && size + HEADER + ALIGNMENT <= TWO32
    modifies heap`live, buf.Footprint()
    ensures forall o :: o in buf.Footprint() ==> o in old(buf.Footprint()) || fresh(o)
    ensures Underway(heap, buf, base, flat + old(data[from..from + size]), entries + 1, left - size)
  {
    hide Flat, Payloads, Buffer.Valid, Buffer.Held;
    buf.TableInFootprint();
    DataIsOutside(buf, data);
    hide Buffer.Footprint;
    buf.Append(heap, data, from, size, own);
  }

  lemma DataIsOutside(buf: Buffer, data: array<byte>)
    requires data !in buf.Footprint()
    ensures data !in buf.chunks
  {
  }

  /** The first loop of Mqtt_PackPublishPkt. */
  method TopicLength(topic: Text) returns (n: nat, wild: bool)
    ensures wild <==> HasWildcard(topic)
    ensures !wild ==> n == |topic|
  {
    n := 0;
    while At(topic, n) != 0
      invariant 0 <= n <= |topic| && !HasWildcard(topic[..n])
      decreases |topic| - n
    {
      if topic[n] == HASH || topic[n] == PLUS {
        return n, true;
      }
      n := n + 1;
    }
    assert topic[..n] == topic;
    return n, false;
  }

  /** The fixed header of a packet, in its first extent. */
  method HeadOf(heap: Heap, buf: Buffer, head: Extent, header: byte, total: nat, ghost es: seq<Extent>,
                ghost bs: seq<seq<byte>>,
                ghost base: set<object>, ghost flat: seq<byte>, ghost entries: nat, ghost left: nat) returns (ret: int)
    requires Underway(heap, buf, base, flat, entries, left) && Drafts(buf, es, bs)
    requires |es| == |bs| > 0 && es[0] == head && bs[0] == [] && head.room == 5
    modifies head.home, head`len
    ensures Underway(heap, buf, base, flat, entries, left) && buf.Footprint() == old(buf.Footprint())
    ensures ret < 0 <==> total >= MAX4
    ensures ret >= 0 ==> Drafts(buf, es, bs[0 := [header] + Dump(total)]) && head.len == |[header] + Dump(total)| <= 5
  {
    hide Underway, Drafts, Dump;
    ghost var b1 := bs[0 := [header]];
    assert bs[0] + [header] == [header];
    Put(heap, buf, head, 0, [header], 0, es, bs, base, flat, entries, left);
    assert b1[0 := b1[0] + Dump(total)] == bs[0 := [header] + Dump(total)];
    ret := PutLength(heap, buf, head, total, 0, es, b1, base, flat, entries, left);
  }

  /** Two extents, hung on the list one after the other. */
  method AppendTwo(heap: Heap, buf: Buffer, head: Extent, ext: Extent, ghost b1: seq<byte>, ghost b2: seq<byte>,
                   ghost base: set<object>, ghost flat: seq<byte>, ghost entries: nat, ghost left: nat)
    requires Underway(heap, buf, base, flat, entries, left) && Drafts(buf, [head, ext], [b1, b2])
    requires head.len == |b1| && ext.len == |b2| && |b1| + |b2| <= left
    modifies buf.Footprint()
    ensures Underway(heap, buf, base, flat + (b1 + b2), entries, left - |b1| - |b2|)
    ensures buf.Footprint() == old(buf.Footprint())
  {
    hide Underway, Drafts, Buffer.Footprint;
    AppendDraft(heap, buf, head, [head, ext], [b1, b2], base, flat, entries, left);
    assert [head, ext][1..] == [ext] && [b1, b2][1..] == [b2];
    assert flat + b1 + b2 == flat + (b1 + b2);
    AppendDraft(heap, buf, ext, [ext], [b2], base, flat + b1, entries, left - |b1|);
  }

  /** The variable header of a PUBLISH: its topic, and its id when it has one. */
  method FillTopic(heap: Heap, buf: Buffer, head: Extent, ext: Extent, topic: Text, id: Id, qos: int,
                   ghost b1: seq<byte>,
                   ghost base: set<object>, ghost flat: seq<byte>, ghost entries: nat, ghost left: nat)
    requires Underway(heap, buf, base, flat, entries, left) && Drafts(buf, [head, ext], [b1, []])
    requires |topic| < 0x1_0000 && ext.room == |topic| + (if qos == 0 then 2 else 4)
    modifies ext.home
    ensures Underway(heap, buf, base, flat, entries, left) && buf.Footprint() == old(buf.Footprint())
    ensures Drafts(buf, [head, ext], [b1, TopicPart(topic, id, qos)])
  {
    hide Underway, Drafts, Write16;
    ghost var s, es := WriteString(topic), [head, ext];
    assert [] + s == s && [b1, []][1 := [] + s] == [b1, s];
    Put(heap, buf, ext, 0, WriteString(topic), 1, es, [b1, []], base, flat, entries, left);
    if qos != 0 {
      assert [b1, s][1 := s + Write16(id)] == [b1, s + Write16(id)];
      Put(heap, buf, ext, 2 + |topic|, Write16(id), 1, es, [b1, s], base, flat, entries, left);
    } else {
      assert s + [] == s;
    }
  }

  /** What Mqtt_PackPublishPkt answers. */
  function PublishCode(id: Id, topic: Text, size: nat, qos: int, signedChar: bool): int {
    if id == 0 || HasWildcard(topic) then INVALID_PARAMETER
    else if Walk(topic, 0, signedChar, false) != |topic| then NOT_UTF8
    else if qos !in {0, 1, 2} then INVALID_PARAMETER
    else if |topic| + size + (if qos == 0 then 2 else 4) >= MAX4 then PKT_TOO_LARGE
    else NO_ERROR
  }

  /** The topic of a PUBLISH, and its id when it has one. */
  function TopicPart(topic: Text, id: Id, qos: int): (s: seq<byte>)
    requires |topic| < 0x1_0000
    ensures |s| == |topic| + (if qos == 0 then 2 else 4)
  {
    WriteString(topic) + (if qos == 0 then [] else Write16(id))
  }

  lemma PublishParts(topic: Text, id: Id, payload: seq<byte>, qos: int, retain: bool)
    requires |topic| < 0x1_0000 && 0 <= qos <= 2
    ensures PublishPacket(topic, id, payload, qos, retain, false) ==
      Packet(PUBLISH * 16 + qos * 2 + (if retain then 1 else 0), TopicPart(topic, id, qos) + payload)
  {
    hide WriteString, Write16;
  }

  lemma EncodeInTwo(header: byte, rest: seq<byte>, payload: seq<byte>)
    ensures Encode(Packet(header, rest + payload)) == [header] + Dump(|rest| + |payload|) + rest + payload
  {
    hide Dump;
    Assoc([header] + Dump(|rest| + |payload|), rest, payload);
  }

  /** Mqtt_PackPublishPkt */
  method PackPublish(heap: Heap, buf: Buffer, id: Id, topic: Text, data: array<byte>, from: nat, size: nat,
                     qos: int, retain: bool, own: bool, signedChar: bool,
                     ghost base: set<object>, ghost flat: seq<byte>, ghost entries: nat, ghost left: nat)
    returns (r: int)
    requires Underway(heap, buf, base, flat, entries, left) && entries < MAX_ENTRIES
    requires |topic| < 0x1_0000 && |topic| + size + 9 <= left && left + HEADER + ALIGNMENT <= TWO32
    requires from + size <= data.Length && data !in buf.Footprint()
    modifies heap`live, buf.Footprint()
    ensures forall o :: o in buf.Footprint() ==> o in old(buf.Footprint()) || fresh(o)
    ensures r == PublishCode(id, topic, size, qos, signedChar)
    ensures r != NO_ERROR ==> Underway(heap, buf, base, flat, entries + 1, left)
    ensures r == NO_ERROR ==>
      && 0 <= qos <= 2
      && var packet := PublishPacket(topic, id, old(data[from..from + size]), qos, retain, false);
      Underway(heap, buf, base, flat + Encode(packet), entries + 3, left - |topic| - size - 9)
  {
    hide Underway, Drafts, Encode, Write16, Dump, Walk, HasWildcard, Buffer.Footprint;
    if id == 0 {
      MoreEntries(heap, buf, base, flat, entries, left);
      return INVALID_PARAMETER;
    }
    PayloadsAreAllocated(buf.listed);
    var topicLen, wild := TopicLength(topic);
    if wild {
      MoreEntries(heap, buf, base, flat, entries, left);
      return INVALID_PARAMETER;
    }
    var walked := CheckUtf8(topic, signedChar);
    if walked != topicLen {
      MoreEntries(heap, buf, base, flat, entries, left);
      return NOT_UTF8;
    }
    r := PackCheckedPublish(heap, buf, id, topic, data, from, size, qos, retain, own, base, flat, entries, left);
  }

  lemma MoreEntries(heap: Heap, buf: Buffer, base: set<object>, flat: seq<byte>, entries: nat, left: nat)
    requires Underway(heap, buf, base, flat, entries, left)
    ensures Underway(heap, buf, base, flat, entries + 1, left)
  {
  }

  lemma LessLeft(heap: Heap, buf: Buffer, base: set<object>, flat: seq<byte>, entries: nat, left: nat, less: nat)
    requires Underway(heap, buf, base, flat, entries, left) && less <= left
    ensures Underway(heap, buf, base, flat, entries, less)
  {
  }

  /** The two extents in front of the payload of a PUBLISH, or an error. */
  method PackTopic(heap: Heap, buf: Buffer, id: Id, topic: Text, size: nat, qos: int, header: byte,
                   ghost base: set<object>, ghost flat: seq<byte>, ghost entries: nat, ghost left: nat) returns (r: int)
    requires Underway(heap, buf, base, flat, entries, left) && entries < MAX_ENTRIES
    requires |topic| < 0x1_0000 && |topic| + size + 9 <= left && left + HEADER + ALIGNMENT <= TWO32
    modifies heap`live, buf.Footprint()
    ensures forall o :: o in buf.Footprint() ==> o in old(buf.Footprint()) || fresh(o)
    ensures r == if qos !in {0, 1, 2} then INVALID_PARAMETER
                 else if |topic| + size + (if qos == 0 then 2 else 4) >= MAX4 then PKT_TOO_LARGE else NO_ERROR
    ensures r != NO_ERROR ==> Underway(heap, buf, base, flat, entries + 1, left)
    ensures r == NO_ERROR ==>
      var rest := TopicPart(topic, id, qos);
      Underway(heap, buf, base, flat + ([header] + Dump(|rest| + size) + rest), entries + 2, left - |topic| - 9)
  {
    hide Underway, Drafts, TopicPart, Dump, Buffer.Footprint;
    ghost var none: seq<seq<byte>> := [[]];
    NoDrafts(buf);
    var head := NewDraft(heap, buf, 5, [], [], base, flat, entries, left);
    if qos !in {0, 1, 2} {
      return INVALID_PARAMETER;
    }
    assert [] + [head] == [head] && [] + none == none;
    DraftIsOurs(heap, buf, [head], none, 0, base, flat, entries + 1, left);
    var total := |topic| + size + 2 + (if qos == 0 then 0 else 2);
    ghost var b1 := [header] + Dump(total);
    assert none[0 := b1] == [b1];
    var ret := HeadOf(heap, buf, head, header, total, [head], none, base, flat, entries + 1, left);
    if ret < 0 {
      return PKT_TOO_LARGE;
    }
    assert head in [head];
    var ext := NewDraft(heap, buf, total - size, [head], [b1], base, flat, entries + 1, left);
    assert [head] + [ext] == [head, ext] && [b1] + none == [b1, []];
    DraftIsOurs(heap, buf, [head, ext], [b1, []], 1, base, flat, entries + 2, left);
    FillTopic(heap, buf, head, ext, topic, id, qos, b1, base, flat, entries + 2, left);
    ghost var rest := TopicPart(topic, id, qos);
    AppendTwo(heap, buf, head, ext, b1, rest, base, flat, entries + 2, left);
    LessLeft(heap, buf, base, flat + (b1 + rest), entries + 2, left - |b1| - |rest|, left - |topic| - 9);
    r := NO_ERROR;
  }

  /** The part of Mqtt_PackPublishPkt behind the checks of id and topic. */
  method PackCheckedPublish(heap: Heap, buf: Buffer, id: Id, topic: Text, data: array<byte>, from: nat, size: nat,
                            qos: int, retain: bool, own: bool,
                            ghost base: set<object>, ghost flat: seq<byte>, ghost entries: nat, ghost left: nat)
    returns (r: int)
    requires Underway(heap, buf, base, flat, entries, left) && entries < MAX_ENTRIES
    requires |topic| < 0x1_0000 && |topic| + size + 9 <= left && left + HEADER + ALIGNMENT <= TWO32
    requires from + size <= data.Length && data !in buf.Footprint()
    modifies heap`live, buf.Footprint()
    ensures forall o :: o in buf.Footprint() ==> o in old(buf.Footprint()) || fresh(o)
    ensures r == if qos !in {0, 1, 2} then INVALID_PARAMETER
                 else if |topic| + size + (if qos == 0 then 2 else 4) >= MAX4 then PKT_TOO_LARGE else NO_ERROR
    ensures r != NO_ERROR ==> Underway(heap, buf, base, flat, entries + 1, left)
    ensures r == NO_ERROR ==>
      && 0 <= qos <= 2
      && var packet := PublishPacket(topic, id, old(data[from..from + size]), qos, retain, false);
      Underway(heap, buf, base, flat + Encode(packet), entries + 3, left - |topic| - size - 9)
  {
    hide Underway, Encode, TopicPart, Dump, PublishPacket, Buffer.Footprint;
    ghost var payload := data[from..from + size];
    var header: byte := PUBLISH * 16 + (if 0 <= qos <= 2 then qos * 2 else 0) + (if retain then 1 else 0);
    r := PackTopic(heap, buf, id, topic, size, qos, header, base, flat, entries, left);
    if r == NO_ERROR {
      ghost var rest := TopicPart(topic, id, qos);
      ghost var front, more, left' := [header] + Dump(|rest| + size) + rest, entries + 2, left - |topic| - 9;
      PublishParts(topic, id, payload, qos, retain);
      EncodeInTwo(header, rest, payload);
      Assoc(flat, front, payload);
      if size != 0 {
        AppendData(heap, buf, data, from, size, own, base, flat + front, more, left');
      } else {
        assert flat + front + payload == flat + front;
        MoreEntries(heap, buf, base, flat + front, more, left');
      }
    }
  }
}
