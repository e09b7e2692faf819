/** How a handler answers: a buffer of its own, packed, sent, compared and thrown away. */
module MqttAnswer {
  import opened Bytes
  import opened Memory
  import opened MqttPacket
  import opened MqttDispatch
  import opened MqttBuffer
  import opened MqttPack
  import opened MqttSend
  import MqttExchange

  lemma StartIsBoundary(parts: seq<seq<byte>>)
    ensures IsBoundary(parts, 0)
  {
    assert parts[..0] == [] && |Concat([])| == 0;
  }

  lemma AckHasFour(kind: int, id: Id)
    requires PUBACK <= kind <= PUBCOMP
    ensures |Encode(Ack(kind, id))| == 4
  {
    AckBytes(kind, id);
  }

  /** The answer of a handler: its bytes go to writev_func, its code says whether all were taken, and no
      memory is left behind. */
  method SendAnswer(heap: Heap, kind: int, id: Id, written: seq<byte> -> int) returns (code: int)
    requires PUBACK <= kind <= PUBCOMP && id != 0
    modifies heap`live
    ensures code == if written(Encode(Ack(kind, id))) == |Encode(Ack(kind, id))| then NO_ERROR else FAILED_SEND_RESPONSE
    ensures heap.live == old(heap.live)
  {
    hide Encode, Ack, Buffer.Held, Buffer.Footprint, Buffer.Valid, Underway, Flat, Payloads;
    ghost var base, bytes := heap.live, Encode(Ack(kind, id));
    var buf := new Buffer();
    AnswerStarts(heap, buf);
    var packed := PackAck(heap, buf, kind, id, base, [], 0, 4);
    assert [] + bytes == bytes;
    AckHasFour(kind, id);
    UnderwayIs(heap, buf, base, bytes, 1, 0);
    code := SendAll(buf, bytes, written);
    HeldIsOurs(heap, buf);
    buf.Reset(heap);
  }

  lemma AnswerStarts(heap: Heap, buf: Buffer)
    requires buf.Valid() && buf.listed == [] && buf.Held() == {} && buf.max == buf.buffered == 0
    requires buf.made == []
    ensures Underway(heap, buf, heap.live, [], 0, 4) && buf.Footprint() == {buf}
  {
    NothingPacked(heap, buf, 4);
    hide Underway, Buffer.Valid;
  }

  lemma HeldIsOurs(heap: Heap, buf: Buffer)
    ensures buf.Held() <= buf.Footprint() && heap !in buf.Held()
  {
  }

  lemma UnderwayIs(heap: Heap, buf: Buffer, base: set<object>, flat: seq<byte>, entries: nat, left: nat)
    requires Underway(heap, buf, base, flat, entries, left)
    ensures buf.Valid() && Flat(buf.listed) == flat && heap.live == base + buf.Held() && base !! buf.Held()
  {
    hide Buffer.Valid, Buffer.Held, Flat;
  }

  /** Mqtt_SendPkt of a whole buffer, and the comparison with buffered_bytes. */
  method SendAll(buf: Buffer, ghost bytes: seq<byte>, written: seq<byte> -> int) returns (code: int)
    requires buf.Valid() && Flat(buf.listed) == bytes != []
    ensures code == if written(bytes) == |bytes| then NO_ERROR else FAILED_SEND_RESPONSE
  {
    hide Buffer.Valid, Parts, Concat, IsBoundary, Flat, Payloads;
    StartIsBoundary(Parts(buf.listed));
    assert bytes[0..] == bytes;
    StartsAtFirst(buf);
    FlatIs(buf.listed);
    assert buf.buffered == |bytes|;
    PayloadsAreAllocated(buf.listed);
    FlatFrom(buf.listed, Parts(buf.listed));
    var sent := SendBytes(buf, 0, written);
    code := if sent == buf.buffered then NO_ERROR else FAILED_SEND_RESPONSE;
  }

  lemma AckParts(kind: int, id: Id)
    requires PUBACK <= kind <= PUBCOMP
    ensures var a := Ack(kind, id); a.header / 16 == kind && |a.body| == 2 && Read16(a.body[0], a.body[1]) == id
  {
    Read16Write16(id);
  }

  /** A handler from its verdict on: what it returns is what its reaction says. */
  method Respond(heap: Heap, p: Packet, signedChar: bool, answer: Callback -> int, written: seq<byte> -> int)
    returns (code: int)
    modifies heap`live
    ensures code == React(PacketVerdict(p, signedChar), answer, written).code && heap.live == old(heap.live)
  {
    hide PacketVerdict, Encode;
    var v := PacketVerdict(p, signedChar);
    if v.Illegal? {
      return ILLEGAL_PKT;
    }
    code := NO_ERROR;
    if v.Call? {
      code := answer(v.call);
    }
    if code >= 0 && AnswerTo(v).Reply? {
      ghost var kind, id := MqttExchange.AnswerHasId(p, signedChar);
      AckParts(kind, id);
      var a := AnswerTo(v).packet;
      code := SendAnswer(heap, a.header / 16, Read16(a.body[0], a.body[1]), written);
    }
  }
}
