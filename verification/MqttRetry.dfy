/** Marking a packed PUBLISH as a duplicate. */
module MqttRetry {
  import opened Bytes
  import opened MqttPacket
  import opened MqttDispatch
  import opened MqttBuffer
  import opened MqttPack
  import opened MqttSend

  /** b | 0x08 */
  function WithDup(b: byte): byte {
    if b / 8 % 2 == 1 then b else b + 8
  }

  lemma ConcatChanges(parts: seq<seq<byte>>, first: seq<byte>)
    requires parts != []
    ensures Concat(parts[0 := first]) == first + Concat(parts[1..])
  {
    assert parts[0 := first][1..] == parts[1..];
  }

  /** Mqtt_SetPktDup, on a buffer that holds something; it reads the first byte before it looks for one. */
  method SetPktDup(buf: Buffer) returns (r: int)
    requires buf.Valid() && buf.listed != [] && buf.listed[0].OwnsPayload() && buf.listed[0].len > 0
    modifies buf.listed[0].home
    ensures buf.Valid()
    ensures var s := old(Flat(buf.listed));
      && |s| > 0
      && r == (if s[0] / 16 == PUBLISH then NO_ERROR else INVALID_PARAMETER)
      && Flat(buf.listed) == if r == NO_ERROR then [WithDup(s[0])] + s[1..] else s
  {
    hide Buffer.Valid, Parts, Concat, Payloads;
    ghost var ext, parts := buf.listed[0], Parts(buf.listed);
    FirstByte(buf);
    StartsAtFirst(buf);
    var head := buf.first;
    var first := head.payload[head.start];
    if first / 16 != PUBLISH {
      return INVALID_PARAMETER;
    }
    ghost var before := head.home[..];
    head.payload[head.start] := WithDup(first);
    assert buf.OnlyRoomChanged(head, before);
    ghost var now := [WithDup(first)] + parts[0][1..];
    assert head.Payload() == now;
    forall i | 0 <= i < |buf.listed| ensures buf.listed[i].Payload() == parts[0 := now][i] {
      if i > 0 {
        Others(buf, i);
        buf.OthersKeep(head, before, buf.listed[i]);
      }
    }
    FlatFrom(buf.listed, parts[0 := now]);
    ConcatChanges(parts, now);
    return NO_ERROR;
  }

  lemma ConcatHead(parts: seq<seq<byte>>)
    requires parts != []
    ensures Concat(parts) == parts[0] + Concat(parts[1..])
  {
  }

  lemma FirstByte(buf: Buffer)
    requires buf.Valid() && buf.listed != [] && buf.listed[0].OwnsPayload() && buf.listed[0].len > 0
    ensures var ext := buf.listed[0];
      && ext in buf.made && ext.at + HEADER + ext.room <= ext.home.Length
      && Parts(buf.listed)[0] == ext.home[ext.start..ext.start + ext.len]
      && Flat(buf.listed) == ext.home[ext.start..ext.start + ext.len] + Concat(Parts(buf.listed)[1..])
  {
    var ext := buf.listed[0];
    assert ext in buf.listed && ext in buf.made;
    buf.Bounds(ext);
    ConcatHead(Parts(buf.listed));
    hide Buffer.Valid, Parts, Concat;
  }

  lemma Others(buf: Buffer, i: nat)
    requires buf.Valid() && 0 < i < |buf.listed|
    ensures buf.listed[i] != buf.listed[0] && buf.listed[i] in buf.listed && buf.listed[i] in buf.made
  {
    hide Buffer.TableValid, Cursor, Layout, PayloadsIn, Total;
    assert buf.listed[i] in buf.listed;
  }

  /** It makes of a packed PUBLISH the same PUBLISH, marked as a duplicate. */
  lemma DupOfPublish(topic: seq<byte>, id: Id, payload: seq<byte>, qos: int, retain: bool)
    requires |topic| < 0x1_0000 && 0 <= qos <= 2
    ensures var s := Encode(PublishPacket(topic, id, payload, qos, retain, false));
      && s[0] / 16 == PUBLISH
      && [WithDup(s[0])] + s[1..] == Encode(PublishPacket(topic, id, payload, qos, retain, true))
  {
    var p := PublishPacket(topic, id, payload, qos, retain, false);
    var d := PublishPacket(topic, id, payload, qos, retain, true);
    assert p.body == d.body && WithDup(p.header) == d.header;
    hide PublishPacket;
    assert Encode(p)[1..] == Encode(d)[1..];
  }
}
