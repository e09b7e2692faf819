/** MQTT packets as bytes: what the packers write. */
module MqttPacket {
  import opened Bytes
  import opened MqttLength

  /** A packet as the framer hands it on: the first byte, and the body that Remaining Length counts. */
  datatype Packet = Packet(header: byte, body: seq<byte>)

  /** A packet on the line (section 2 of MQTT 3.1.1). */
  function Encode(p: Packet): seq<byte> {
    [p.header] + Dump(|p.body|) + p.body
  }

  function EncodeAll(ps: seq<Packet>): seq<byte> {
    if ps == [] then [] else Encode(ps[0]) + EncodeAll(ps[1..])
  }

  const CONNACK: int := 2
  const PUBLISH: int := 3
  const PUBACK: int := 4
  const PUBREC: int := 5
  const PUBREL: int := 6
  const PUBCOMP: int := 7
  const SUBSCRIBE: int := 8
  const SUBACK: int := 9
  const UNSUBSCRIBE: int := 10
  const UNSUBACK: int := 11
  const PINGRESP: int := 13

  type Id = i: int | 0 <= i < 0x1_0000

  /** Mqtt_WB16 */
  function Write16(v: Id): (s: seq<byte>)
    ensures |s| == 2
  {
    [v / 256, v % 256]
  }

  /** Mqtt_RB16 */
  function Read16(hi: byte, lo: byte): Id {
    hi * 256 + lo
  }

  lemma Read16Write16(v: Id)
    ensures Read16(Write16(v)[0], Write16(v)[1]) == v
  {
  }

  /** Mqtt_PktWriteString, for a string its two length bytes can count. */
  function WriteString(s: seq<byte>): seq<byte>
    requires |s| < 0x1_0000
  {
    Write16(|s|) + s
  }

  /** The four-byte packets PUBACK, PUBREC, PUBREL and PUBCOMP; PUBREL carries flags 2. */
  function Ack(kind: int, id: Id): Packet
    requires PUBACK <= kind <= PUBCOMP
  {
    Packet(kind * 16 + (if kind == PUBREL then 2 else 0), Write16(id))
  }

  /** The packet Mqtt_PackPublishPkt builds, with the DUP flag of Mqtt_SetPktDup. */
  function PublishPacket(topic: seq<byte>, id: Id, payload: seq<byte>, qos: int, retain: bool, dup: bool): Packet
    requires |topic| < 0x1_0000 && 0 <= qos <= 2
  {
    Packet(PUBLISH * 16 + (if dup then 8 else 0) + qos * 2 + (if retain then 1 else 0),
           WriteString(topic) + (if qos == 0 then [] else Write16(id)) + payload)
  }

  function WriteTopics(topics: seq<seq<byte>>, after: seq<byte>): seq<byte>
    requires forall i :: 0 <= i < |topics| ==> |topics[i]| < 0x1_0000
  {
    if topics == [] then [] else WriteString(topics[0]) + after + WriteTopics(topics[1..], after)
  }

  /** The packets of Mqtt_PackSubscribePkt and Mqtt_PackUnsubscribePkt: both leave the flags zero,
      where sections 3.8.1 and 3.10.1 of MQTT 3.1.1 ask for 2. */
  function SubscribePacket(id: Id, qos: byte, topics: seq<seq<byte>>): Packet
    requires forall i :: 0 <= i < |topics| ==> |topics[i]| < 0x1_0000
  {
    Packet(SUBSCRIBE * 16, Write16(id) + WriteTopics(topics, [qos]))
  }

  function UnsubscribePacket(id: Id, topics: seq<seq<byte>>): Packet
    requires forall i :: 0 <= i < |topics| ==> |topics[i]| < 0x1_0000
  {
    Packet(UNSUBSCRIBE * 16, Write16(id) + WriteTopics(topics, []))
  }
}
