/** Two endpoints: what one packs the other accepts, and how the packets of a QoS exchange run out. */
module MqttExchange {
  import opened Bytes
  import opened Utf8Check
  import opened MqttPacket
  import opened MqttDispatch

  // ---------- publishing ----------

  /** What Mqtt_PackPublishPkt asks of a topic, a C string that two length bytes can count. */
  predicate Packable(topic: seq<byte>, signedChar: bool) {
    && NulFree(topic) && |topic| < 0x1_0000
    && !HasWildcard(topic)
    && Walk(topic, 0, signedChar, false) == |topic|
  }

  lemma {:induction false} CStringOfNulFree(s: seq<byte>)
    requires NulFree(s)
    ensures CString(s) == s
  {
    if s != [] {
      CStringOfNulFree(s[1..]);
      assert [s[0]] + s[1..] == s;
    }
  }

  lemma PublishBody(topic: seq<byte>, id: Id, payload: seq<byte>, qos: Qos, retain: bool, dup: bool)
    requires |topic| < 0x1_0000
    ensures var p := PublishPacket(topic, id, payload, qos, retain, dup);
            var n := |topic|;
            var k := if qos == 0 then 2 + n else 4 + n;
            && p.header / 16 == PUBLISH
            && (p.header % 16 >= 8 <==> dup) && p.header % 16 / 2 % 4 == qos && (p.header % 2 == 1 <==> retain)
            && |p.body| >= k && Read16(p.body[0], p.body[1]) == n
            && p.body[2..2 + n] == topic && p.body[k..] == payload
            && (qos > 0 ==> Read16(p.body[n + 2], p.body[n + 3]) == id)
  {
    Read16Write16(|topic|);
    Read16Write16(id);
    FirstByte(qos, retain, dup);
    hide Read16, Write16;
    var p, w := PublishPacket(topic, id, payload, qos, retain, dup), Write16(|topic|);
    var v := if qos == 0 then [] else Write16(id);
    assert p.body == w + topic + v + payload;
    assert p.body[0] == w[0] && p.body[1] == w[1];
    if qos > 0 {
      assert p.body[|topic| + 2] == Write16(id)[0] && p.body[|topic| + 3] == Write16(id)[1];
    }
  }

  lemma FirstByte(qos: Qos, retain: bool, dup: bool)
    ensures var b := PUBLISH * 16 + (if dup then 8 else 0) + qos * 2 + (if retain then 1 else 0);
      && b / 16 == PUBLISH && (b % 16 >= 8 <==> dup) && b % 16 / 2 % 4 == qos && (b % 2 == 1 <==> retain)
  {
  }

  /** A packed PUBLISH is delivered, topic, payload, id, DUP and QoS alike, iff it is not retained, is no
      QoS 0 packet marked DUP, and has no topic under $; a topic under $ is a command or is only answered. */
  lemma PublishIsDelivered(topic: seq<byte>, id: Id, payload: seq<byte>, qos: Qos, retain: bool, dup: bool,
                           signedChar: bool)
    requires Packable(topic, signedChar) && id != 0
    ensures var v := PacketVerdict(PublishPacket(topic, id, payload, qos, retain, dup), signedChar);
            var id' := if qos == 0 then 0 else id;
            && (v == Call(OnPublish(id', topic, payload, dup, qos))
                <==> !retain && !(qos == 0 && dup) && At(topic, 0) != DOLLAR)
            && (v == Call(OnCommand(id', topic, payload, dup, qos))
                <==> !retain && !(qos == 0 && dup) && StartsWith(topic, COMMAND_PREFIX))
            && (v.Illegal? <==> retain || (qos == 0 && dup))
  {
    assert |topic| < 0x1_0000;
    hide PublishPacket, Walk, CString, HasWildcard, Packable, TopicVerdict, PacketVerdict;
    PublishReaches(topic, id, payload, qos, retain, dup, signedChar);
    PackableTopic(topic, if qos == 0 then 0 else id, payload, dup, qos, signedChar);
  }

  /** A packed PUBLISH gets as far as its topic. */
  lemma PublishReaches(topic: seq<byte>, id: Id, payload: seq<byte>, qos: Qos, retain: bool, dup: bool,
                       signedChar: bool)
    requires |topic| < 0x1_0000 && id != 0
    ensures PacketVerdict(PublishPacket(topic, id, payload, qos, retain, dup), signedChar) ==
      if retain || (qos == 0 && dup) then Illegal
      else TopicVerdict(topic, if qos == 0 then 0 else id, payload, dup, qos, signedChar)
  {
    hide PublishPacket, Read16, TopicVerdict, PacketVerdict;
    PublishBody(topic, id, payload, qos, retain, dup);
    DispatchedAsPublish(PublishPacket(topic, id, payload, qos, retain, dup), signedChar);
  }

  lemma DispatchedAsPublish(p: Packet, signedChar: bool)
    requires p.header / 16 == PUBLISH
    ensures PacketVerdict(p, signedChar) == PublishVerdict(p.header % 16, p.body, signedChar)
  {
    hide PublishVerdict;
  }

  lemma PackableTopic(topic: seq<byte>, id: Id, payload: seq<byte>, dup: bool, qos: Qos, signedChar: bool)
    requires Packable(topic, signedChar)
    ensures TopicVerdict(topic, id, payload, dup, qos, signedChar) ==
      if At(topic, 0) != DOLLAR then Call(OnPublish(id, topic, payload, dup, qos))
      else if StartsWith(topic, COMMAND_PREFIX) then Call(OnCommand(id, topic, payload, dup, qos))
      else Ignored(id, qos)
    ensures StartsWith(topic, COMMAND_PREFIX) ==> At(topic, 0) == DOLLAR
  {
    CStringOfNulFree(topic);
    hide Walk, CString, HasWildcard;
    assert StartsWith(topic, COMMAND_PREFIX) ==> topic[0] == topic[..5][0] == DOLLAR;
  }

  /** Every acknowledgement packed is accepted, with the same id. */
  lemma AckIsAccepted(kind: int, id: Id, signedChar: bool)
    requires PUBACK <= kind <= PUBCOMP && id != 0
    ensures PacketVerdict(Ack(kind, id), signedChar) ==
      Call(if kind == PUBACK then OnPubAck(id) else if kind == PUBREC then OnPubRec(id)
           else if kind == PUBREL then OnPubRel(id) else OnPubComp(id))
  {
    Read16Write16(id);
    hide Read16, Write16;
  }

  // ---------- an unordered channel between two endpoints ----------

  datatype Side = A | B

  function Other(s: Side): Side {
    if s == A then B else A
  }

  /** A packet on its way. */
  datatype Message = Message(to: Side, packet: Packet)

  /** What delivering a message puts on its way back, when callbacks succeed and writes are complete. */
  function Replies(m: Message, signedChar: bool): seq<Message> {
    match AnswerTo(PacketVerdict(m.packet, signedChar))
    case Nothing => []
    case Reply(p) => [Message(Other(m.to), p)]
  }

  /** How many deliveries a message leads to, its own included. */
  function Rank(v: Verdict): (n: nat)
    ensures 1 <= n <= 4
  {
    match v
    case Illegal => 1
    case Ignored(_, qos) => PublishRank(qos)
    case Call(OnPublish(_, _, _, _, qos)) => PublishRank(qos)
    case Call(OnCommand(_, _, _, _, qos)) => PublishRank(qos)
    case Call(OnPubRec(_)) => 3
    case Call(OnPubRel(_)) => 2
    case Call(_) => 1
  }

  function PublishRank(qos: Qos): nat {
    if qos == 0 then 1 else if qos == 1 then 2 else 4
  }

  /** An answer always has an id, is always accepted, and is one step nearer the end. */
  lemma RepliesAreNearer(m: Message, signedChar: bool)
    ensures forall r :: r in Replies(m, signedChar) ==>
      var v := PacketVerdict(r.packet, signedChar);
      && v.Call? && Rank(v) == Rank(PacketVerdict(m.packet, signedChar)) - 1
    ensures Replies(m, signedChar) == [] <==> Rank(PacketVerdict(m.packet, signedChar)) == 1
  {
    var v := PacketVerdict(m.packet, signedChar);
    if AnswerTo(v).Reply? {
      var kind, id := AnswerHasId(m.packet, signedChar);
      AckIsAccepted(kind, id, signedChar);
      hide PacketVerdict, Ack;
    }
  }

  lemma AnswerHasId(p: Packet, signedChar: bool) returns (kind: int, id: Id)
    requires AnswerTo(PacketVerdict(p, signedChar)).Reply?
    ensures PUBACK <= kind <= PUBCOMP && id != 0
    ensures AnswerTo(PacketVerdict(p, signedChar)).packet == Ack(kind, id)
    ensures Rank(PacketVerdict(p, signedChar)) ==
      1 + (if kind == PUBREC then 3 else if kind == PUBREL then 2 else 1)
  {
    var v := PacketVerdict(p, signedChar);
    match v
    case Ignored(i, qos) => kind, id := if qos == 1 then PUBACK else PUBREC, i;
    case Call(OnPublish(i, _, _, _, qos)) => kind, id := if qos == 1 then PUBACK else PUBREC, i;
    case Call(OnCommand(i, _, _, _, qos)) => kind, id := if qos == 1 then PUBACK else PUBREC, i;
    case Call(OnPubRec(i)) => kind, id := PUBREL, i;
    case Call(OnPubRel(i)) => kind, id := PUBCOMP, i;
  }

  /** What handling a packet does: a refused one nothing; a callback that fails is not answered, and its code is
      returned; else the replies are sent, and a write that is not complete is -14. */
  lemma HandledAs(m: Message, answer: Callback -> int, written: seq<byte> -> int, signedChar: bool)
    ensures var v, replies := PacketVerdict(m.packet, signedChar), Replies(m, signedChar);
            var r := React(v, answer, written);
            && (v.Illegal? ==> r == Reaction(-4, [], []) && replies == [])
            && (v.Call? && answer(v.call) < 0 ==> r == Reaction(answer(v.call), [v.call], []))
            && (!v.Illegal? && !(v.Call? && answer(v.call) < 0) ==>
                  && r.calls == (if v.Call? then [v.call] else []) && |r.sent| == |replies| <= 1
                  && (replies == [] ==> r.code == if v.Call? then answer(v.call) else 0)
                  && (replies != [] ==>
                        && r.sent == [Encode(replies[0].packet)]
                        && r.code == if written(r.sent[0]) == |r.sent[0]| then 0 else -14))
  {
    hide PacketVerdict, Encode;
  }

  /** Replies are what the handlers send, when callbacks succeed and writes are complete. */
  lemma RepliesAreSent(m: Message, answer: Callback -> int, written: seq<byte> -> int, signedChar: bool)
    requires forall c :: answer(c) >= 0
    requires forall b :: written(b) == |b|
    ensures var v := PacketVerdict(m.packet, signedChar);
            var r := React(v, answer, written);
            && (r.code >= 0 <==> !v.Illegal?)
            && |r.sent| == |Replies(m, signedChar)|
            && forall i :: 0 <= i < |r.sent| ==> r.sent[i] == Encode(Replies(m, signedChar)[i].packet)
  {
    hide PacketVerdict, Encode;
  }

  /** All deliveries a message leads to, in order. */
  function Chain(m: Message, signedChar: bool): seq<Message>
    decreases Rank(PacketVerdict(m.packet, signedChar))
  {
    var replies := Replies(m, signedChar);
    RepliesAreNearer(m, signedChar);
    if replies == [] then [m] else [m] + Chain(replies[0], signedChar)
  }

  function Chains(net: seq<Message>, signedChar: bool): multiset<Message> {
    if net == [] then multiset{} else multiset(Chain(net[0], signedChar)) + Chains(net[1..], signedChar)
  }

  /** The network after its message at index i has been delivered. The choice of i is the channel's. */
  function Deliver(net: seq<Message>, i: nat, signedChar: bool): seq<Message>
    requires i < |net|
  {
    net[..i] + net[i + 1..] + Replies(net[i], signedChar)
  }

  predicate IsDelivery(net: seq<Message>, choices: seq<nat>, signedChar: bool)
    decreases |choices|
  {
    choices == []
    || (choices[0] < |net| && IsDelivery(Deliver(net, choices[0], signedChar), choices[1..], signedChar))
  }

  function Delivered(net: seq<Message>, choices: seq<nat>, signedChar: bool): seq<Message>
    requires IsDelivery(net, choices, signedChar)
    decreases |choices|
  {
    if choices == [] then []
    else [net[choices[0]]] + Delivered(Deliver(net, choices[0], signedChar), choices[1..], signedChar)
  }

  function After(net: seq<Message>, choices: seq<nat>, signedChar: bool): seq<Message>
    requires IsDelivery(net, choices, signedChar)
    decreases |choices|
  {
    if choices == [] then net
    else After(Deliver(net, choices[0], signedChar), choices[1..], signedChar)
  }

  lemma {:induction false} ChainsConcat(a: seq<Message>, b: seq<Message>, signedChar: bool)
    ensures Chains(a + b, signedChar) == Chains(a, signedChar) + Chains(b, signedChar)
  {
    hide Chain;
    if a == [] {
      assert a + b == b;
    } else {
      assert (a + b)[1..] == a[1..] + b;
      ChainsConcat(a[1..], b, signedChar);
    }
  }

  lemma ChainsOfOne(m: Message, signedChar: bool)
    ensures Chains([m], signedChar) == multiset(Chain(m, signedChar))
  {
    hide Chain;
    assert [m][1..] == [];
  }

  lemma ChainStep(m: Message, signedChar: bool)
    ensures multiset(Chain(m, signedChar)) == multiset{m} + Chains(Replies(m, signedChar), signedChar)
  {
    hide Replies;
    var replies := Replies(m, signedChar);
    if replies != [] {
      assert |replies| == 1 && replies == [replies[0]] by { OneReply(m, signedChar); }
      ChainsOfOne(replies[0], signedChar);
    }
  }

  lemma OneReply(m: Message, signedChar: bool)
    ensures |Replies(m, signedChar)| <= 1
  {
  }

  /** Delivering a message takes just that message off what is still to come. */
  lemma DeliveryConserves(net: seq<Message>, i: nat, signedChar: bool)
    requires i < |net|
    ensures Chains(net, signedChar) == multiset{net[i]} + Chains(Deliver(net, i, signedChar), signedChar)
  {
    hide Chain, Replies, Chains;
    var m := net[i];
    var rest := net[..i] + net[i + 1..];
    assert net == net[..i] + ([m] + net[i + 1..]);
    ChainsConcat(net[..i], [m] + net[i + 1..], signedChar);
    ChainsConcat([m], net[i + 1..], signedChar);
    ChainsConcat(net[..i], net[i + 1..], signedChar);
    ChainsConcat(rest, Replies(m, signedChar), signedChar);
    ChainsOfOne(m, signedChar);
    ChainStep(m, signedChar);
  }

  /** In any order of delivery: what has been delivered, with what is still to come, is what was to come. */
  lemma {:induction false} RunConserves(net: seq<Message>, choices: seq<nat>, signedChar: bool)
    requires IsDelivery(net, choices, signedChar)
    ensures Chains(net, signedChar)
         == multiset(Delivered(net, choices, signedChar)) + Chains(After(net, choices, signedChar), signedChar)
    ensures |Delivered(net, choices, signedChar)| == |choices|
    decreases |choices|
  {
    hide Chains, Deliver;
    if choices != [] {
      var next := Deliver(net, choices[0], signedChar);
      DeliveryConserves(net, choices[0], signedChar);
      RunConserves(next, choices[1..], signedChar);
    }
  }

  lemma {:induction false} ChainLength(m: Message, signedChar: bool)
    ensures |Chain(m, signedChar)| == Rank(PacketVerdict(m.packet, signedChar))
    decreases Rank(PacketVerdict(m.packet, signedChar))
  {
    hide PacketVerdict, Rank, Replies;
    var replies := Replies(m, signedChar);
    RepliesAreNearer(m, signedChar);
    if replies != [] { ChainLength(replies[0], signedChar); }
  }

  function Ranks(net: seq<Message>, signedChar: bool): nat {
    if net == [] then 0 else Rank(PacketVerdict(net[0].packet, signedChar)) + Ranks(net[1..], signedChar)
  }

  lemma {:induction false} ChainsSize(net: seq<Message>, signedChar: bool)
    ensures |Chains(net, signedChar)| == Ranks(net, signedChar)
    ensures net != [] ==> Ranks(net, signedChar) > 0
  {
    hide Chain, PacketVerdict;
    if net != [] {
      ChainLength(net[0], signedChar);
      ChainsSize(net[1..], signedChar);
    }
  }

  /** So a run is complete, the network empty, after exactly as many deliveries as the ranks sum to,
      whatever their order, and by then it has delivered exactly the chains of what was sent. */
  lemma CompleteRuns(net: seq<Message>, choices: seq<nat>, signedChar: bool)
    requires IsDelivery(net, choices, signedChar)
    ensures |choices| <= Ranks(net, signedChar)
    ensures After(net, choices, signedChar) == [] <==> |choices| == Ranks(net, signedChar)
    ensures After(net, choices, signedChar) == [] ==>
      multiset(Delivered(net, choices, signedChar)) == Chains(net, signedChar)
  {
    hide Chains, Ranks, Delivered, After;
    var after := After(net, choices, signedChar);
    RunConserves(net, choices, signedChar);
    ChainsSize(net, signedChar);
    ChainsSize(after, signedChar);
    assert |multiset(Delivered(net, choices, signedChar))| == |choices|;
    if after == [] { EmptyNet(signedChar); }
  }

  lemma EmptyNet(signedChar: bool)
    ensures Chains([], signedChar) == multiset{} && Ranks([], signedChar) == 0
  {
  }

  // ---------- the three levels ----------

  /** A PUBLISH of that level in its first delivery; id is 0 at level 0. */
  predicate IsPublish(m: Message, id: Id, level: Qos, signedChar: bool) {
    (id == 0 <==> level == 0) && HasLevel(PacketVerdict(m.packet, signedChar), id, level)
  }

  predicate HasLevel(v: Verdict, id: Id, level: Qos) {
    match v
    case Call(OnPublish(id', _, _, _, qos)) => id' == id && qos == level
    case Call(OnCommand(id', _, _, _, qos)) => id' == id && qos == level
    case Ignored(id', qos) => id' == id && qos == level
    case _ => false
  }

  /** Every packed PUBLISH that is neither retained nor a QoS 0 packet marked DUP is one. */
  lemma PackedIsPublish(to: Side, topic: seq<byte>, id: Id, payload: seq<byte>, qos: Qos, dup: bool, signedChar: bool)
    requires Packable(topic, signedChar) && id != 0 && !(qos == 0 && dup)
    ensures IsPublish(Message(to, PublishPacket(topic, id, payload, qos, false, dup)),
                      if qos == 0 then 0 else id, qos, signedChar)
  {
    assert |topic| < 0x1_0000;
    hide PublishPacket, Packable, TopicVerdict, PacketVerdict, HasLevel;
    PublishReaches(topic, id, payload, qos, false, dup, signedChar);
    PackableHasLevel(topic, if qos == 0 then 0 else id, payload, dup, qos, signedChar);
  }

  lemma PackableHasLevel(topic: seq<byte>, id: Id, payload: seq<byte>, dup: bool, qos: Qos, signedChar: bool)
    requires Packable(topic, signedChar)
    ensures HasLevel(TopicVerdict(topic, id, payload, dup, qos, signedChar), id, qos)
  {
    PackableTopic(topic, id, payload, dup, qos, signedChar);
    hide TopicVerdict, Packable, StartsWith;
  }

  /** Section 4.3.1 of MQTT 3.1.1: nothing comes back. */
  lemma Qos0Chain(m: Message, signedChar: bool)
    requires IsPublish(m, 0, 0, signedChar)
    ensures Chain(m, signedChar) == [m]
  {
    hide PacketVerdict;
    assert Replies(m, signedChar) == [];
  }

  /** Section 4.3.2: a PUBACK with the id of the PUBLISH, which the publisher gets as a callback. */
  lemma Qos1Chain(m: Message, id: Id, signedChar: bool)
    requires IsPublish(m, id, 1, signedChar)
    ensures Chain(m, signedChar) == [m, Message(Other(m.to), Packet(0x40, [id / 256, id % 256]))]
    ensures PacketVerdict(Packet(0x40, [id / 256, id % 256]), signedChar) == Call(OnPubAck(id))
  {
    var ack := Message(Other(m.to), Ack(PUBACK, id));
    AckIsAccepted(PUBACK, id, signedChar);
    assert Ack(PUBACK, id) == Packet(0x40, [id / 256, id % 256]);
    hide PacketVerdict, Ack;
    assert Replies(m, signedChar) == [ack] && Replies(ack, signedChar) == [];
    hide Replies;
    assert Chain(ack, signedChar) == [ack];
    assert Chain(m, signedChar) == [m] + [ack];
  }

  /** The message chain of section 4.3.3: PUBREC, PUBREL and PUBCOMP, once each, all with the id of the
      PUBLISH. */
  lemma Qos2Chain(m: Message, id: Id, signedChar: bool)
    requires IsPublish(m, id, 2, signedChar)
    ensures var o, body: seq<byte> := Other(m.to), [id / 256, id % 256];
            Chain(m, signedChar) ==
              [m, Message(o, Packet(0x50, body)), Message(m.to, Packet(0x62, body)), Message(o, Packet(0x70, body))]
  {
    var o := Other(m.to);
    var rec, rel, comp := Message(o, Ack(PUBREC, id)), Message(m.to, Ack(PUBREL, id)), Message(o, Ack(PUBCOMP, id));
    var body: seq<byte> := [id / 256, id % 256];
    assert rec.packet == Packet(0x50, body) && rel.packet == Packet(0x62, body) && comp.packet == Packet(0x70, body);
    AckIsAccepted(PUBREC, id, signedChar);
    AckIsAccepted(PUBREL, id, signedChar);
    AckIsAccepted(PUBCOMP, id, signedChar);
    hide PacketVerdict, Ack;
    assert Replies(m, signedChar) == [rec] && Replies(rec, signedChar) == [rel];
    assert Replies(rel, signedChar) == [comp] && Replies(comp, signedChar) == [];
    hide Replies;
    assert Chain(comp, signedChar) == [comp];
    assert Chain(rel, signedChar) == [rel] + [comp];
    assert Chain(rec, signedChar) == [rec] + ([rel] + [comp]);
    assert Chain(m, signedChar) == [m] + ([rec] + ([rel] + [comp]));
  }

  /** How many packets a PUBLISH of each level takes, its own included. */
  function PacketsFor(levels: seq<Qos>): nat {
    if levels == [] then 0
    else (if levels[0] == 0 then 1 else if levels[0] == 1 then 2 else 4) + PacketsFor(levels[1..])
  }

  predicate ArePublishes(net: seq<Message>, ids: seq<Id>, levels: seq<Qos>, signedChar: bool) {
    |net| == |ids| == |levels| && forall i :: 0 <= i < |net| ==> IsPublish(net[i], ids[i], levels[i], signedChar)
  }

  /** Publishes of any levels are through after exactly so many deliveries, in whatever order these come. */
  lemma {:induction false} PublishesComplete(net: seq<Message>, ids: seq<Id>, levels: seq<Qos>, choices: seq<nat>,
                                             signedChar: bool)
    requires ArePublishes(net, ids, levels, signedChar) && IsDelivery(net, choices, signedChar)
    ensures |choices| <= PacketsFor(levels)
    ensures After(net, choices, signedChar) == [] <==> |choices| == PacketsFor(levels)
  {
    CompleteRuns(net, choices, signedChar);
    RanksOfPublishes(net, ids, levels, signedChar);
    hide After, Ranks, IsDelivery, ArePublishes;
  }

  lemma {:induction false} RanksOfPublishes(net: seq<Message>, ids: seq<Id>, levels: seq<Qos>, signedChar: bool)
    requires ArePublishes(net, ids, levels, signedChar)
    ensures Ranks(net, signedChar) == PacketsFor(levels)
  {
    if net != [] {
      assert IsPublish(net[0], ids[0], levels[0], signedChar);
      RanksOfPublishes(net[1..], ids[1..], levels[1..], signedChar);
      hide PacketVerdict;
    }
  }

  lemma {:induction false} PacketsOfOneLevel(levels: seq<Qos>, level: Qos)
    requires forall l :: l in levels ==> l == level
    ensures PacketsFor(levels) == |levels| * (if level == 0 then 1 else 2 * level)
  {
    if levels != [] {
      assert levels[0] in levels && forall l :: l in levels[1..] ==> l in levels;
      PacketsOfOneLevel(levels[1..], level);
    }
  }

  /** n of QoS 1 after exactly 2n. */
  lemma Qos1Deliveries(net: seq<Message>, ids: seq<Id>, levels: seq<Qos>, choices: seq<nat>, signedChar: bool)
    requires ArePublishes(net, ids, levels, signedChar) && IsDelivery(net, choices, signedChar)
    requires forall l :: l in levels ==> l == 1
    ensures |choices| <= 2 * |net|
    ensures After(net, choices, signedChar) == [] <==> |choices| == 2 * |net|
  {
    PublishesComplete(net, ids, levels, choices, signedChar);
    PacketsOfOneLevel(levels, 1);
    hide After, IsDelivery, PacketsFor;
  }

  /** n of QoS 2 after exactly 4n. */
  lemma Qos2Deliveries(net: seq<Message>, ids: seq<Id>, levels: seq<Qos>, choices: seq<nat>, signedChar: bool)
    requires ArePublishes(net, ids, levels, signedChar) && IsDelivery(net, choices, signedChar)
    requires forall l :: l in levels ==> l == 2
    ensures |choices| <= 4 * |net|
    ensures After(net, choices, signedChar) == [] <==> |choices| == 4 * |net|
  {
    PublishesComplete(net, ids, levels, choices, signedChar);
    PacketsOfOneLevel(levels, 2);
    hide After, IsDelivery, PacketsFor;
  }

  /** Nothing is refused on the way: every delivery of such a run calls back, or was published under $. */
  lemma {:induction false} NothingIsRefused(net: seq<Message>, choices: seq<nat>, signedChar: bool)
    requires IsDelivery(net, choices, signedChar)
    requires forall i :: 0 <= i < |net| ==> !PacketVerdict(net[i].packet, signedChar).Illegal?
    ensures forall m :: m in Delivered(net, choices, signedChar) ==> !PacketVerdict(m.packet, signedChar).Illegal?
    ensures forall m :: m in After(net, choices, signedChar) ==> !PacketVerdict(m.packet, signedChar).Illegal?
    decreases |choices|
  {
    hide PacketVerdict, Replies;
    if choices != [] {
      RepliesAreNearer(net[choices[0]], signedChar);
      NothingIsRefused(Deliver(net, choices[0], signedChar), choices[1..], signedChar);
    }
  }
}
