/** From end to end: packets of all kinds packed one after another, sent, cut anywhere, and received. */
module MqttDelivery {
  import opened Bytes
  import opened Memory
  import opened MqttPacket
  import opened MqttDispatch
  import opened MqttBuffer
  import opened MqttPack
  import opened MqttPackTopics
  import opened MqttPackConnect
  import opened MqttSend
  import opened MqttAnswer
  import opened MqttFraming

  // ---------- what is packed ----------

  /** A call of one of the packers. */
  datatype Order =
    | Acknowledge(kind: int, id: Id)
    | Publish(id: Id, topic: Text, data: array<byte>, from: nat, size: nat, qos: int, retain: bool, own: bool)
    | Subscribe(id: Id, level: nat, topics: seq<CString?>)
    | Unsubscribe(id: Id, topics: seq<CString?>)
    | Connect(c: Connection)

  /** What the packers ask of their arguments. */
  predicate Lawful(o: Order) {
    match o
    case Acknowledge(kind, _) => PUBACK <= kind <= PUBCOMP
    case Publish(_, topic, data, from, size, _, _, _) => |topic| < 0x1_0000 && from + size <= data.Length
    case Subscribe(_, _, topics) => Countable(topics)
    case Unsubscribe(_, topics) => Countable(topics)
    case Connect(c) => Legal(c)
  }

  /** And of memory: the bytes of a payload lie outside the buffer, topics in what is live besides it. */
  ghost predicate Outside(o: Order, base: set<object>, footprint: set<object>) {
    match o
    case Publish(_, _, data, _, _, _, _, _) => data !in footprint
    case Subscribe(_, _, topics) => Kept(topics, base)
    case Unsubscribe(_, topics) => Kept(topics, base)
    case _ => true
  }

  /** What a packer returns. */
  function Code(o: Order, signedChar: bool): int
    requires Lawful(o)
  {
    match o
    case Acknowledge(_, id) => if id == 0 then INVALID_PARAMETER else NO_ERROR
    case Publish(id, topic, _, _, size, qos, _, _) => PublishCode(id, topic, size, qos, signedChar)
    case Subscribe(id, level, topics) => TopicsPacketCode(id, topics, [level % 256], signedChar)
    case Unsubscribe(id, topics) => TopicsPacketCode(id, topics, [], signedChar)
    case Connect(c) => ConnectCode(c, signedChar)
  }

  /** The bytes it takes at most. */
  function Cost(o: Order): nat
    requires Lawful(o)
  {
    match o
    case Acknowledge(_, _) => 4
    case Publish(_, topic, _, _, size, _, _, _) => |topic| + size + 9
    case Subscribe(_, level, topics) => |WriteTopics(Texts(topics), [level % 256])| + 7
    case Unsubscribe(_, topics) => |WriteTopics(Texts(topics), [])| + 7
    case Connect(c) => |WriteTopics(ConnectFields(c), [])| + 15
  }

  ghost function Data(o: Order): set<array<byte>> {
    if o.Publish? then {o.data} else {}
  }

  /** The packets it leads to: one, or none when it is refused. */
  ghost function PacketsOf(o: Order, signedChar: bool): seq<Packet>
    requires Lawful(o)
    reads Data(o)
  {
    if Code(o, signedChar) != NO_ERROR then []
    else
      match o
      case Acknowledge(kind, id) => [Ack(kind, id)]
      case Publish(id, topic, data, from, size, qos, retain, _) =>
        [PublishPacket(topic, id, data[from..from + size], qos, retain, false)]
      case Subscribe(id, level, topics) => [SubscribePacket(id, level % 256, Texts(topics))]
      case Unsubscribe(id, topics) => [UnsubscribePacket(id, Texts(topics))]
      case Connect(c) => [ConnectPacket(c)]
  }

  // ---------- packing ----------

  lemma Relax(heap: Heap, buf: Buffer, base: set<object>, flat: seq<byte>, entries: nat, left: nat,
              more: nat, less: nat)
    requires Underway(heap, buf, base, flat, entries, left) && entries <= more && less <= left
    ensures Underway(heap, buf, base, flat, more, less)
  {
    hide Buffer.Valid, Buffer.Held, Flat;
  }

  /** One call. */
  method PackOne(heap: Heap, buf: Buffer, o: Order, signedChar: bool,
                 ghost base: set<object>, ghost flat: seq<byte>, ghost entries: nat, ghost left: nat) returns (r: int)
    requires Underway(heap, buf, base, flat, entries, left) && entries < MAX_ENTRIES
    requires Lawful(o) && Outside(o, base, buf.Footprint())
    requires Cost(o) <= left && left + HEADER + ALIGNMENT <= TWO32
    modifies heap`live, buf.Footprint()
    ensures forall x :: x in buf.Footprint() ==> x in old(buf.Footprint()) || fresh(x)
    ensures r == Code(o, signedChar)
    ensures Underway(heap, buf, base, flat + EncodeAll(old(PacketsOf(o, signedChar))), entries + 3, left - Cost(o))
  {
    hide Underway, Encode, Buffer.Footprint, WriteTopics, PublishCode, TopicsPacketCode, ConnectCode, ConnectPacket;
    hide PublishPacket, SubscribePacket, UnsubscribePacket, Ack, Kept, Legal, ConnectFields, Countable;
    ghost var ps, more, less := PacketsOf(o, signedChar), entries, left;
    match o {
      case Acknowledge(kind, id) =>
        r := PackAck(heap, buf, kind, id, base, flat, entries, left);
        more, less := if r == NO_ERROR then entries + 1 else entries, if r == NO_ERROR then left - 4 else left;
      case Publish(id, topic, data, from, size, qos, retain, own) =>
        r := PackPublish(heap, buf, id, topic, data, from, size, qos, retain, own, signedChar,
                         base, flat, entries, left);
        more := if r == NO_ERROR then entries + 3 else entries + 1;
        less := if r == NO_ERROR then left - |topic| - size - 9 else left;
      case Subscribe(id, level, topics) =>
        r := PackSubscribe(heap, buf, id, level, topics, signedChar, base, flat, entries, left);
        more, less := entries + 2, if r == NO_ERROR then left - Cost(o) else left;
      case Unsubscribe(id, topics) =>
        r := PackUnsubscribe(heap, buf, id, topics, signedChar, base, flat, entries, left);
        more, less := entries + 2, if r == NO_ERROR then left - Cost(o) else left;
      case Connect(c) =>
        r := PackConnect(heap, buf, c, signedChar, base, flat, entries, left);
        more := if r == NO_ERROR then entries + 3 else entries + 2;
        less := if r == NO_ERROR then left - Cost(o) else left;
    }
    OneOrNone(flat, ps);
    Relax(heap, buf, base, flat + EncodeAll(ps), more, less, entries + 3, left - Cost(o));
  }

  lemma OneOrNone(flat: seq<byte>, ps: seq<Packet>)
    requires |ps| <= 1
    ensures flat + EncodeAll(ps) == if ps == [] then flat else flat + Encode(ps[0])
  {
    hide Encode;
    if ps != [] {
      assert ps[1..] == [];
      assert Encode(ps[0]) + [] == Encode(ps[0]);
    }
  }

  // ---------- any number of them ----------

  predicate AllLawful(os: seq<Order>) {
    forall i :: 0 <= i < |os| ==> Lawful(os[i])
  }

  ghost predicate AllOutside(os: seq<Order>, base: set<object>, footprint: set<object>) {
    forall i :: 0 <= i < |os| ==> Outside(os[i], base, footprint)
  }

  ghost function AllData(os: seq<Order>): set<array<byte>> {
    if os == [] then {} else AllData(os[..|os| - 1]) + Data(os[|os| - 1])
  }

  ghost function Packets(os: seq<Order>, signedChar: bool): seq<Packet>
    requires AllLawful(os)
    reads AllData(os)
  {
    if os == [] then [] else Packets(os[..|os| - 1], signedChar) + PacketsOf(os[|os| - 1], signedChar)
  }

  function CostAll(os: seq<Order>): nat
    requires AllLawful(os)
  {
    if os == [] then 0 else CostAll(os[..|os| - 1]) + Cost(os[|os| - 1])
  }

  lemma {:induction false} EncodeConcat(a: seq<Packet>, b: seq<Packet>)
    ensures EncodeAll(a + b) == EncodeAll(a) + EncodeAll(b)
  {
    hide Encode;
    if a == [] {
      assert a + b == b;
    } else {
      assert (a + b)[1..] == a[1..] + b;
      EncodeConcat(a[1..], b);
      Assoc(Encode(a[0]), EncodeAll(a[1..]), EncodeAll(b));
    }
  }

  /** What the first i calls lead to, and the next one. */
  lemma OneOrderMore(os: seq<Order>, i: nat, signedChar: bool)
    requires i < |os| && AllLawful(os)
    ensures AllLawful(os[..i]) && AllLawful(os[..i + 1]) && AllData(os[..i + 1]) == AllData(os[..i]) + Data(os[i])
    ensures Packets(os[..i + 1], signedChar) == Packets(os[..i], signedChar) + PacketsOf(os[i], signedChar)
    ensures CostAll(os[..i + 1]) == CostAll(os[..i]) + Cost(os[i])
  {
    assert os[..i + 1][..i] == os[..i];
    hide PacketsOf, Cost;
  }

  lemma {:induction false} CostGrows(os: seq<Order>, i: nat)
    requires i <= |os| && AllLawful(os)
    ensures AllLawful(os[..i]) && CostAll(os[..i]) <= CostAll(os)
    decreases |os| - i
  {
    if i < |os| {
      OneOrderMore(os, i, false);
      CostGrows(os, i + 1);
    } else {
      assert os[..i] == os;
    }
  }

  lemma {:induction false} DataIsOutside(os: seq<Order>, base: set<object>, footprint: set<object>)
    requires AllOutside(os, base, footprint)
    ensures forall a :: a in AllData(os) ==> a !in footprint
    decreases |os|
  {
    if os != [] {
      DataIsOutside(os[..|os| - 1], base, footprint);
    }
  }

  lemma {:induction false} DataIsAllocated(os: seq<Order>)
    ensures forall a :: a in AllData(os) ==> allocated(a)
    decreases |os|
  {
    if os != [] {
      DataIsAllocated(os[..|os| - 1]);
    }
  }

  lemma StillOutside(os: seq<Order>, base: set<object>, before: set<object>, now: set<object>)
    requires AllOutside(os, base, before) && forall a :: a in AllData(os) && a in now ==> a in before
    ensures AllOutside(os, base, now)
  {
    forall i | 0 <= i < |os| ensures Outside(os[i], base, now) {
      DataOfOne(os, i);
    }
  }

  lemma {:induction false} DataOfOne(os: seq<Order>, i: nat)
    requires i < |os|
    ensures Data(os[i]) <= AllData(os)
    decreases |os|
  {
    if i < |os| - 1 {
      DataOfOne(os[..|os| - 1], i);
    }
  }

  /** Calls one after another: the buffer grows by the packets of those that are not refused. */
  method PackAll(heap: Heap, buf: Buffer, os: seq<Order>, signedChar: bool,
                 ghost base: set<object>, ghost flat: seq<byte>, ghost entries: nat, ghost left: nat)
    returns (codes: seq<int>)
    requires Underway(heap, buf, base, flat, entries, left) && entries + 3 * |os| <= MAX_ENTRIES
    requires AllLawful(os) && AllOutside(os, base, buf.Footprint())
    requires CostAll(os) <= left && left + HEADER + ALIGNMENT <= TWO32
    modifies heap`live, buf.Footprint()
    ensures forall x :: x in buf.Footprint() ==> x in old(buf.Footprint()) || fresh(x)
    ensures |codes| == |os| && forall i :: 0 <= i < |os| ==> codes[i] == Code(os[i], signedChar)
    ensures var ps := old(Packets(os, signedChar));
      && Packets(os, signedChar) == ps
      && Underway(heap, buf, base, flat + EncodeAll(ps), entries + 3 * |os|, left - CostAll(os))
  {
    hide Underway, Buffer.Footprint, PacketsOf, Code, Cost, Packets, CostAll, AllData, Encode, Lawful, Outside;
    codes := [];
    ghost var ps, start := Packets(os, signedChar), buf.Footprint();
    ghost var fronts, ones := Fronts(os, signedChar);
    DataIsOutside(os, base, start);
    DataIsAllocated(os);
    var i := 0;
    NothingOrdered(os, signedChar);
    assert flat + [] == flat && os[..|os|] == os;
    while i < |os|
      invariant 0 <= i <= |os| == |os| && |codes| == i
      invariant forall k :: 0 <= k < i ==> codes[k] == Code(os[k], signedChar)
      invariant forall x :: x in buf.Footprint() ==> x in start || fresh(x)
      invariant Packets(os, signedChar) == ps && AllOutside(os, base, buf.Footprint())
      invariant AllLawful(os[..i]) && CostAll(os[..i]) <= CostAll(os)
      invariant Underway(heap, buf, base, flat + EncodeAll(fronts[i]), entries + 3 * i, left - CostAll(os[..i]))
    {
      OneOrderMore(os, i, signedChar);
      CostGrows(os, i + 1);
      DataOfOne(os, i);
      ghost var front, one := fronts[i], ones[i];
      assert PacketsOf(os[i], signedChar) == one && fronts[i + 1] == front + one;
      EncodeConcat(front, one);
      Assoc(flat, EncodeAll(front), EncodeAll(one));
      var r := PackOne(heap, buf, os[i], signedChar, base, flat + EncodeAll(front), entries + 3 * i,
                       left - CostAll(os[..i]));
      StillOutside(os, base, start, buf.Footprint());
      codes := codes + [r];
      i := i + 1;
    }
    assert os[..i] == os;
  }

  /** The packets of each call, and those before it. */
  lemma Fronts(os: seq<Order>, signedChar: bool) returns (fronts: seq<seq<Packet>>, ones: seq<seq<Packet>>)
    requires AllLawful(os)
    ensures |fronts| == |os| + 1 && |ones| == |os| && fronts[0] == [] && fronts[|os|] == Packets(os, signedChar)
    ensures forall i :: 0 <= i < |os| ==>
      ones[i] == PacketsOf(os[i], signedChar) && fronts[i + 1] == fronts[i] + ones[i]
    decreases |os|
  {
    hide PacketsOf;
    fronts, ones := [[]], [];
    if os != [] {
      var n := |os| - 1;
      fronts, ones := Fronts(os[..n], signedChar);
      fronts, ones := fronts + [Packets(os, signedChar)], ones + [PacketsOf(os[n], signedChar)];
    }
  }

  lemma NothingOrdered(os: seq<Order>, signedChar: bool)
    ensures AllLawful(os[..0]) && Packets(os[..0], signedChar) == [] && CostAll(os[..0]) == 0
    ensures EncodeAll([]) == []
  {
  }

  // ---------- and received ----------

  /** A stream in pieces of the given sizes, and what is left of it. */
  function CutAt(s: seq<byte>, sizes: seq<nat>): (chunks: seq<seq<byte>>)
    decreases |sizes|
  {
    if s == [] then []
    else if sizes == [] then [s]
    else
      var n := if sizes[0] < |s| then sizes[0] else |s|;
      [s[..n]] + CutAt(s[n..], sizes[1..])
  }

  lemma {:induction false} CutIsWhole(s: seq<byte>, sizes: seq<nat>)
    ensures Concat(CutAt(s, sizes)) == s
    decreases |sizes|
  {
    if s != [] && sizes == [] {
      assert [s][1..] == [] && s + [] == s;
    } else if s != [] {
      var n := if sizes[0] < |s| then sizes[0] else |s|;
      CutIsWhole(s[n..], sizes[1..]);
      assert ([s[..n]] + CutAt(s[n..], sizes[1..]))[1..] == CutAt(s[n..], sizes[1..]);
      assert s == s[..n] + s[n..];
    }
  }

  /** What is asked of a stream of packets and of its pieces: packets that can be read and are accepted, pieces
      there is room for, and short tails unless the compaction is the intended one. */
  ghost predicate Receivable(ep: Endpoint, ps: seq<Packet>, sizes: seq<nat>, intended: bool) {
    var codeOf, chunks := CodeOf(ep.answer, ep.written, ep.signedChar), CutAt(EncodeAll(ps), sizes);
    && Readable(ps) && Accepted(ps, codeOf) && (intended || ShortTails([], chunks, codeOf))
    && Deliverable([], chunks, KeepTail, ep.buf.Length, codeOf)
  }

  /** The bytes of a buffer, cut into pieces and received. */
  method Transfer(buf: Buffer, ghost ps: seq<Packet>, ep: Endpoint, sizes: seq<nat>, beyond: nat -> byte,
                  intended: bool)
    returns (code: int)
    requires buf.Valid() && Flat(buf.listed) == EncodeAll(ps) && ep.pos == 0 && Receivable(ep, ps, sizes, intended)
    modifies ep`pos, ep`calls, ep`sent, ep`seen, ep.buf
    ensures code == NO_ERROR && ep.pos == 0
    ensures Done(ep, ps, old(ep.seen), old(ep.calls), old(ep.sent))
  {
    hide Buffer.Valid, Parts, Flat, Payloads, IsBoundary, EncodeAll, Done, CodeOf, Deliverable, ShortTails;
    hide Readable, Accepted, Concat;
    ghost var stream, parts := EncodeAll(ps), Parts(buf.listed);
    PayloadsAreAllocated(buf.listed);
    FlatFrom(buf.listed, parts);
    StartIsBoundary(parts);
    var bytes := BytesToSend(buf, 0);
    FlatFrom(buf.listed, parts);
    assert stream[0..] == stream;
    assert bytes == stream;
    CutIsWhole(bytes, sizes);
    code := ReceivePackets(ep, ps, CutAt(bytes, sizes), beyond, intended);
  }

  /** Any calls of the packers on an empty buffer, sent, cut anywhere and received: the packets of those that
      are not refused are dispatched, in order and once each, and nothing is left. */
  method Deliver(heap: Heap, buf: Buffer, os: seq<Order>, signedChar: bool, ep: Endpoint, sizes: seq<nat>,
                 beyond: nat -> byte, intended: bool, ghost base: set<object>, ghost left: nat) returns (code: int)
    requires Underway(heap, buf, base, [], 0, left) && 3 * |os| <= MAX_ENTRIES
    requires AllLawful(os) && AllOutside(os, base, buf.Footprint())
    requires CostAll(os) <= left && left + HEADER + ALIGNMENT <= TWO32
    requires ep.pos == 0 && ep !in buf.Footprint() && Receivable(ep, Packets(os, signedChar), sizes, intended)
    modifies heap`live, buf.Footprint(), ep`pos, ep`calls, ep`sent, ep`seen, ep.buf
    ensures code == NO_ERROR && ep.pos == 0
    ensures Done(ep, old(Packets(os, signedChar)), old(ep.seen), old(ep.calls), old(ep.sent))
  {
    hide Underway, Buffer.Footprint, Buffer.Valid, Packets, CostAll, Done, Flat, Payloads, Receivable, EncodeAll;
    hide AllLawful, AllOutside, AllData;
    ghost var ps := Packets(os, signedChar);
    var codes := PackAll(heap, buf, os, signedChar, base, [], 0, left);
    assert [] + EncodeAll(ps) == EncodeAll(ps);
    UnderwayIs(heap, buf, base, EncodeAll(ps), 3 * |os|, left - CostAll(os));
    code := Transfer(buf, ps, ep, sizes, beyond, intended);
  }
}
