/** The receive loop: a stream of bytes, read in pieces, is split into the packets that were sent. */
module MqttFraming {
  import opened Bytes
  import opened MqttLength
  import opened MqttPacket
  import opened MqttDispatch

  const END_OF_FILE: int := -2
  const IO_ERROR: int := -3

  /** What the loop of Mqtt_RecvPkt makes of the bytes in its buffer: the packets it dispatches, the bytes
      it has not parsed, and the code it returns. */
  datatype Parsed = Parsed(packets: seq<Packet>, tail: seq<byte>, code: int)

  function PrependPackets(ps: seq<Packet>, r: Parsed): Parsed {
    r.(packets := ps + r.packets)
  }

  /** One round of the loop: not enough bytes yet, a length out of range, or a packet and its size. */
  datatype Round = Wait | Bad | Found(packet: Packet, size: nat)

  function NextPacket(s: seq<byte>): (r: Round)
    ensures r.Found? ==> 2 <= r.size <= |s|
  {
    if |s| < 2 then Wait
    else
      var (n, len) := Read(s[1..]);
      ReadBounds(s[1..]);
      if n == INCOMPLETE then Wait
      else if n == OUT_OF_RANGE then Bad
      else if 1 + n + len > |s| then Wait
      else Found(Packet(s[0], s[1 + n..1 + n + len]), 1 + n + len)
  }

  /** The loop; code is what Mqtt_Dispatch returns for a packet. */
  function Parse(s: seq<byte>, code: Packet -> int): (r: Parsed)
    ensures |r.tail| <= |s|
    decreases |s|
  {
    match NextPacket(s)
    case Wait => Parsed([], s, NO_ERROR)
    case Bad => Parsed([], s, ILLEGAL_PKT)
    case Found(p, size) =>
      if code(p) < 0 then Parsed([p], s, code(p))
      else PrependPackets([p], Parse(s[size..], code))
  }

  // ---------- packets and streams ----------

  predicate Readable(ps: seq<Packet>) {
    forall i :: 0 <= i < |ps| ==> |ps[i].body| < MAX3
  }

  predicate Accepted(ps: seq<Packet>, code: Packet -> int) {
    forall i :: 0 <= i < |ps| ==> code(ps[i]) >= 0
  }

  /** One encoded packet at the head of a stream is found whole. */
  lemma FindPacket(p: Packet, rest: seq<byte>)
    requires |p.body| < MAX3
    ensures NextPacket(Encode(p) + rest) == Found(p, |Encode(p)|) && (Encode(p) + rest)[|Encode(p)|..] == rest
  {
    var s := Encode(p) + rest;
    var n := |Dump(|p.body|)|;
    assert s[1..] == Dump(|p.body|) + (p.body + rest);
    ReadsBack(|p.body|, p.body + rest);
    assert s[1 + n..1 + n + |p.body|] == p.body;
    hide Dump, Read;
  }

  lemma ParsePacket(p: Packet, rest: seq<byte>, code: Packet -> int)
    requires |p.body| < MAX3 && code(p) >= 0
    ensures Parse(Encode(p) + rest, code) == PrependPackets([p], Parse(rest, code))
  {
    FindPacket(p, rest);
    hide NextPacket, Encode;
  }

  /** Packets written one after another are dispatched one after another. */
  lemma {:induction false} ParsePackets(ps: seq<Packet>, rest: seq<byte>, code: Packet -> int)
    requires Readable(ps) && Accepted(ps, code)
    ensures Parse(EncodeAll(ps) + rest, code) == PrependPackets(ps, Parse(rest, code))
  {
    hide Parse, Encode;
    if ps == [] {
      assert EncodeAll(ps) + rest == rest;
      assert [] + Parse(rest, code).packets == Parse(rest, code).packets;
    } else {
      assert EncodeAll(ps) + rest == Encode(ps[0]) + (EncodeAll(ps[1..]) + rest);
      ParsePacket(ps[0], EncodeAll(ps[1..]) + rest, code);
      ParsePackets(ps[1..], rest, code);
      assert [ps[0]] + (ps[1..] + Parse(rest, code).packets) == ps + Parse(rest, code).packets;
    }
  }

  /** A packet that is refused ends the loop with its code, and is the last that was dispatched. */
  lemma RefusedPacketStops(ps: seq<Packet>, p: Packet, rest: seq<byte>, code: Packet -> int)
    requires Readable(ps) && Accepted(ps, code) && |p.body| < MAX3 && code(p) < 0
    ensures Parse(EncodeAll(ps) + (Encode(p) + rest), code) == Parsed(ps + [p], Encode(p) + rest, code(p))
  {
    FindPacket(p, rest);
    ParsePackets(ps, Encode(p) + rest, code);
    hide NextPacket, Encode;
  }

  /** Three marked length bytes end it with -4, even if they are the first of four. */
  lemma LongPacketStops(ps: seq<Packet>, s: seq<byte>, code: Packet -> int)
    requires Readable(ps) && Accepted(ps, code) && |s| >= 4 && s[1] >= 128 && s[2] >= 128 && s[3] >= 128
    ensures Parse(EncodeAll(ps) + s, code) == Parsed(ps, s, -4)
  {
    ParsePackets(ps, s, code);
    ThreeMarkedBytes(s[1..]);
    hide Encode, Read;
    assert ps + [] == ps;
  }

  /** More bytes change a round only when it had to wait. */
  lemma NextPacketExtends(s: seq<byte>, b: seq<byte>)
    requires !NextPacket(s).Wait?
    ensures NextPacket(s + b) == NextPacket(s)
    ensures NextPacket(s).Found? ==> (s + b)[NextPacket(s).size..] == s[NextPacket(s).size..] + b
  {
    ReadBounds(s[1..]);
    ReadExtends(s[1..], b, 0, 1, 0, MAX3);
    assert (s + b)[1..] == s[1..] + b;
    var (n, len) := Read(s[1..]);
    if NextPacket(s).Found? {
      assert (s + b)[1 + n..1 + n + len] == s[1 + n..1 + n + len];
    }
    hide Read;
  }

  lemma PrependTwice(ps: seq<Packet>, qs: seq<Packet>, r: Parsed)
    ensures PrependPackets(ps, PrependPackets(qs, r)) == PrependPackets(ps + qs, r)
    ensures PrependPackets([], r) == r
  {
    assert ps + (qs + r.packets) == ps + qs + r.packets;
    assert [] + r.packets == r.packets;
  }

  /** What was parsed stays parsed when more bytes arrive behind the tail. */
  lemma {:induction false} ParseExtends(a: seq<byte>, b: seq<byte>, code: Packet -> int)
    requires Parse(a, code).code >= 0
    ensures Parse(a + b, code) == PrependPackets(Parse(a, code).packets, Parse(Parse(a, code).tail + b, code))
    decreases |a|
  {
    hide NextPacket;
    match NextPacket(a)
    case Wait =>
      PrependTwice([], [], Parse(a + b, code));
    case Found(p, k) =>
      var more := Parse(a[k..], code);
      NextPacketExtends(a, b);
      assert Parse(a + b, code) == PrependPackets([p], Parse(a[k..] + b, code));
      assert Parse(a, code) == PrependPackets([p], more);
      hide Parse;
      ParseExtends(a[k..], b, code);
      PrependTwice([p], more.packets, Parse(more.tail + b, code));
  }

  /** Nothing is parsed twice: a tail on its own has no packet in it. */
  lemma {:induction false} TailIsUnparsed(s: seq<byte>, code: Packet -> int)
    requires Parse(s, code).code >= 0
    ensures Parse(Parse(s, code).tail, code) == Parsed([], Parse(s, code).tail, NO_ERROR)
    decreases |s|
  {
    hide NextPacket;
    match NextPacket(s)
    case Wait =>
    case Found(p, k) => TailIsUnparsed(s[k..], code);
  }

  // ---------- reading in pieces ----------

  /** How the unparsed bytes are kept between two calls: tail is unparsed, consumed bytes lie before it. */
  type Keep = (nat, seq<byte>) -> seq<byte>

  /** Moving the pos - cursor bytes of the tail to the front keeps them. */
  function KeepTail(consumed: nat, tail: seq<byte>): seq<byte> {
    tail
  }

  /** Mqtt_RecvPkt moves as many bytes as were consumed: behind these the old bytes stay, and they are
      the tail from its start again. */
  function KeepAsWritten(consumed: nat, tail: seq<byte>): (kept: seq<byte>)
    ensures |kept| == |tail|
  {
    seq(|tail|, k requires 0 <= k < |tail| => if k < consumed then tail[k] else tail[k - consumed])
  }

  function Keeping(intended: bool): Keep {
    if intended then KeepTail else KeepAsWritten
  }

  /** Repeated calls, one a chunk, until one returns an error. */
  function Feed(retained: seq<byte>, chunks: seq<seq<byte>>, keep: Keep, code: Packet -> int): Parsed
    decreases |chunks|
  {
    if chunks == [] then Parsed([], retained, NO_ERROR)
    else
      var s := retained + chunks[0];
      var r := Parse(s, code);
      if r.code < 0 then r
      else PrependPackets(r.packets, Feed(keep(|s| - |r.tail|, r.tail), chunks[1..], keep, code))
  }

  /** Cutting a stream into pieces does not change what it is split into, when the tail is kept. */
  lemma {:induction false} FeedIsParse(retained: seq<byte>, chunks: seq<seq<byte>>, code: Packet -> int)
    requires Parse(retained, code) == Parsed([], retained, NO_ERROR)
    requires Parse(retained + Concat(chunks), code).code >= 0
    ensures Feed(retained, chunks, KeepTail, code) == Parse(retained + Concat(chunks), code)
    decreases |chunks|
  {
    hide Parse;
    if chunks == [] {
      assert retained + Concat(chunks) == retained;
    } else {
      var s, rest := retained + chunks[0], Concat(chunks[1..]);
      assert retained + Concat(chunks) == s + rest;
      PrefixParses(s, rest, code);
      ParseExtends(s, rest, code);
      TailIsUnparsed(s, code);
      FeedIsParse(Parse(s, code).tail, chunks[1..], code);
    }
  }

  /** A prefix of a stream that parses without error does so too. */
  lemma {:induction false} PrefixParses(a: seq<byte>, b: seq<byte>, code: Packet -> int)
    requires Parse(a + b, code).code >= 0
    ensures Parse(a, code).code >= 0
    decreases |a|
  {
    hide NextPacket;
    match NextPacket(a)
    case Wait =>
    case Bad => NextPacketExtends(a, b);
    case Found(p, k) =>
      NextPacketExtends(a, b);
      if code(p) >= 0 { PrefixParses(a[k..], b, code); }
  }

  /** Any packets, encoded one after another and cut anywhere, are dispatched in order, and nothing is left. */
  lemma AnyCutIsSplit(ps: seq<Packet>, chunks: seq<seq<byte>>, code: Packet -> int)
    requires Readable(ps) && Accepted(ps, code) && Concat(chunks) == EncodeAll(ps)
    ensures Feed([], chunks, KeepTail, code) == Parsed(ps, [], NO_ERROR)
  {
    ParsePackets(ps, [], code);
    assert EncodeAll(ps) + [] == EncodeAll(ps);
    assert Parse([], code) == Parsed([], [], NO_ERROR);
    assert [] + Concat(chunks) == Concat(chunks);
    assert ps + [] == ps;
    FeedIsParse([], chunks, code);
    hide Feed, Concat, EncodeAll;
  }

  /** While such a stream arrives, what is retained is shorter than the longest packet: a buffer that holds
      any one packet always has room for another byte. */
  lemma {:induction false} RoomIsLeft(ps: seq<Packet>, a: seq<byte>, b: seq<byte>, capacity: nat, code: Packet -> int)
    requires Readable(ps) && Accepted(ps, code) && a + b == EncodeAll(ps) && capacity > 0
    requires forall i :: 0 <= i < |ps| ==> |Encode(ps[i])| <= capacity
    ensures |Parse(a, code).tail| < capacity
    decreases |ps|
  {
    hide NextPacket, Encode;
    if ps == [] {
      assert |a + b| == 0;
      NothingToParse();
    } else {
      var p := ps[0];
      var e, more := Encode(p), EncodeAll(ps[1..]);
      FindPacket(p, more);
      if |a| < |e| {
        if !NextPacket(a).Wait? { NextPacketExtends(a, b); }
      } else {
        var a' := a[|e|..];
        assert (a + b)[..|e|] == e && (a + b)[|e|..] == more;
        assert a == e + a' && a' + b == more;
        ParsePacket(p, a', code);
        RoomIsLeft(ps[1..], a', b, capacity, code);
      }
    }
  }

  lemma NothingToParse()
    ensures NextPacket([]).Wait?
  {
  }

  // ---------- the compaction as written ----------

  /** As written, the tail survives a call iff it repeats itself with the consumed count as its period. */
  lemma KeptIff(consumed: nat, tail: seq<byte>)
    ensures KeepAsWritten(consumed, tail) == tail
       <==> forall k :: consumed <= k < |tail| ==> tail[k] == tail[k - consumed]
    ensures consumed == 0 || |tail| <= consumed ==> KeepAsWritten(consumed, tail) == tail
  {
    var kept := KeepAsWritten(consumed, tail);
    assert forall k :: 0 <= k < |tail| ==> kept[k] == if k < consumed then tail[k] else tail[k - consumed];
  }

  /** After each call but the last, nothing was consumed or the tail was no longer than what was. */
  predicate ShortTails(retained: seq<byte>, chunks: seq<seq<byte>>, code: Packet -> int)
    decreases |chunks|
  {
    |chunks| <= 1 ||
    (var s := retained + chunks[0];
     var r := Parse(s, code);
     && (|r.tail| == |s| || |r.tail| <= |s| - |r.tail|)
     && ShortTails(r.tail, chunks[1..], code))
  }

  /** What read_func may deliver: some bytes each time, and no more than there is room for. */
  predicate Deliverable(retained: seq<byte>, chunks: seq<seq<byte>>, keep: Keep, capacity: nat, code: Packet -> int)
    decreases |chunks|
  {
    chunks == [] ||
    (var s := retained + chunks[0];
     var r := Parse(s, code);
     && chunks[0] != [] && |s| <= capacity
     && (r.code >= 0 ==> Deliverable(keep(|s| - |r.tail|, r.tail), chunks[1..], keep, capacity, code)))
  }

  /** Then the loop as written splits a stream as the intended one does, and needs no more room. */
  lemma {:induction false} ShortTailsSuffice(retained: seq<byte>, chunks: seq<seq<byte>>, capacity: nat,
                                             code: Packet -> int)
    requires ShortTails(retained, chunks, code)
    ensures var r, r' := Feed(retained, chunks, KeepAsWritten, code), Feed(retained, chunks, KeepTail, code);
      r.packets == r'.packets && r.code == r'.code && |r.tail| == |r'.tail|
    ensures Deliverable(retained, chunks, KeepAsWritten, capacity, code)
       <==> Deliverable(retained, chunks, KeepTail, capacity, code)
    decreases |chunks|
  {
    hide Parse, KeepAsWritten;
    if chunks != [] {
      var s := retained + chunks[0];
      var r := Parse(s, code);
      KeptIff(|s| - |r.tail|, r.tail);
      if |chunks| > 1 { ShortTailsSuffice(r.tail, chunks[1..], capacity, code); }
    }
  }

  /** Where they part: a PINGRESP and three bytes of a PUBACK in one piece, its last byte in the next.
      The PUBACK of packet 7 is dispatched as one of packet 0x4007. */
  lemma CompactionParts(code: Packet -> int)
    requires forall p :: code(p) >= 0
    ensures var chunks := [[0xD0, 0, 0x40, 2, 0], [7]];
            && Feed([], chunks, KeepTail, code).packets == [Packet(0xD0, []), Packet(0x40, [0, 7])]
            && Feed([], chunks, KeepAsWritten, code).packets == [Packet(0xD0, []), Packet(0x40, [0x40, 7])]
  {
    var first: seq<byte>, last: seq<byte> := [0xD0, 0, 0x40, 2, 0], [7];
    var tail: seq<byte> := [0x40, 2, 0];
    assert KeepAsWritten(2, tail) == [0x40, 2, 0x40];
    hide NextPacket, KeepAsWritten, Feed;
    assert first[2..2] == [] && first[2..] == tail;
    ShortPacket(first);
    ShortPacket(tail);
    var whole, mixed := tail + last, [0x40, 2, 0x40] + last;
    assert whole == [0x40, 2, 0, 7] && mixed == [0x40, 2, 0x40, 7];
    assert whole[2..4] == [whole[2], whole[3]] == [0, 7];
    assert mixed[2..4] == [mixed[2], mixed[3]] == [0x40, 7];
    ShortPacket(whole);
    ShortPacket(mixed);
    TwoChunks(first, last, Packet(0xD0, []), 2, Packet(0x40, [0, 7]), KeepTail, code);
    TwoChunks(first, last, Packet(0xD0, []), 2, Packet(0x40, [0x40, 7]), KeepAsWritten, code);
  }

  /** A round on a packet whose length is one byte. */
  lemma ShortPacket(s: seq<byte>)
    requires |s| >= 2 && s[1] < 128
    ensures NextPacket(s) ==
      if |s| < 2 + s[1] as int then Wait else Found(Packet(s[0], s[2..2 + s[1] as int]), 2 + s[1] as int)
  {
  }

  /** A packet and the start of another in one piece, the end of that in the next. */
  lemma TwoChunks(first: seq<byte>, last: seq<byte>, p: Packet, k: nat, q: Packet, keep: Keep, code: Packet -> int)
    requires code(p) >= 0 && code(q) >= 0
    requires NextPacket(first) == Found(p, k) && NextPacket(first[k..]) == Wait
    requires var u := keep(k, first[k..]) + last; NextPacket(u) == Found(q, |u|)
    ensures Feed([], [first, last], keep, code).packets == [p, q]
  {
    hide NextPacket;
    var kept := keep(k, first[k..]);
    assert [] + first == first && [first, last][1..] == [last] && [last][1..] == [];
    assert Parse(first[k..], code) == Parsed([], first[k..], NO_ERROR);
    assert Parse(first, code) == Parsed([p], first[k..], NO_ERROR);
    var u := kept + last;
    assert u[|u|..] == [];
    NothingToParse();
    assert Parse([], code) == Parsed([], [], NO_ERROR);
    assert Parse(u, code) == Parsed([q], [], NO_ERROR);
    hide Parse;
    assert Feed(kept, [last], keep, code).packets == [q] + Feed(keep(|u|, []), [], keep, code).packets == [q];
  }

  // ---------- Mqtt_RecvPkt ----------

  /** What read_func does: fail, or put some bytes into the buffer; none at the end of the stream. */
  datatype Reading = Failed | Data(bytes: seq<byte>)

  /** What Mqtt_Dispatch returns for a packet. */
  function CodeOf(answer: Callback -> int, written: seq<byte> -> int, signedChar: bool): Packet -> int {
    p => React(PacketVerdict(p, signedChar), answer, written).code
  }

  function CallsFor(ps: seq<Packet>, answer: Callback -> int, written: seq<byte> -> int,
                    signedChar: bool): seq<Callback> {
    if ps == [] then []
    else CallsFor(ps[..|ps| - 1], answer, written, signedChar)
         + React(PacketVerdict(ps[|ps| - 1], signedChar), answer, written).calls
  }

  function SentFor(ps: seq<Packet>, answer: Callback -> int, written: seq<byte> -> int,
                   signedChar: bool): seq<seq<byte>> {
    if ps == [] then []
    else SentFor(ps[..|ps| - 1], answer, written, signedChar)
         + React(PacketVerdict(ps[|ps| - 1], signedChar), answer, written).sent
  }

  /** memmove(bgn, cursor, cursor - bgn), with size bytes behind cursor still to be parsed. It may read past
      the buffer; beyond says what is found there. As intended it would move the size bytes. */
  method Compact(buf: array<byte>, cursor: nat, size: nat, beyond: nat -> byte, intended: bool)
    requires cursor + size <= buf.Length
    modifies buf
    ensures buf[..size] == Keeping(intended)(cursor, old(buf[cursor..cursor + size]))
  {
    ghost var tail := buf[cursor..cursor + size];
    assert forall k :: cursor <= k < cursor + size ==> buf[k] == tail[k - cursor];
    var count, i := if intended then size else cursor, 0;
    while i < count
      invariant 0 <= i <= count
      invariant forall k :: 0 <= k < i && k < size ==> buf[k] == tail[k]
      invariant forall k :: i <= k < buf.Length ==> buf[k] == old(buf[k])
    {
      assert i < size ==> tail[i] == old(buf[cursor + i]);
      buf[i] := if cursor + i < buf.Length then buf[cursor + i] else beyond(cursor + i);
      i := i + 1;
    }
    ghost var kept := Keeping(intended)(cursor, tail);
    assert forall k :: 0 <= k < size ==> buf[k] == kept[k];
  }

  /** The bytes a successful read_func puts behind those retained. */
  method Receive(ep: Endpoint, bytes: seq<byte>)
    requires ep.pos + |bytes| <= ep.buf.Length
    modifies ep`pos, ep.buf
    ensures ep.pos == old(ep.pos) + |bytes| && ep.buf[..ep.pos] == old(ep.buf[..ep.pos]) + bytes
  {
    forall k | 0 <= k < |bytes| {
      ep.buf[ep.pos + k] := bytes[k];
    }
    ep.pos := ep.pos + |bytes|;
  }

  /** What the loop has done so far: seen, called and sent are the packets done and what they led to. */
  ghost predicate Done(ep: Endpoint, done: seq<Packet>, seen: seq<Packet>, calls: seq<Callback>, sent: seq<seq<byte>>)
    reads ep`seen, ep`calls, ep`sent
  {
    && ep.seen == seen + done
    && ep.calls == calls + CallsFor(done, ep.answer, ep.written, ep.signedChar)
    && ep.sent == sent + SentFor(done, ep.answer, ep.written, ep.signedChar)
  }

  lemma DoneNothing(ep: Endpoint)
    ensures Done(ep, [], ep.seen, ep.calls, ep.sent)
  {
  }

  /** What has been done, in full. */
  lemma DoneIs(ep: Endpoint, done: seq<Packet>, seen: seq<Packet>, calls: seq<Callback>, sent: seq<seq<byte>>)
    requires Done(ep, done, seen, calls, sent)
    ensures ep.seen == seen + done
    ensures ep.calls == calls + CallsFor(done, ep.answer, ep.written, ep.signedChar)
    ensures ep.sent == sent + SentFor(done, ep.answer, ep.written, ep.signedChar)
  {
  }

  /** More packets done, on top of done. */
  lemma DoneMore(ep: Endpoint, done: seq<Packet>, more: seq<Packet>,
                 seen: seq<Packet>, calls: seq<Callback>, sent: seq<seq<byte>>)
    requires Done(ep, more, seen + done, calls + CallsFor(done, ep.answer, ep.written, ep.signedChar),
                  sent + SentFor(done, ep.answer, ep.written, ep.signedChar))
    ensures Done(ep, done + more, seen, calls, sent)
  {
    hide CallsFor, SentFor;
    CallsConcat(done, more, ep.answer, ep.written, ep.signedChar);
    SentConcat(done, more, ep.answer, ep.written, ep.signedChar);
    Assoc(seen, done, more);
    Assoc(calls, CallsFor(done, ep.answer, ep.written, ep.signedChar),
          CallsFor(more, ep.answer, ep.written, ep.signedChar));
    Assoc(sent, SentFor(done, ep.answer, ep.written, ep.signedChar),
          SentFor(more, ep.answer, ep.written, ep.signedChar));
  }

  lemma {:induction false} CallsConcat(a: seq<Packet>, b: seq<Packet>,
                                       answer: Callback -> int, written: seq<byte> -> int, signedChar: bool)
    ensures CallsFor(a + b, answer, written, signedChar)
         == CallsFor(a, answer, written, signedChar) + CallsFor(b, answer, written, signedChar)
    decreases |b|
  {
    hide React, PacketVerdict;
    if b == [] {
      assert a + b == a;
    } else {
      var front, last := b[..|b| - 1], b[|b| - 1];
      assert (a + b)[..|a + b| - 1] == a + front && (a + b)[|a + b| - 1] == last;
      CallsConcat(a, front, answer, written, signedChar);
      Assoc(CallsFor(a, answer, written, signedChar), CallsFor(front, answer, written, signedChar),
            React(PacketVerdict(last, signedChar), answer, written).calls);
    }
  }

  lemma {:induction false} SentConcat(a: seq<Packet>, b: seq<Packet>,
                                      answer: Callback -> int, written: seq<byte> -> int, signedChar: bool)
    ensures SentFor(a + b, answer, written, signedChar)
         == SentFor(a, answer, written, signedChar) + SentFor(b, answer, written, signedChar)
    decreases |b|
  {
    hide React, PacketVerdict;
    if b == [] {
      assert a + b == a;
    } else {
      var front, last := b[..|b| - 1], b[|b| - 1];
      assert (a + b)[..|a + b| - 1] == a + front && (a + b)[|a + b| - 1] == last;
      SentConcat(a, front, answer, written, signedChar);
      Assoc(SentFor(a, answer, written, signedChar), SentFor(front, answer, written, signedChar),
            React(PacketVerdict(last, signedChar), answer, written).sent);
    }
  }

  lemma DoneOneMore(done: seq<Packet>, p: Packet, answer: Callback -> int, written: seq<byte> -> int, signedChar: bool)
    ensures CallsFor(done + [p], answer, written, signedChar)
         == CallsFor(done, answer, written, signedChar) + React(PacketVerdict(p, signedChar), answer, written).calls
    ensures SentFor(done + [p], answer, written, signedChar)
         == SentFor(done, answer, written, signedChar) + React(PacketVerdict(p, signedChar), answer, written).sent
  {
    assert (done + [p])[..|done|] == done;
    hide React, PacketVerdict;
  }

  /** One round: how far the bytes from cursor on reach. */
  method ReadRound(ep: Endpoint, cursor: nat) returns (bytes: int, len: nat)
    requires cursor <= ep.pos <= ep.buf.Length && ep.pos - cursor >= 2
    ensures bytes == INCOMPLETE || bytes == OUT_OF_RANGE || 1 <= bytes
    ensures var r := NextPacket(ep.buf[cursor..ep.pos]);
            if bytes == OUT_OF_RANGE then r.Bad?
            else if bytes == INCOMPLETE || cursor + len + bytes + 1 > ep.pos then r.Wait?
            else r == Found(Packet(ep.buf[cursor], ep.buf[cursor + bytes + 1..cursor + bytes + 1 + len]),
                            bytes + 1 + len)
  {
    bytes, len := ReadLength(ep.buf, cursor + 1, ep.pos - cursor - 1);
    ghost var s := ep.buf[cursor..ep.pos];
    assert s[1..] == ep.buf[cursor + 1..cursor + 1 + (ep.pos - cursor - 1)];
    if bytes >= 1 && cursor + len + bytes + 1 <= ep.pos {
      SubSlice(ep.buf[..], cursor, ep.pos, 1 + bytes, 1 + bytes + len);
    }
    hide Read;
  }

  /** Mqtt_Dispatch on the packet of a round. */
  method DispatchRound(ep: Endpoint, cursor: nat, bytes: nat, len: nat, ghost done: seq<Packet>,
                       ghost seen: seq<Packet>, ghost calls: seq<Callback>, ghost sent: seq<seq<byte>>)
    returns (code: int)
    requires ep.pos <= ep.buf.Length && cursor + bytes + 1 + len <= ep.pos
    requires Done(ep, done, seen, calls, sent)
    modifies ep`calls, ep`sent, ep`seen, ep.buf
    ensures var p := Packet(old(ep.buf[cursor]), old(ep.buf[cursor + bytes + 1..cursor + bytes + 1 + len]));
            && code == CodeOf(ep.answer, ep.written, ep.signedChar)(p)
            && Done(ep, done + [p], seen, calls, sent)
    ensures ep.buf[cursor + bytes + 1 + len..ep.pos] == old(ep.buf[cursor + bytes + 1 + len..ep.pos])
  {
    hide React, PacketVerdict, CallsFor, SentFor;
    ghost var p := Packet(ep.buf[cursor], ep.buf[cursor + bytes + 1..cursor + bytes + 1 + len]);
    DoneOneMore(done, p, ep.answer, ep.written, ep.signedChar);
    var end := cursor + bytes + 1 + len;
    ghost var rest := ep.buf[end..];
    assert ep.buf[end..ep.pos] == rest[..ep.pos - end];
    code := ep.Dispatch(ep.buf[cursor], cursor + bytes + 1, len);
    assert ep.buf[end..ep.pos] == ep.buf[end..][..ep.pos - end];
  }

  /** The parse loop of Mqtt_RecvPkt on the bytes s at the front of the buffer. */
  method ParseLoop(ep: Endpoint, ghost s: seq<byte>) returns (code: int, cursor: nat)
    requires ep.pos <= ep.buf.Length && s == ep.buf[..ep.pos]
    modifies ep`calls, ep`sent, ep`seen, ep.buf
    ensures var r := Parse(s, CodeOf(ep.answer, ep.written, ep.signedChar));
            && code == r.code && Done(ep, r.packets, old(ep.seen), old(ep.calls), old(ep.sent))
            && (code >= 0 ==> cursor + |r.tail| == |s| && ep.buf[cursor..ep.pos] == r.tail)
  {
    hide Done, NextPacket, React, PacketVerdict, Parse, CodeOf;
    ghost var codeOf := CodeOf(ep.answer, ep.written, ep.signedChar);
    ghost var done: seq<Packet> := [];
    cursor := 0;
    PrependTwice([], [], Parse(s, codeOf));
    DoneNothing(ep);
    assert s[0..] == s;
    while true
      invariant cursor <= ep.pos && ep.buf[cursor..ep.pos] == s[cursor..]
      invariant Done(ep, done, old(ep.seen), old(ep.calls), old(ep.sent))
      invariant Parse(s, codeOf) == PrependPackets(done, Parse(s[cursor..], codeOf))
      decreases ep.pos - cursor
    {
      ghost var u := s[cursor..];
      ParseByRound(u, codeOf);
      if ep.pos - cursor < 2 {
        break;
      }
      var bytes, len := ReadRound(ep, cursor);
      if bytes == INCOMPLETE {
        break;
      } else if bytes == OUT_OF_RANGE {
        assert done + [] == done;
        return ILLEGAL_PKT, cursor;
      }
      if cursor + len + bytes + 1 > ep.pos {
        break;
      }
      ghost var p, k := NextPacket(u).packet, NextPacket(u).size;
      code := DispatchRound(ep, cursor, bytes, len, done, old(ep.seen), old(ep.calls), old(ep.sent));
      if code < 0 {
        return;
      }
      PrependTwice(done, [p], Parse(u[k..], codeOf));
      done := done + [p];
      cursor := cursor + bytes + 1 + len;
      assert u[k..] == s[cursor..];
    }
    assert done + [] == done;
    return NO_ERROR, cursor;
  }

  lemma ParseByRound(u: seq<byte>, code: Packet -> int)
    ensures |u| < 2 ==> NextPacket(u).Wait?
    ensures NextPacket(u).Wait? ==> Parse(u, code) == Parsed([], u, NO_ERROR)
    ensures NextPacket(u).Bad? ==> Parse(u, code) == Parsed([], u, ILLEGAL_PKT)
    ensures NextPacket(u).Found? ==>
      var Found(p, k) := NextPacket(u);
      Parse(u, code) == if code(p) < 0 then Parsed([p], u, code(p)) else PrependPackets([p], Parse(u[k..], code))
  {
  }

  /** Mqtt_RecvPkt, with the compaction as written or as intended. */
  method RecvPkt(ep: Endpoint, reading: Reading, beyond: nat -> byte, intended: bool) returns (code: int)
    requires ep.pos <= ep.buf.Length
    requires reading.Data? ==> ep.pos + |reading.bytes| <= ep.buf.Length
    modifies ep`pos, ep`calls, ep`sent, ep`seen, ep.buf
    ensures ep.pos <= ep.buf.Length
    ensures reading.Failed? ==>
      code == IO_ERROR && ep.pos == old(ep.pos) && ep.buf[..] == old(ep.buf[..])
    ensures reading == Data([]) ==> code == END_OF_FILE && ep.pos == 0 && ep.buf[..] == old(ep.buf[..])
    ensures reading.Failed? || reading.bytes == [] ==>
      ep.seen == old(ep.seen) && ep.calls == old(ep.calls) && ep.sent == old(ep.sent)
    ensures reading.Data? && reading.bytes != [] ==>
      var s := old(ep.buf[..ep.pos]) + reading.bytes;
      var r := Parse(s, CodeOf(ep.answer, ep.written, ep.signedChar));
      && code == r.code && Done(ep, r.packets, old(ep.seen), old(ep.calls), old(ep.sent))
      && (code < 0 ==> ep.pos == |s|)
      && (code >= 0 ==> ep.buf[..ep.pos] == Keeping(intended)(|s| - |r.tail|, r.tail))
  {
    hide Parse, Done, KeepAsWritten, Keeping;
    if reading.Failed? {
      return IO_ERROR;
    }
    if reading.bytes == [] {
      ep.pos := 0;
      return END_OF_FILE;
    }
    Receive(ep, reading.bytes);
    ghost var s := ep.buf[..ep.pos];
    var cursor: nat;
    code, cursor := ParseLoop(ep, s);
    if code < 0 {
      return;
    }
    if cursor > 0 {
      assert ep.buf[cursor..cursor + (ep.pos - cursor)] == ep.buf[cursor..ep.pos];
      Compact(ep.buf, cursor, ep.pos - cursor, beyond, intended);
      ep.pos := ep.pos - cursor;
    } else {
      NothingMoved(ep.buf[..ep.pos], intended);
      assert ep.buf[0..ep.pos] == ep.buf[..ep.pos];
    }
  }

  lemma NothingMoved(tail: seq<byte>, intended: bool)
    ensures Keeping(intended)(0, tail) == tail
  {
    KeptIff(0, tail);
  }

  // ---------- the loop around it ----------

  lemma FeedStep(retained: seq<byte>, chunks: seq<seq<byte>>, keep: Keep, capacity: nat, code: Packet -> int)
    requires chunks != [] && Deliverable(retained, chunks, keep, capacity, code)
    ensures var s := retained + chunks[0];
            var r := Parse(s, code);
            var kept := keep(|s| - |r.tail|, r.tail);
            && chunks[0] != [] && |s| <= capacity
            && (r.code >= 0 ==> Deliverable(kept, chunks[1..], keep, capacity, code))
            && Feed(retained, chunks, keep, code) ==
                 if r.code < 0 then r else PrependPackets(r.packets, Feed(kept, chunks[1..], keep, code))
  {
    hide Parse, KeepAsWritten;
  }

  lemma FeedNothing(retained: seq<byte>, keep: Keep, code: Packet -> int)
    ensures Feed(retained, [], keep, code) == Parsed([], retained, NO_ERROR)
  {
  }

  /** The loop of drv_mqtt_socketHandle: receive until a call fails, here for want of more bytes. */
  method ReceiveAll(ep: Endpoint, chunks: seq<seq<byte>>, beyond: nat -> byte, intended: bool)
    returns (code: int)
    requires ep.pos <= ep.buf.Length
    requires Deliverable(ep.buf[..ep.pos], chunks, Keeping(intended), ep.buf.Length,
                         CodeOf(ep.answer, ep.written, ep.signedChar))
    modifies ep`pos, ep`calls, ep`sent, ep`seen, ep.buf
    ensures var codeOf := CodeOf(ep.answer, ep.written, ep.signedChar);
            var r := Feed(old(ep.buf[..ep.pos]), chunks, Keeping(intended), codeOf);
            && code == r.code && Done(ep, r.packets, old(ep.seen), old(ep.calls), old(ep.sent))
            && (code >= 0 ==> ep.pos <= ep.buf.Length && ep.buf[..ep.pos] == r.tail)
  {
    hide Parse, CodeOf, KeepAsWritten, Keeping, Done, Feed, Deliverable, CallsFor, SentFor;
    DoneNothing(ep);
    ghost var codeOf := CodeOf(ep.answer, ep.written, ep.signedChar);
    ghost var whole := Feed(ep.buf[..ep.pos], chunks, Keeping(intended), codeOf);
    ghost var done: seq<Packet> := [];
    PrependTwice([], [], whole);
    assert chunks[0..] == chunks;
    var i := 0;
    while i < |chunks|
      invariant 0 <= i <= |chunks| && ep.pos <= ep.buf.Length
      invariant Deliverable(ep.buf[..ep.pos], chunks[i..], Keeping(intended), ep.buf.Length, codeOf)
      invariant Done(ep, done, old(ep.seen), old(ep.calls), old(ep.sent))
      invariant whole == PrependPackets(done, Feed(ep.buf[..ep.pos], chunks[i..], Keeping(intended), codeOf))
    {
      ghost var s := ep.buf[..ep.pos] + chunks[i];
      ghost var r := Parse(s, codeOf);
      assert chunks[i..][1..] == chunks[i + 1..];
      FeedStep(ep.buf[..ep.pos], chunks[i..], Keeping(intended), ep.buf.Length, codeOf);
      DoneIs(ep, done, old(ep.seen), old(ep.calls), old(ep.sent));
      code := RecvPkt(ep, Data(chunks[i]), beyond, intended);
      DoneMore(ep, done, r.packets, old(ep.seen), old(ep.calls), old(ep.sent));
      if code < 0 {
        return;
      }
      PrependTwice(done, r.packets, Feed(ep.buf[..ep.pos], chunks[i + 1..], Keeping(intended), codeOf));
      done := done + r.packets;
      i := i + 1;
    }
    assert done + [] == done;
    assert chunks[i..] == [];
    FeedNothing(ep.buf[..ep.pos], Keeping(intended), codeOf);
    return NO_ERROR;
  }

  /** Packets encoded one after another, cut anywhere and received piece by piece, are dispatched in order, and
      nothing is left: with the compaction as intended always, as written when tails are short. */
  method ReceivePackets(ep: Endpoint, ghost ps: seq<Packet>, chunks: seq<seq<byte>>, beyond: nat -> byte,
                        intended: bool)
    returns (code: int)
    requires ep.pos == 0
    requires var codeOf := CodeOf(ep.answer, ep.written, ep.signedChar);
      && Readable(ps) && Accepted(ps, codeOf) && Concat(chunks) == EncodeAll(ps)
      && (intended || ShortTails([], chunks, codeOf)) && Deliverable([], chunks, KeepTail, ep.buf.Length, codeOf)
    modifies ep`pos, ep`calls, ep`sent, ep`seen, ep.buf
    ensures code == NO_ERROR && ep.pos == 0
    ensures Done(ep, ps, old(ep.seen), old(ep.calls), old(ep.sent))
  {
    hide Done, CodeOf, Feed, Deliverable, ShortTails, Readable, Accepted, EncodeAll;
    ghost var codeOf := CodeOf(ep.answer, ep.written, ep.signedChar);
    AnyCutIsSplit(ps, chunks, codeOf);
    if !intended {
      ShortTailsSuffice([], chunks, ep.buf.Length, codeOf);
    }
    assert ep.buf[..0] == [];
    code := ReceiveAll(ep, chunks, beyond, intended);
  }
}
