/** What the MQTT SDK does with a packet it has received: which callback it makes, what it answers,
    and what it writes into the packet on the way. */
module MqttDispatch {
  import opened Bytes
  import opened Utf8Check
  import opened MqttPacket

  const NO_ERROR: int := 0
  const ILLEGAL_PKT: int := -4
  const FAILED_SEND_RESPONSE: int := -14

  const DOLLAR: byte := 36
  const HASH: byte := 35
  const PLUS: byte := 43
  const COMMAND_PREFIX: seq<byte> := [36, 99, 114, 101, 113]

  type Qos = q: int | 0 <= q <= 2

  /** A callback and its arguments. A topic is the C string the callback can read. */
  datatype Callback =
    | OnPingResp
    | OnConnAck(ackFlags: byte, retCode: byte)
    | OnPublish(id: Id, topic: seq<byte>, payload: seq<byte>, dup: bool, qos: Qos)
    | OnCommand(id: Id, topic: seq<byte>, payload: seq<byte>, dup: bool, qos: Qos)
    | OnPubAck(id: Id)
    | OnPubRec(id: Id)
    | OnPubRel(id: Id)
    | OnPubComp(id: Id)
    | OnSubAck(id: Id, codes: seq<byte>)
    | OnUnsubAck(id: Id)

  /** What a packet means. Ignored: a topic under $ that is no command gets no callback but its answer. */
  datatype Verdict = Illegal | Ignored(id: Id, qos: Qos) | Call(call: Callback)

  /** The bytes before the first NUL. */
  function CString(s: seq<byte>): (c: seq<byte>)
    ensures |c| <= |s| && c == s[..|c|] && NulFree(c) && (|c| < |s| ==> s[|c|] == 0)
  {
    if s == [] || s[0] == 0 then [] else [s[0]] + CString(s[1..])
  }

  predicate HasWildcard(s: seq<byte>) {
    exists i :: 0 <= i < |s| && s[i] in {PLUS, HASH}
  }

  /** A topic that passes: it is UTF-8 to Mqtt_CheckUtf8, and the C string of it has no wildcard. */
  predicate TopicPasses(topic: seq<byte>, signedChar: bool) {
    Walk(topic, 0, signedChar, false) == |topic| && !HasWildcard(CString(topic))
  }

  function TopicVerdict(topic: seq<byte>, id: Id, payload: seq<byte>, dup: bool, qos: Qos, signedChar: bool): Verdict {
    var text := CString(topic);
    if !TopicPasses(topic, signedChar) then Illegal
    else if At(text, 0) != DOLLAR then Call(OnPublish(id, text, payload, dup, qos))
    else if StartsWith(text, COMMAND_PREFIX) then Call(OnCommand(id, text, payload, dup, qos))
    else Ignored(id, qos)
  }

  /** Mqtt_HandlePublish up to its callback. */
  function PublishVerdict(flags: byte, body: seq<byte>, signedChar: bool): Verdict
    requires flags < 16
  {
    var dup, qos, retain := flags >= 8, flags / 2 % 4, flags % 2 == 1;
    if |body| < 2 || retain then Illegal
    else
      var n := Read16(body[0], body[1]);
      if |body| < 2 + n then Illegal
      else if qos == 0 then
        if dup then Illegal
        else TopicVerdict(body[2..2 + n], 0, body[2 + n..], dup, qos, signedChar)
      else if qos == 3 || n + 4 > |body| then Illegal
      else
        var id := Read16(body[n + 2], body[n + 3]);
        if id == 0 then Illegal
        else TopicVerdict(body[2..2 + n], id, body[4 + n..], dup, qos, signedChar)
  }

  /** The handlers of the packets whose body is a packet id. */
  function IdVerdict(flags: byte, wanted: byte, body: seq<byte>, call: Id -> Callback): Verdict {
    if flags != wanted || |body| != 2 || Read16(body[0], body[1]) == 0 then Illegal
    else Call(call(Read16(body[0], body[1])))
  }

  predicate IsSubAckCode(b: byte) {
    b / 4 % 32 == 0
  }

  /** Mqtt_HandleSubAck up to its callback. */
  function SubAckVerdict(flags: byte, body: seq<byte>): Verdict {
    if flags != 0 || |body| < 2 || Read16(body[0], body[1]) == 0
       || exists i :: 2 <= i < |body| && !IsSubAckCode(body[i])
    then Illegal
    else Call(OnSubAck(Read16(body[0], body[1]), body[2..]))
  }

  /** Mqtt_Dispatch up to its callback. */
  function PacketVerdict(p: Packet, signedChar: bool): Verdict {
    var kind, flags: byte := p.header / 16, p.header % 16;
    var body := p.body;
    if kind == PINGRESP then if flags != 0 || body != [] then Illegal else Call(OnPingResp)
    else if kind == CONNACK then
      if flags != 0 || |body| != 2 || (body[0] % 2 == 1 && body[1] != 0) || ReturnCodeTooLarge(body[1], signedChar)
      then Illegal
      else Call(OnConnAck(body[0], body[1]))
    else if kind == PUBLISH then PublishVerdict(flags, body, signedChar)
    else if kind == PUBACK then IdVerdict(flags, 0, body, (i: Id) => OnPubAck(i))
    else if kind == PUBREC then IdVerdict(flags, 0, body, (i: Id) => OnPubRec(i))
    else if kind == PUBREL then IdVerdict(flags, 2, body, (i: Id) => OnPubRel(i))
    else if kind == PUBCOMP then IdVerdict(flags, 0, body, (i: Id) => OnPubComp(i))
    else if kind == SUBACK then SubAckVerdict(flags, body)
    else if kind == UNSUBACK then IdVerdict(flags, 0, body, (i: Id) => OnUnsubAck(i))
    else Illegal
  }

  /** ret_code > 5, compared as a plain char. */
  predicate ReturnCodeTooLarge(b: byte, signedChar: bool) {
    b > 5 && !(signedChar && b >= 128)
  }

  /** What is packed in answer once the callback has succeeded. */
  datatype Answer = Nothing | Reply(packet: Packet)

  function PublishAnswer(id: Id, qos: Qos): Answer {
    if qos == 1 then Reply(Ack(PUBACK, id)) else if qos == 2 then Reply(Ack(PUBREC, id)) else Nothing
  }

  function AnswerTo(v: Verdict): Answer {
    match v
    case Illegal => Nothing
    case Ignored(id, qos) => PublishAnswer(id, qos)
    case Call(OnPublish(id, _, _, _, qos)) => PublishAnswer(id, qos)
    case Call(OnCommand(id, _, _, _, qos)) => PublishAnswer(id, qos)
    case Call(OnPubRec(id)) => Reply(Ack(PUBREL, id))
    case Call(OnPubRel(id)) => Reply(Ack(PUBCOMP, id))
    case Call(_) => Nothing
  }

  /** What one packet leads to: the code returned, the callbacks made and the answers sent. */
  datatype Reaction = Reaction(code: int, calls: seq<Callback>, sent: seq<seq<byte>>)

  /** answer is what the callbacks return, written what writev_func returns for the bytes of an answer. */
  function React(v: Verdict, answer: Callback -> int, written: seq<byte> -> int): Reaction {
    if v.Illegal? then Reaction(ILLEGAL_PKT, [], [])
    else
      var calls := if v.Call? then [v.call] else [];
      var err := if v.Call? then answer(v.call) else NO_ERROR;
      if err < 0 || AnswerTo(v).Nothing? then Reaction(err, calls, [])
      else
        var bytes := Encode(AnswerTo(v).packet);
        Reaction(if written(bytes) == |bytes| then NO_ERROR else FAILED_SEND_RESPONSE, calls, [bytes])
  }

  // ---------- the handlers ----------

  /** The buffer of a MqttContext, its callbacks, and what has been called and sent so far. */
  class Endpoint {
    const buf: array<byte>
    const answer: Callback -> int
    const written: seq<byte> -> int
    const signedChar: bool
    var pos: nat
    var calls: seq<Callback>
    var sent: seq<seq<byte>>
    ghost var seen: seq<Packet>

    constructor (size: nat, answer: Callback -> int, written: seq<byte> -> int, signedChar: bool)
      ensures this.answer == answer && this.written == written && this.signedChar == signedChar
      ensures fresh(buf) && buf.Length == size && pos == 0 && calls == [] && sent == [] && seen == []
    {
      this.buf := new byte[size](i => 0);
      this.answer, this.written, this.signedChar := answer, written, signedChar;
      pos, calls, sent, seen := 0, [], [], [];
    }

    /** Call back, and answer when that succeeds. */
    method Conclude(v: Verdict) returns (code: int)
      modifies this`calls, this`sent
      ensures var r := React(v, answer, written);
              code == r.code && calls == old(calls) + r.calls && sent == old(sent) + r.sent
    {
      if v.Illegal? {
        return ILLEGAL_PKT;
      }
      code := NO_ERROR;
      if v.Call? {
        calls := calls + [v.call];
        code := answer(v.call);
      }
      if code >= 0 && AnswerTo(v).Reply? {
        var bytes := Encode(AnswerTo(v).packet);
        sent := sent + [bytes];
        code := if written(bytes) == |bytes| then NO_ERROR else FAILED_SEND_RESPONSE;
      }
    }

    /** memmove(dst, src, n), for a destination before the source. */
    method MoveDown(dst: nat, src: nat, n: nat)
      requires dst <= src && src + n <= buf.Length
      modifies buf
      ensures buf[dst..dst + n] == old(buf[src..src + n])
      ensures forall k :: 0 <= k < dst || dst + n <= k < buf.Length ==> buf[k] == old(buf[k])
    {
      ghost var t := buf[..];
      var i := 0;
      while i < n
        invariant 0 <= i <= n
        invariant buf[dst..dst + i] == t[src..src + i]
        invariant forall k :: 0 <= k < dst || dst + i <= k < buf.Length ==> buf[k] == old(buf[k])
      {
        buf[dst + i] := buf[src + i];
        assert buf[dst..dst + (i + 1)] == buf[dst..dst + i] + [t[src + i]];
        i := i + 1;
      }
    }

    /** The scan of a topic for wildcards, up to its NUL. */
    method ScanTopic(at: nat, n: nat) returns (wild: bool)
      requires at + n < buf.Length && buf[at + n] == 0
      ensures wild <==> HasWildcard(CString(buf[at..at + n]))
    {
      ghost var text := CString(buf[at..at + n]);
      assert |text| < n ==> buf[at..at + n][|text|] == 0;
      assert forall k :: 0 <= k < |text| ==> buf[at + k] == buf[at..at + n][k] == text[k] != 0;
      hide CString;
      var i := 0;
      while buf[at + i] != 0
        invariant 0 <= i <= |text| && (i < |text| ==> buf[at + i] == text[i] != 0)
        invariant forall k :: 0 <= k < i ==> text[k] !in {PLUS, HASH}
        decreases n - i
      {
        assert i < |text|;
        if buf[at + i] == PLUS || buf[at + i] == HASH {
          return true;
        }
        i := i + 1;
      }
      assert i == |text|;
      return false;
    }

    /** The topic at index at, n bytes and their NUL, has been set up: check it and call back. */
    method DeliverTopic(at: nat, n: nat, id: Id, payloadAt: nat, end: nat, dup: bool, qos: Qos) returns (code: int)
      requires at + n < buf.Length && buf[at + n] == 0 && payloadAt <= end <= buf.Length
      modifies this`calls, this`sent
      ensures var v := TopicVerdict(buf[at..at + n], id, buf[payloadAt..end], dup, qos, signedChar);
              var r := React(v, answer, written);
              code == r.code && calls == old(calls) + r.calls && sent == old(sent) + r.sent
    {
      hide React, Walk;
      var checked := CheckUtf8(buf[at..at + n], signedChar);
      if checked != n {
        code := Conclude(Illegal);
        return;
      }
      var wild := ScanTopic(at, n);
      if wild {
        code := Conclude(Illegal);
        return;
      }
      var topic := CString(buf[at..at + n]);
      if At(topic, 0) == DOLLAR {
        if StartsWith(topic, COMMAND_PREFIX) {
          code := Conclude(Call(OnCommand(id, topic, buf[payloadAt..end], dup, qos)));
        } else {
          code := Conclude(Ignored(id, qos));
        }
      } else {
        code := Conclude(Call(OnPublish(id, topic, buf[payloadAt..end], dup, qos)));
      }
    }

    /** Put the topic at index to and end it: for QoS 0 it is moved over its length bytes, else its NUL
        takes the place of the first byte of the packet id. */
    method SetUpTopic(at: nat, to: nat, n: nat, size: nat)
      requires to == at || to == at + 2
      requires at + size <= buf.Length && 2 + n <= size && (to == at + 2 ==> n + 4 <= size)
      modifies buf
      ensures buf[to..to + n] == old(buf[at + 2..at + 2 + n]) && buf[to + n] == 0
      ensures buf[to + n + 2..at + size] == old(buf[at..at + size][to - at + n + 2..])
      ensures buf[..at] == old(buf[..at]) && buf[at + size..] == old(buf[at + size..])
    {
      if to == at {
        MoveDown(at, at + 2, n);
      }
      assert buf[to..to + n] == old(buf[at + 2..at + 2 + n]);
      ghost var topic := buf[to..to + n];
      buf[to + n] := 0;
      assert buf[to..to + n] == topic;
    }

    /** Mqtt_HandlePublish once the lengths have been checked. */
    method PublishQos0(at: nat, n: nat, size: nat) returns (code: int)
      requires at + size <= buf.Length && 2 + n <= size
      modifies buf, this`calls, this`sent
      ensures var body := old(buf[at..at + size]);
              var r := React(TopicVerdict(body[2..2 + n], 0, body[2 + n..], false, 0, signedChar), answer, written);
              && code == r.code && calls == old(calls) + r.calls && sent == old(sent) + r.sent
              && buf[at + n + 2..at + size] == body[2 + n..]
      ensures buf[..at] == old(buf[..at]) && buf[at + size..] == old(buf[at + size..])
    {
      hide React, TopicVerdict;
      SubSlice(buf[..], at, at + size, 2, 2 + n);
      SetUpTopic(at, at, n, size);
      code := DeliverTopic(at, n, 0, at + 2 + n, at + size, false, 0);
    }

    method PublishWithId(at: nat, n: nat, id: Id, size: nat, dup: bool, qos: Qos) returns (code: int)
      requires at + size <= buf.Length && 4 + n <= size
      modifies buf, this`calls, this`sent
      ensures var body := old(buf[at..at + size]);
              var r := React(TopicVerdict(body[2..2 + n], id, body[4 + n..], dup, qos, signedChar), answer, written);
              && code == r.code && calls == old(calls) + r.calls && sent == old(sent) + r.sent
              && buf[at + n + 4..at + size] == body[4 + n..]
      ensures buf[..at] == old(buf[..at]) && buf[at + size..] == old(buf[at + size..])
    {
      hide React, TopicVerdict;
      SubSlice(buf[..], at, at + size, 2, 2 + n);
      SetUpTopic(at, at + 2, n, size);
      code := DeliverTopic(at + 2, n, id, at + 4 + n, at + size, dup, qos);
    }

    /** Mqtt_HandlePublish, on the body buf[at..at + size]. Nothing behind the topic and its packet id
        changes, and nothing outside the body. */
    method HandlePublish(flags: byte, at: nat, size: nat) returns (code: int)
      requires flags < 16 && at + size <= buf.Length
      modifies buf, this`calls, this`sent
      ensures var r := React(PublishVerdict(flags, old(buf[at..at + size]), signedChar), answer, written);
              code == r.code && calls == old(calls) + r.calls && sent == old(sent) + r.sent
      ensures var k := PayloadStart(flags, old(buf[at..at + size]));
              k <= size && buf[at + k..at + size] == old(buf[at..at + size])[k..]
      ensures buf[..at] == old(buf[..at]) && buf[at + size..] == old(buf[at + size..])
    {
      hide React, TopicVerdict;
      ghost var body := buf[at..at + size];
      assert size >= 2 ==> body[0] == buf[at] && body[1] == buf[at + 1];
      var dup, qos, retain := flags >= 8, flags / 2 % 4, flags % 2 == 1;
      if size < 2 || retain {
        code := Conclude(Illegal);
        return;
      }
      var n := Read16(buf[at], buf[at + 1]);
      if size < 2 + n || qos == 3 || (qos == 0 && dup) || (qos > 0 && n + 4 > size) {
        code := Conclude(Illegal);
      } else if qos == 0 {
        code := PublishQos0(at, n, size);
      } else {
        assert body[n + 2] == buf[at + n + 2] && body[n + 3] == buf[at + n + 3];
        var id := Read16(buf[at + n + 2], buf[at + n + 3]);
        if id == 0 {
          code := Conclude(Illegal);
        } else {
          code := PublishWithId(at, n, id, size, dup, qos);
        }
      }
    }

    /** The handlers of the packets whose body is a packet id. */
    method HandleId(flags: byte, wanted: byte, at: nat, size: nat, call: Id -> Callback) returns (code: int)
      requires at + size <= buf.Length
      modifies this`calls, this`sent
      ensures var r := React(IdVerdict(flags, wanted, buf[at..at + size], call), answer, written);
              code == r.code && calls == old(calls) + r.calls && sent == old(sent) + r.sent
    {
      hide React;
      if flags != wanted || size != 2 || Read16(buf[at], buf[at + 1]) == 0 {
        code := Conclude(Illegal);
      } else {
        code := Conclude(Call(call(Read16(buf[at], buf[at + 1]))));
      }
    }

    /** Mqtt_HandleSubAck */
    method HandleSubAck(flags: byte, at: nat, size: nat) returns (code: int)
      requires at + size <= buf.Length
      modifies this`calls, this`sent
      ensures var r := React(SubAckVerdict(flags, buf[at..at + size]), answer, written);
              code == r.code && calls == old(calls) + r.calls && sent == old(sent) + r.sent
    {
      hide React;
      ghost var body := buf[at..at + size];
      if flags != 0 || size < 2 || Read16(buf[at], buf[at + 1]) == 0 {
        code := Conclude(Illegal);
        return;
      }
      var k := 2;
      while k < size
        invariant 2 <= k <= size && calls == old(calls) && sent == old(sent)
        invariant forall i :: 2 <= i < k ==> IsSubAckCode(body[i])
      {
        if !IsSubAckCode(buf[at + k]) {
          assert !IsSubAckCode(body[k]);
          code := Conclude(Illegal);
          return;
        }
        k := k + 1;
      }
      code := Conclude(Call(OnSubAck(Read16(buf[at], buf[at + 1]), buf[at..at + size][2..])));
    }

    /** Mqtt_Dispatch, on the body buf[at..at + size]. */
    method Dispatch(header: byte, at: nat, size: nat) returns (code: int)
      requires at + size <= buf.Length
      modifies buf, this`calls, this`sent, this`seen
      ensures var p := Packet(header, old(buf[at..at + size]));
              var r := React(PacketVerdict(p, signedChar), answer, written);
              && seen == old(seen) + [p]
              && code == r.code && calls == old(calls) + r.calls && sent == old(sent) + r.sent
      ensures buf[..at] == old(buf[..at]) && buf[at + size..] == old(buf[at + size..])
    {
      hide React, PublishVerdict, SubAckVerdict, IdVerdict;
      seen := seen + [Packet(header, buf[at..at + size])];
      var kind, flags: byte := header / 16, header % 16;
      if kind == PINGRESP {
        code := Conclude(if flags != 0 || size != 0 then Illegal else Call(OnPingResp));
      } else if kind == CONNACK {
        if flags != 0 || size != 2 {
          code := Conclude(Illegal);
        } else {
          var ackFlags, retCode := buf[at], buf[at + 1];
          if (ackFlags % 2 == 1 && retCode != 0) || ReturnCodeTooLarge(retCode, signedChar) {
            code := Conclude(Illegal);
          } else {
            code := Conclude(Call(OnConnAck(ackFlags, retCode)));
          }
        }
      } else if kind == PUBLISH {
        code := HandlePublish(flags, at, size);
      } else if kind == PUBACK {
        code := HandleId(flags, 0, at, size, (i: Id) => OnPubAck(i));
      } else if kind == PUBREC {
        code := HandleId(flags, 0, at, size, (i: Id) => OnPubRec(i));
      } else if kind == PUBREL {
        code := HandleId(flags, 2, at, size, (i: Id) => OnPubRel(i));
      } else if kind == PUBCOMP {
        code := HandleId(flags, 0, at, size, (i: Id) => OnPubComp(i));
      } else if kind == SUBACK {
        code := HandleSubAck(flags, at, size);
      } else if kind == UNSUBACK {
        code := HandleId(flags, 0, at, size, (i: Id) => OnUnsubAck(i));
      } else {
        code := Conclude(Illegal);
      }
    }
  }

  /** Where the payload of a PUBLISH starts; the end of a body that has none. */
  function PayloadStart(flags: byte, body: seq<byte>): (k: nat)
    ensures k <= |body|
  {
    if |body| < 2 then |body|
    else
      var k := Read16(body[0], body[1]) + (if flags / 2 % 4 == 0 then 2 else 4);
      if k <= |body| then k else |body|
  }
}
