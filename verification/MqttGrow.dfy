/** Counting more bytes into a packet that is already on the list. */
module MqttGrow {
  import opened Bytes
  import opened MqttLength
  import opened MqttPacket
  import opened MqttDispatch
  import opened MqttBuffer
  import opened MqttPack
  import opened MqttSend
  import opened MqttRetry

  /** What becomes of a fixed header, given the bytes it has room for. */
  function Relength(room: seq<byte>, len: nat): (int, seq<byte>)
    requires |room| >= 5
  {
    var (ret, n) := Read(room[1..5]);
    if ret < 0 then (INVALID_PARAMETER, room)
    else if U32(n + len) < MAX4 then (NO_ERROR, [room[0]] + Dump(U32(n + len)))
    else (PKT_TOO_LARGE, [])
  }

  lemma RelengthIs(room: seq<byte>, len: nat, ret: int, n: nat)
    requires |room| >= 5 && (ret, n) == Read(room[1..5])
    ensures Relength(room, len) ==
      if ret < 0 then (INVALID_PARAMETER, room)
      else if U32(n + len) < MAX4 then (NO_ERROR, [room[0]] + Dump(U32(n + len)))
      else (PKT_TOO_LARGE, [])
  {
    hide Read, Dump, U32;
  }

  /** On a packet that can be read: the header fits the longer packet, and has kept its length iff
      both lengths take the same number of bytes. */
  lemma RelengthOfPacket(p: Packet, after: seq<byte>, more: seq<byte>)
    requires |p.body| < MAX3 && |p.body| + |more| < TWO32
    requires |[p.header] + Dump(|p.body|) + after| >= 5
    ensures var (code, bytes) := Relength([p.header] + Dump(|p.body|) + after, |more|);
      var grown := Packet(p.header, p.body + more);
      && (code == NO_ERROR <==> |p.body| + |more| < MAX4)
      && (code == NO_ERROR ==> bytes + p.body + more == Encode(grown))
      && (code == NO_ERROR ==> (|bytes| == 1 + |Dump(|p.body|)| <==> Width(|p.body| + |more|) == Width(|p.body|)))
      && (code != NO_ERROR ==> code == PKT_TOO_LARGE && bytes == [])
  {
    var n, room := |p.body|, [p.header] + Dump(|p.body|) + after;
    HeadReads(p.header, n, after);
    var m := |p.body + more|;
    RelengthIs(room, |more|, |Dump(n)|, n);
    Small32(m);
    if m < MAX4 {
      DumpHasWidth(n);
      DumpHasWidth(m);
      assert [p.header] + Dump(m) + p.body + more == [p.header] + Dump(m) + (p.body + more);
    }
    hide Dump, Read, Relength, U32, Width;
  }

  /** A count that is no longer right: 127 bytes and one more, whose header now takes three bytes. */
  lemma HeaderOutgrowsCount()
    ensures var (code, bytes) := Relength([0x30, 127, 0, 0, 0], 1); code == NO_ERROR && bytes == [0x30, 128, 1]
  {
    assert [0x30, 127, 0, 0, 0][1..5] == Dump(127) + [0, 0, 0];
    ReadsBack(127, [0, 0, 0]);
    RelengthIs([0x30, 127, 0, 0, 0], 1, 1, 127);
    assert Dump(128) == [128] + Dump(1) && Dump(1) == [1];
    assert Dump(128) == [128, 1];
    hide Read, Dump, Relength;
  }

  lemma HeadReads(header: byte, n: nat, after: seq<byte>)
    requires n < MAX3 && |[header] + Dump(n) + after| >= 5
    ensures Read(([header] + Dump(n) + after)[1..5]) == (|Dump(n)|, n)
  {
    DumpHasWidth(n);
    hide Dump, Read;
    assert ([header] + Dump(n) + after)[1..5] == Dump(n) + after[..4 - |Dump(n)|];
    ReadsBack(n, after[..4 - |Dump(n)|]);
  }

  /** Mqtt_AppendLength. The packet is the first on the list; buffered_bytes is not touched, so it is
      right afterwards iff the header is as long as before. */
  method AppendLength(buf: Buffer, len: nat) returns (r: int)
    requires buf.Valid() && buf.listed != [] && buf.listed[0].OwnsPayload() && |buf.listed[0].Room()| >= 5
    requires buf.listed[0].len > 0 && len < TWO32
    modifies buf.listed[..1]`len, buf.listed[0].home
    ensures var head := buf.listed[0];
      var bytes := Relength(old(head.Room()), len).1;
      && r == Relength(old(head.Room()), len).0
      && (r == INVALID_PARAMETER ==> Flat(buf.listed) == old(Flat(buf.listed)) && buf.Valid())
      && (r != INVALID_PARAMETER ==>
            && Flat(buf.listed) == bytes + Concat(old(Parts(buf.listed))[1..])
            && (buf.Valid() <==> |bytes| == old(head.len))
            && |Flat(buf.listed)| == buf.buffered + |bytes| - old(head.len))
  {
    hide Buffer.Valid, Parts, Concat, Payloads, Read, Dump, Extent.Room, Flat, Relength, U32;
    ghost var parts, room := Parts(buf.listed), buf.listed[0].Room();
    HeadRoom(buf);
    FlatFrom(buf.listed, parts);
    var head := buf.first;
    var ret, n := ReadLength(head.payload, head.start + 1, 4);
    RelengthIs(room, len, ret, n);
    FlatFrom(buf.listed, parts);
    assert Parts(buf.listed) == parts;
    if ret < 0 {
      return INVALID_PARAMETER;
    }
    var total := U32(n + len);
    if total < MAX4 {
      DumpHasWidth(total);
    }
    DumpHead(buf, head, total);
    return if head.len < 2 then PKT_TOO_LARGE else NO_ERROR;
  }

  /** A new length in the header, and its size; nothing of it is left when four bytes do not suffice. */
  method DumpHead(buf: Buffer, head: Extent, total: nat)
    requires buf.Valid() && buf.listed != [] && head == buf.listed[0] && head.OwnsPayload() && |head.Room()| >= 5
    requires head.len > 0
    modifies head`len, head.home
    ensures var bytes := if total < MAX4 then [old(head.Room())[0]] + Dump(total) else [];
      && head.len == |bytes|
      && Flat(buf.listed) == bytes + Concat(old(Parts(buf.listed))[1..])
      && (buf.Valid() <==> head.len == old(head.len))
      && |Flat(buf.listed)| == buf.buffered + head.len - old(head.len)
  {
    hide Buffer.Valid, Parts, Concat, Payloads, Dump, Extent.Room, Flat, Ordered, PayloadIn;
    ghost var parts := Parts(buf.listed);
    HeadRoom(buf);
    HeadIsCounted(buf);
    ValidFrom(buf);
    ghost var room, before := head.Room(), head.home[..];
    var bytes := buf.DumpInto(head, 1, total);
    HeaderIs(head.Room(), room, total, bytes);
    forall i | 0 < i < |buf.listed|
      ensures PayloadIn(buf.listed[i], buf.chunks) && buf.listed[i].Payload() == parts[i] && buf.listed[i] != head
    {
      Others(buf, i);
      buf.OthersKeep(head, before, buf.listed[i]);
    }
    head.len := bytes + 1;
    assert PayloadsFrom(buf, parts, 1);
    Resized(buf, head, parts, if bytes < 0 then [] else [room[0]] + Dump(total));
  }

  lemma Resized(buf: Buffer, head: Extent, parts: seq<seq<byte>>, now: seq<byte>)
    requires buf.listed != [] && head == buf.listed[0] && |parts| == |buf.listed|
    requires head.OwnsPayload() && head.at + HEADER + head.room <= head.home.Length && head.Room()[..head.len] == now
    requires Ordered(buf) && PayloadsFrom(buf, parts, 1)
    ensures Flat(buf.listed) == now + Concat(parts[1..])
    ensures buf.Valid() <==> buf.buffered == |now| + |Concat(parts[1..])|
  {
    hide Flat, Concat, Ordered, Buffer.Valid, Payloads;
    ConcatChanges(parts, now);
    HeadPayload(head);
    assert PayloadIn(head, buf.chunks);
    assert PayloadsFrom(buf, parts[0 := now], 0);
    Recount(buf, parts[0 := now]);
  }

  lemma HeadPayload(head: Extent)
    requires head.OwnsPayload() && head.at + HEADER + head.room <= head.home.Length
    ensures head.Payload() == head.Room()[..head.len] && head.start + head.len <= head.payload.Length
  {
    SubSlice(head.home[..], head.start, head.start + head.room, 0, head.len);
  }

  lemma HeadRoom(buf: Buffer)
    requires buf.Valid() && buf.listed != [] && buf.listed[0].OwnsPayload() && buf.listed[0].len > 0
    requires |buf.listed[0].Room()| >= 5
    ensures var ext := buf.listed[0];
      && buf.first == ext && ext in buf.made && ext.at + HEADER + ext.room <= ext.home.Length
      && ext.payload == ext.home && ext.start == ext.at + HEADER && |ext.Room()| == ext.room
      && ext.Room()[1..5] == ext.home[ext.start + 1..ext.start + 5]
  {
    hide Buffer.Valid, Concat, Parts, Payloads, Flat;
    FirstByte(buf);
    StartsAtFirst(buf);
    var ext := buf.listed[0];
    SubSlice(ext.home[..], ext.start, ext.start + ext.room, 1, 5);
  }

  lemma HeadIsCounted(buf: Buffer)
    requires buf.Valid() && buf.listed != []
    ensures buf.buffered == buf.listed[0].len + |Concat(Parts(buf.listed)[1..])|
  {
    hide Buffer.Valid, Concat, Parts, Payloads;
    StartsAtFirst(buf);
    ConcatHead(Parts(buf.listed));
  }

  lemma HeaderIs(now: seq<byte>, room: seq<byte>, total: nat, ret: int)
    requires |now| == |room| >= 5 && now[..1] == room[..1]
    requires total < MAX4 ==> 1 <= ret <= 4 && now[1..1 + ret] == Dump(total)
    requires total >= MAX4 ==> ret == -1
    ensures 0 <= ret + 1 <= 5
    ensures now[..ret + 1] == if ret < 0 then [] else [room[0]] + Dump(total)
  {
    hide Dump;
    assert now[0] == now[..1][0] == room[..1][0];
    if ret > 0 {
      assert now[..ret + 1] == now[..1] + now[1..1 + ret];
    }
  }

  /** What a buffer has to be whatever its extents hold. */
  ghost predicate Ordered(buf: Buffer)
    reads buf, buf.allocations, buf.listed`next
  {
    && buf.TableValid() && Cursor(buf.chunks, buf.chunk, buf.offset, buf.available)
    && Layout(buf.made, buf.chunks, buf.chunk, buf.offset)
    && Among(buf.listed, buf.made) && Linked(buf.listed, buf.first, buf.last)
  }

  ghost predicate PayloadsFrom(buf: Buffer, parts: seq<seq<byte>>, from: nat)
    reads buf, buf.listed, Payloads(buf.listed)
  {
    && |parts| == |buf.listed|
    && forall i :: from <= i < |parts| ==> PayloadIn(buf.listed[i], buf.chunks) && buf.listed[i].Payload() == parts[i]
  }

  lemma ValidFrom(buf: Buffer)
    requires buf.Valid()
    ensures Ordered(buf) && PayloadsFrom(buf, Parts(buf.listed), 0)
  {
    hide Buffer.TableValid, Cursor, Layout, Linked, PayloadIn, Total;
    forall i | 0 <= i < |buf.listed| ensures PayloadIn(buf.listed[i], buf.chunks) {
      assert buf.listed[i] in buf.listed;
    }
  }

  lemma Recount(buf: Buffer, parts: seq<seq<byte>>)
    requires Ordered(buf) && PayloadsFrom(buf, parts, 0)
    ensures Flat(buf.listed) == Concat(parts)
    ensures buf.Valid() <==> buf.buffered == |Concat(parts)|
  {
    FlatFrom(buf.listed, parts);
    TotalIsLength(buf.listed, buf.chunks);
    hide Buffer.TableValid, Cursor, Layout, Linked, Total, Concat, PayloadIn;
  }
}
