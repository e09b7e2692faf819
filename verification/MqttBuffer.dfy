/** The buffer packets are packed into: chunks of memory, extents carved from them, and their list. */
module MqttBuffer {
  import opened Bytes
  import opened Memory
  import opened MqttLength

  /** sizeof(struct MqttExtent) and the alignment, where pointers and int have four bytes. */
  const HEADER: nat := 12
  const ALIGNMENT: nat := 4
  const MIN_EXTENT_SIZE: nat := 1024
  const TWO32: nat := 0x1_0000_0000

  function U32(n: nat): nat {
    n % TWO32
  }

  lemma Small32(n: nat)
    requires n < TWO32
    ensures U32(n) == n
  {
  }

  /** What an extent for that many bytes takes. */
  function Span(bytes: nat): nat {
    var n := bytes + HEADER;
    n + (ALIGNMENT - n % ALIGNMENT) % ALIGNMENT
  }

  lemma SpanIsAligned(bytes: nat)
    ensures Span(bytes) % ALIGNMENT == 0 && bytes + HEADER <= Span(bytes) < bytes + HEADER + ALIGNMENT
  {
  }

  /** aligned_bytes, in 32 bits. */
  method Align(bytes: nat) returns (aligned: nat)
    requires bytes + HEADER + ALIGNMENT <= TWO32
    ensures aligned == Span(bytes) > 0
  {
    aligned := U32(bytes + HEADER);
    aligned := U32(aligned + (ALIGNMENT - aligned % ALIGNMENT) % ALIGNMENT);
  }

  /** struct MqttExtent. It lies at offset at of the chunk home, and room bytes were asked for behind it. */
  class Extent {
    const home: array<byte>
    const at: nat
    const room: nat
    var len: nat
    var payload: array<byte>
    var start: nat
    var next: Extent?

    constructor (home: array<byte>, at: nat, room: nat)
      ensures this.home == home && this.at == at && this.room == room
      ensures len == room && payload == home && start == at + HEADER && next == null
    {
      this.home, this.at, this.room := home, at, room;
      len, payload, start, next := room, home, at + HEADER, null;
    }

    /** The payload is the room behind the extent itself. */
    predicate OwnsPayload()
      reads `len, `payload, `start
    {
      payload == home && start == at + HEADER && len <= room
    }

    ghost function Payload(): seq<byte>
      reads `len, `payload, `start, payload
    {
      if start + len <= payload.Length then payload[start..start + len] else []
    }

    /** The bytes it was given. */
    ghost function Room(): seq<byte>
      reads home
    {
      if at + HEADER + room <= home.Length then home[at + HEADER..at + HEADER + room] else []
    }
  }

  /** An extent lies in its chunk, aligned, with its room. */
  predicate Placed(e: Extent) {
    e.at % ALIGNMENT == 0 && e.at + Span(e.room) <= e.home.Length
  }

  /** e lies before f. */
  predicate Before(e: Extent, f: Extent) {
    e.home == f.home ==> e.at + Span(e.room) <= f.at
  }

  function Sum(ns: seq<nat>): nat {
    if ns == [] then 0 else Sum(ns[..|ns| - 1]) + ns[|ns| - 1]
  }

  ghost function Lens(es: seq<Extent>): (ns: seq<nat>)
    reads es`len
    ensures |ns| == |es| && forall i :: 0 <= i < |es| ==> ns[i] == es[i].len
    decreases |es|
  {
    if es == [] then [] else Lens(es[..|es| - 1]) + [es[|es| - 1].len]
  }

  ghost function Payloads(es: seq<Extent>): set<array<byte>>
    reads es`payload
  {
    set e | e in es :: e.payload
  }

  ghost function Parts(es: seq<Extent>): (ps: seq<seq<byte>>)
    reads es`len, es`payload, es`start, Payloads(es)
    ensures |ps| == |es| && forall i :: 0 <= i < |es| ==> ps[i] == es[i].Payload()
    decreases |es|
  {
    if es == [] then [] else Parts(es[..|es| - 1]) + [es[|es| - 1].Payload()]
  }

  /** How many bytes a list holds. */
  ghost function Total(es: seq<Extent>): nat
    reads es`len
  {
    Sum(Lens(es))
  }

  /** The bytes of a list. */
  ghost function Flat(es: seq<Extent>): seq<byte>
    reads es`len, es`payload, es`start, Payloads(es)
  {
    Concat(Parts(es))
  }

  ghost function Objects(chunks: seq<array<byte>>): set<object> {
    set i | 0 <= i < |chunks| :: chunks[i]
  }

  /** Chunks in use, the current one last; available bytes are left in it behind offset. */
  ghost predicate Cursor(chunks: seq<array<byte>>, chunk: array?<byte>, offset: nat, available: nat) {
    && (forall i, j :: 0 <= i < j < |chunks| ==> chunks[i] != chunks[j])
    && if chunks == [] then available == 0
       else chunk == chunks[|chunks| - 1] && offset + available == chunk.Length && offset % ALIGNMENT == 0
  }

  /** Extents lie in chunks, aligned, apart from one another and from what is still available. */
  ghost predicate Layout(made: seq<Extent>, chunks: seq<array<byte>>, chunk: array?<byte>, offset: nat) {
    && (forall i :: 0 <= i < |made| ==> Placed(made[i]) && made[i].home in chunks)
    && (forall i :: 0 <= i < |made| && made[i].home == chunk ==> made[i].at + Span(made[i].room) <= offset)
    && (forall i, j :: 0 <= i < j < |made| ==> Before(made[i], made[j]))
  }

  /** A payload is the extent's own room, or memory that is no chunk of the buffer. */
  ghost predicate PayloadIn(e: Extent, chunks: seq<array<byte>>)
    reads e`len, e`payload, e`start
  {
    e.start + e.len <= e.payload.Length && (e.OwnsPayload() || e.payload !in chunks)
  }

  ghost predicate PayloadsIn(es: seq<Extent>, chunks: seq<array<byte>>)
    reads es`len, es`payload, es`start
  {
    forall e :: e in es ==> PayloadIn(e, chunks)
  }

  predicate Among(es: seq<Extent>, made: seq<Extent>) {
    forall e :: e in es ==> e in made
  }

  /** The list from first to last. */
  ghost predicate Linked(es: seq<Extent>, first: Extent?, last: Extent?)
    reads es`next
  {
    && (forall i :: 0 <= i < |es| ==> NextIs(es[i], ExtentAt(es, i + 1)))
    && (forall i, j :: 0 <= i < j < |es| ==> es[i] != es[j])
    && first == ExtentAt(es, 0) && last == ExtentAt(es, |es| - 1)
  }

  function ExtentAt(es: seq<Extent>, i: int): Extent? {
    if 0 <= i < |es| then es[i] else null
  }

  ghost predicate NextIs(e: Extent, next: Extent?)
    reads e`next
  {
    e.next == next
  }

  /** A new extent at the offset, which then moves on. */
  lemma LayoutGrows(made: seq<Extent>, chunks: seq<array<byte>>, chunk: array<byte>, offset: nat, available: nat,
                    e: Extent)
    requires Layout(made, chunks, chunk, offset) && Cursor(chunks, chunk, offset, available) && chunks != []
    requires e.home == chunk && e.at == offset && Span(e.room) <= available
    ensures Layout(made + [e], chunks, chunk, offset + Span(e.room))
    ensures Cursor(chunks, chunk, offset + Span(e.room), available - Span(e.room))
  {
    SpanIsAligned(e.room);
    hide Span;
    StaysAligned(offset, Span(e.room));
    forall i | 0 <= i < |made| ensures Before(made[i], e) {
    }
  }

  lemma StaysAligned(a: nat, b: nat)
    requires a % ALIGNMENT == b % ALIGNMENT == 0
    ensures (a + b) % ALIGNMENT == 0
  {
  }

  /** A new chunk takes the place of the current one. */
  lemma LayoutMovesOn(made: seq<Extent>, chunks: seq<array<byte>>, chunk: array?<byte>, offset: nat, c: array<byte>)
    requires Layout(made, chunks, chunk, offset) && c !in chunks
    ensures Layout(made, chunks + [c], c, 0)
  {
    hide Span;
  }

  class Buffer {
    var first: Extent?
    var last: Extent?
    var available: nat
    var allocations: array?<array?<byte>>
    var chunk: array?<byte>
    var offset: nat
    var count: nat
    var max: nat
    var buffered: nat
    ghost var chunks: seq<array<byte>>
    ghost var made: seq<Extent>
    ghost var listed: seq<Extent>

    /** The table holds the chunks, and has room for max of them: no more than twice as many, and one. */
    ghost predicate TableValid()
      reads this`allocations, this`count, this`max, this`chunks, allocations
    {
      && count == |chunks| <= max <= 2 * count + 1
      && (if allocations == null then max == 0 else allocations.Length == max)
      && (forall i :: 0 <= i < count ==> allocations[i] == chunks[i])
    }

    ghost predicate Valid()
      reads this, allocations, listed
    {
      && TableValid() && Cursor(chunks, chunk, offset, available) && Layout(made, chunks, chunk, offset)
      && Among(listed, made) && PayloadsIn(listed, chunks)
      && Linked(listed, first, last) && buffered == Total(listed)
    }

    /** What the buffer has taken from malloc. */
    ghost function Held(): set<object>
      reads this`chunks, this`allocations
    {
      Objects(chunks) + (if allocations == null then {} else {allocations})
    }

    /** MqttBuffer_Init */
    constructor ()
      ensures Valid() && listed == [] && made == [] && Held() == {} && max == buffered == 0
    {
      first, last, available, allocations, chunk, offset := null, null, 0, null, null, 0;
      count, max, buffered := 0, 0, 0;
      chunks, made, listed := [], [], [];
    }

    /** A table of twice the size and one, with the old entries. */
    method GrowTable(heap: Heap)
      requires TableValid() && count == max && count < 0x800_0000 && Held() <= heap.live
      modifies heap`live, this`allocations, this`max, allocations
      ensures TableValid() && count < max == 2 * old(max) + 1
      ensures fresh(allocations) && Held() <= heap.live == old(heap.live) - old(Held()) + Held()
      ensures fresh(Held() - old(Held()))
    {
      var maxCount := U32(max * 2 + 1);
      assert maxCount == max * 2 + 1;
      var tmp: array<array?<byte>> := new array?<byte>[maxCount](_ => null);
      heap.live := heap.live + {tmp};
      CopyTable(tmp, allocations, max);
      if allocations != null {
        heap.Free(allocations);
      }
      max, allocations := maxCount, tmp;
    }

    /** Room for one more entry. */
    method Reserve(heap: Heap)
      requires TableValid() && count < 0x800_0000 && Held() <= heap.live
      modifies heap`live, this`allocations, this`max, allocations
      ensures TableValid() && count < max && (allocations == old(allocations) || fresh(allocations))
      ensures allocations != null && Held() <= heap.live == old(heap.live) - old(Held()) + Held()
      ensures fresh(Held() - old(Held()))
    {
      hide Held;
      if count == max {
        GrowTable(heap);
      }
    }

    /** The next entry of the table, which has room for it. */
    method Enter(heap: Heap, c: array<byte>)
      requires TableValid() && count < max && c !in chunks && Held() + {c} <= heap.live
      modifies this`count, this`chunks, allocations
      ensures TableValid() && chunks == old(chunks) + [c] && Held() == old(Held()) + {c} <= heap.live
      ensures count == old(count) + 1
    {
      count := count + 1;
      allocations[count - 1] := c;
      chunks := chunks + [c];
      assert forall i :: 0 <= i < |old(chunks)| ==> chunks[i] == old(chunks)[i];
      assert chunks[count - 1] == c;
    }

    /** A chunk of at least MIN_EXTENT_SIZE bytes, entered in the table. What is left of the old one is lost. */
    method NewChunk(heap: Heap, bytes: nat)
      requires TableValid() && Held() <= heap.live && count < 0x800_0000
      modifies heap`live, this`available, this`allocations, this`chunk, this`offset, this`count, this`max
      modifies this`chunks, allocations
      ensures TableValid() && fresh(chunk) && chunks == old(chunks) + [chunk] && offset == 0
      ensures Held() <= heap.live == old(heap.live) - old(Held()) + Held()
      ensures fresh(Held() - old(Held()))
      ensures available == chunk.Length == if bytes < MIN_EXTENT_SIZE then MIN_EXTENT_SIZE else bytes
      ensures count <= old(count) + 1 && (allocations == old(allocations) || fresh(allocations))
    {
      hide TableValid, Held;
      Reserve(heap);
      var allocBytes := if bytes < MIN_EXTENT_SIZE then MIN_EXTENT_SIZE else bytes;
      ghost var held := Held();
      var c := new byte[allocBytes];
      heap.live := heap.live + {c};
      Enter(heap, c);
      assert Held() == held + {c};
      available, chunk, offset := allocBytes, c, 0;
    }

    /** The first half of MqttBuffer_AllocExtent: a chunk with that much left. */
    method EnsureRoom(heap: Heap, aligned: nat)
      requires Valid() && Held() <= heap.live && count < 0x800_0000 && aligned > 0
      modifies heap`live, this`available, this`allocations, this`chunk, this`offset, this`count, this`max
      modifies this`chunks, allocations
      ensures Valid() && chunks != [] && chunk != null && aligned <= available && fresh(Held() - old(Held()))
      ensures Held() <= heap.live == old(heap.live) - old(Held()) + Held()
      ensures old(chunks) <= chunks && (forall i :: |old(chunks)| <= i < |chunks| ==> fresh(chunks[i]))
      ensures count <= old(count) + 1 && (allocations == old(allocations) || fresh(allocations))
    {
      hide TableValid, Held, Linked, Total, PayloadsIn, Layout, Cursor, Payloads;
      if available < aligned {
        NewChunk(heap, aligned);
        LayoutMovesOn(made, old(chunks), old(chunk), old(offset), chunk);
        CursorMovesOn(old(chunks), old(chunk), old(offset), old(available), chunk);
        PayloadsStay(listed, old(chunks), chunk);
      }
      CursorHasChunk(chunks, chunk, offset, available);
    }

    /** The second half: an extent at the offset. */
    method Carve(bytes: nat, aligned: nat) returns (ext: Extent)
      requires Valid() && chunks != [] && chunk != null && aligned == Span(bytes) <= available
      modifies this`available, this`offset, this`made
      ensures Valid() && fresh(ext) && made == old(made) + [ext]
      ensures ext.room == ext.len == bytes && ext.OwnsPayload() && ext.next == null && ext.home == chunk
    {
      hide TableValid, Held, Linked, Total, PayloadsIn, Layout, Cursor, Span;
      ext := new Extent(chunk, offset, bytes);
      LayoutGrows(made, chunks, chunk, offset, available, ext);
      offset, available := offset + aligned, available - aligned;
      made := made + [ext];
    }

    /** MqttBuffer_AllocExtent: room for that many bytes, in memory that no other extent has. */
    method AllocExtent(heap: Heap, bytes: nat) returns (ext: Extent)
      requires Valid() && Held() <= heap.live && bytes + HEADER + ALIGNMENT <= TWO32 && count < 0x800_0000
      modifies heap`live, this`available, this`allocations, this`chunk, this`offset, this`count, this`max, this`chunks
      modifies this`made, allocations
      ensures Valid() && Held() <= heap.live == old(heap.live) - old(Held()) + Held()
      ensures fresh(ext) && made == old(made) + [ext] && ext.room == ext.len == bytes && ext.OwnsPayload()
        && ext.next == null
      ensures old(chunks) <= chunks && (forall i :: |old(chunks)| <= i < |chunks| ==> fresh(chunks[i]))
      ensures count <= old(count) + 1 && (allocations == old(allocations) || fresh(allocations))
      ensures Flat(listed) == old(Flat(listed)) && (ext.home in old(chunks) || fresh(ext.home))
      ensures fresh(Footprint() - old(Footprint())) && fresh(Held() - old(Held()))
    {
      hide Valid, Held, Payloads, Concat, Flat, Parts, Span;
      ghost var parts := Parts(listed);
      FlatFrom(listed, parts);
      var aligned := Align(bytes);
      EnsureRoom(heap, aligned);
      ext := Carve(bytes, aligned);
      InFootprint(ext);
      FlatFrom(listed, parts);
    }

    lemma HasChunk(ext: Extent)
      requires TableValid() && Layout(made, chunks, chunk, offset) && ext in made
      ensures count >= 1
    {
      hide Span;
    }

    /** The pointers of MqttBuffer_AppendExtent. */
    method Hang(ext: Extent)
      requires Linked(listed, first, last) && ext !in listed && count >= 1
      modifies this`first, this`last, this`listed, ext`next, (if last == null then {} else {last})`next
      ensures Linked(listed, first, last) && listed == old(listed) + [ext]
    {
      hide TableValid;
      ghost var es := listed;
      ext.next := null;
      if last != null {
        last.next := ext;
        last := ext;
      } else {
        assert first == null && 1 <= count && es == [];
        first := ext;
        last := ext;
      }
      listed := es + [ext];
      forall i | 0 <= i < |listed| ensures NextIs(listed[i], ExtentAt(listed, i + 1)) {
        assert i < |es| ==> old(NextIs(es[i], ExtentAt(es, i + 1))) && listed[i] == es[i];
      }
    }

    /** MqttBuffer_AppendExtent, for an extent of this buffer that is not on its list yet. */
    method AppendExtent(ext: Extent)
      requires Valid() && ext in made && ext !in listed && PayloadIn(ext, chunks) && buffered + ext.len < TWO32
      modifies this`first, this`last, this`buffered, this`listed, ext`next, (if last == null then {} else {last})`next
      ensures Valid() && listed == old(listed) + [ext] && ext.Payload() == old(ext.Payload())
      ensures Flat(listed) == old(Flat(listed)) + ext.Payload() && buffered == old(buffered) + ext.len
    {
      hide TableValid, Cursor, Payloads, Layout, Linked, Concat, Sum, Flat, Total, PayloadsIn, PayloadIn, Among, Lens;
      hide Parts, U32, Extent.Payload;
      Small32(buffered + ext.len);
      FlatIs(listed);
      ghost var es := listed;
      ghost var parts, ns := Parts(es), Lens(es);
      AllIn(es, ext, made, chunks);
      HasChunk(ext);
      Hang(ext);
      buffered := U32(buffered + ext.len);
      ListAppends(es, ext, parts, ns);
    }

    /** Bytes of a chunk that no other extent has: what the others hold stays. */
    ghost predicate OnlyRoomChanged(ext: Extent, before: seq<byte>)
      reads ext.home
    {
      && |before| == ext.home.Length
      && forall k :: 0 <= k < |before| && !(ext.at + HEADER <= k < ext.at + HEADER + ext.room) ==>
        ext.home[k] == before[k]
    }

    /** Filling the room of one extent changes no other room, and no listed payload but its own. */
    lemma OthersKeep(ext: Extent, before: seq<byte>, e: Extent)
      requires Valid() && ext in made && OnlyRoomChanged(ext, before) && e != ext
      ensures e in made && e.home == ext.home ==>
        e.at + HEADER + e.room <= |before| && e.Room() == before[e.at + HEADER..e.at + HEADER + e.room]
      ensures e in listed && e.payload == ext.home ==>
        e.start + e.len <= |before| && e.Payload() == before[e.start..e.start + e.len]
    {
      hide TableValid, Cursor, Linked, Total;
      RoomFits(made, chunks, chunk, offset, ext);
      if e in made && e.home == ext.home {
        RoomsApart(made, chunks, chunk, offset, e, ext);
      }
      hide Layout;
    }

    /** memcpy into the room of an extent that is not listed yet. */
    method Write(ext: Extent, at: nat, data: seq<byte>)
      requires Valid() && ext in made && ext !in listed && at + |data| <= ext.room
      modifies ext.home
      ensures |ext.Room()| == ext.room && ext.Room()[at..at + |data|] == data
      ensures ext.Room()[..at] == old(ext.Room()[..at]) && ext.Room()[at + |data|..] == old(ext.Room()[at + |data|..])
      ensures forall e :: e in made && e != ext ==> e.Room() == old(e.Room())
      ensures Flat(listed) == old(Flat(listed))
    {
      hide Valid, Flat, Parts, Concat, Payloads, OnlyRoomChanged;
      Bounds(ext);
      ghost var before, parts := ext.home[..], Parts(listed);
      FlatFrom(listed, parts);
      CopyInto(ext, at, data);
      forall e | e in made && e != ext ensures e.Room() == old(e.Room()) {
        OthersKeep(ext, before, e);
      }
      forall i | 0 <= i < |listed| ensures listed[i].Payload() == parts[i] {
        OthersKeep(ext, before, listed[i]);
      }
      FlatFrom(listed, parts);
    }

    /** The bytes themselves. */
    method CopyInto(ext: Extent, at: nat, data: seq<byte>)
      requires ext.at + HEADER + ext.room <= ext.home.Length && at + |data| <= ext.room
      modifies ext.home
      ensures |ext.Room()| == ext.room && ext.Room()[at..at + |data|] == data
      ensures ext.Room()[..at] == old(ext.Room()[..at]) && ext.Room()[at + |data|..] == old(ext.Room()[at + |data|..])
      ensures OnlyRoomChanged(ext, old(ext.home[..]))
    {
      var base := ext.at + HEADER + at;
      forall i | 0 <= i < |data| {
        ext.home[base + i] := data[i];
      }
      forall i | 0 <= i < |data| ensures ext.Room()[at..at + |data|][i] == data[i] {
        assert ext.Room()[at + i] == ext.home[base + i];
      }
    }

    /** Mqtt_DumpLength into the room of an extent. */
    method DumpInto(ext: Extent, at: nat, len: nat) returns (ret: int)
      requires ext.at + HEADER + ext.room <= ext.home.Length && at + 4 <= ext.room
      modifies ext.home
      ensures len < MAX4 ==> 1 <= ret <= 4 && |ext.Room()| == ext.room && ext.Room()[at..at + ret] == Dump(len)
      ensures len >= MAX4 ==> ret == -1
      ensures |ext.Room()| == ext.room && ext.Room()[..at] == old(ext.Room()[..at])
      ensures OnlyRoomChanged(ext, old(ext.home[..]))
    {
      AtMostFour(len);
      hide Dump, Written;
      ghost var before, base := ext.home[..], ext.at + HEADER;
      ret := DumpLength(len, ext.home, ext.at + HEADER + at);
      SameOutside(ext.home[..], before, base + at, Written(len));
      SlicesOf(ext.home[..], before, base, ext.room, at, if ret > 0 then ret else 0);
    }

    /** The same, for one that is not listed yet. */
    method WriteLength(ext: Extent, at: nat, len: nat) returns (ret: int)
      requires Valid() && ext in made && ext !in listed && at + 4 <= ext.room
      modifies ext.home
      ensures len < MAX4 ==> 1 <= ret <= 4 && |ext.Room()| == ext.room && ext.Room()[at..at + ret] == Dump(len)
      ensures len >= MAX4 ==> ret == -1
      ensures |ext.Room()| == ext.room && ext.Room()[..at] == old(ext.Room()[..at])
      ensures forall e :: e in made && e != ext ==> e.Room() == old(e.Room())
      ensures Flat(listed) == old(Flat(listed))
    {
      hide Valid, Flat, Parts, Concat, Payloads, Dump, OnlyRoomChanged;
      Bounds(ext);
      ghost var before, parts := ext.home[..], Parts(listed);
      FlatFrom(listed, parts);
      ret := DumpInto(ext, at, len);
      forall e | e in made && e != ext ensures e.Room() == old(e.Room()) {
        OthersKeep(ext, before, e);
      }
      forall i | 0 <= i < |listed| ensures listed[i].Payload() == parts[i] {
        OthersKeep(ext, before, listed[i]);
      }
      FlatFrom(listed, parts);
    }

    /** All memory of the buffer that packing may change. */
    ghost function Footprint(): set<object>
      reads this`chunks, this`made, this`allocations
    {
      {this} + Objects(chunks) + (set i | 0 <= i < |made| :: made[i])
        + (if allocations == null then {} else {allocations})
    }

    lemma InFootprint(ext: Extent)
      requires Valid() && ext in made
      ensures ext in Footprint() && ext.home in Footprint() && (allocations != null ==> allocations in Footprint())
      ensures this in Footprint() && (last != null ==> last in Footprint())
      ensures ext.home in chunks
    {
      RoomFits(made, chunks, chunk, offset, ext);
      assert last != null ==> last in listed && last in made;
      hide TableValid, Layout, Cursor, PayloadsIn, Total;
    }

    /** An extent that holds its own payload holds the first bytes of its room. */
    lemma OwnPayload(ext: Extent)
      requires Valid() && ext in made && ext.OwnsPayload()
      ensures PayloadIn(ext, chunks) && |ext.Room()| == ext.room && ext.Payload() == ext.Room()[..ext.len]
    {
      Bounds(ext);
      hide Valid;
      SubSlice(ext.home[..], ext.at + HEADER, ext.at + HEADER + ext.room, 0, ext.len);
    }

    /** The payload of a new extent: a copy of the caller's bytes, or a reference to them. */
    method SetPayload(ext: Extent, data: array<byte>, from: nat, size: nat, own: bool)
      requires Valid() && ext in made && ext !in listed && ext.OwnsPayload()
      requires from + size <= data.Length && data !in chunks && ext.len == ext.room == if own then size else HEADER
      modifies ext`payload, ext`start, ext`len, ext.home
      ensures Valid() && PayloadIn(ext, chunks) && ext.len == size && ext.Payload() == old(data[from..from + size])
      ensures Flat(listed) == old(Flat(listed))
    {
      hide TableValid, Layout, Cursor, Linked, Total, Among, PayloadsIn, Flat, Parts, Concat, Payloads;
      InFootprint(ext);
      if own {
        ghost var bytes := data[from..from + size];
        Write(ext, 0, data[from..from + size]);
        OwnPayload(ext);
        assert ext.Payload() == bytes;
      } else {
        ghost var parts := Parts(listed);
        FlatFrom(listed, parts);
        ext.payload, ext.start, ext.len := data, from, size;
        FlatFrom(listed, parts);
      }
    }

    /** MqttBuffer_Append */
    method Append(heap: Heap, data: array<byte>, from: nat, size: nat, own: bool)
      requires Valid() && Held() <= heap.live && count < 0x800_0000
      requires from + size <= data.Length && data !in chunks
      requires size + HEADER + ALIGNMENT <= TWO32 && buffered + size < TWO32
      modifies heap`live, Footprint()
      ensures Valid() && Held() <= heap.live == old(heap.live) - old(Held()) + Held()
      ensures Flat(listed) == old(Flat(listed)) + old(data[from..from + size])
      ensures fresh(Footprint() - old(Footprint())) && fresh(Held() - old(Held())) && count <= old(count) + 1
      ensures buffered == old(buffered) + size
    {
      hide Valid, Held, Flat, Parts, Concat, Payloads, PayloadIn, Footprint;
      TableInFootprint();
      var ext := AllocExtent(heap, if own then size else HEADER);
      InFootprint(ext);
      SetPayload(ext, data, from, size, own);
      AppendExtent(ext);
    }

    method Init()
      modifies this
      ensures Valid() && listed == [] && made == [] && Held() == {} && max == buffered == 0
    {
      hide Valid, Held;
      first, last, available, allocations, chunk, offset := null, null, 0, null, null, 0;
      count, max, buffered := 0, 0, 0;
      chunks, made, listed := [], [], [];
      NewIsValid();
    }

    lemma NewIsValid()
      requires first == null && last == null && available == 0 && allocations == null
      requires count == max == buffered == 0 && chunks == [] && made == [] && listed == []
      ensures Valid() && Held() == {}
    {
    }

    /** The frees of MqttBuffer_Reset: every chunk and the table, once each. */
    method FreeAll(heap: Heap)
      requires TableValid() && Held() <= heap.live && heap !in Held()
      requires forall i, j :: 0 <= i < j < |chunks| ==> chunks[i] != chunks[j]
      modifies heap`live, Held()
      ensures heap.live == old(heap.live) - Held()
    {
      var i := 0;
      while i < count
        invariant 0 <= i <= count && TableValid()
        invariant heap.live == old(heap.live) - Objects(chunks[..i])
      {
        FirstChunks(i);
        heap.Free(allocations[i]);
        i := i + 1;
      }
      assert chunks[..i] == chunks;
      if allocations != null {
        heap.Free(allocations);
      }
    }

    lemma FirstChunks(i: nat)
      requires TableValid() && i < count && forall j, k :: 0 <= j < k < |chunks| ==> chunks[j] != chunks[k]
      ensures allocations[i] in Held() && allocations[i] !in Objects(chunks[..i])
      ensures Objects(chunks[..i + 1]) == Objects(chunks[..i]) + {allocations[i]}
    {
      assert chunks[..i + 1] == chunks[..i] + [chunks[i]];
      assert chunks[i] in Objects(chunks);
      assert chunks[..i + 1][i] == chunks[i];
      forall c | c in Objects(chunks[..i]) ensures c in Objects(chunks[..i + 1]) {
        var j :| 0 <= j < i && chunks[..i][j] == c;
        assert chunks[..i + 1][j] == c;
      }
    }

    /** MqttBuffer_Reset */
    method Reset(heap: Heap)
      requires Valid() && Held() <= heap.live && heap !in Held()
      modifies heap`live, this, Held()
      ensures Valid() && listed == [] && made == [] && Held() == {} && max == buffered == 0
      ensures heap.live == old(heap.live) - old(Held())
    {
      hide TableValid, Layout, Linked, Total, PayloadsIn;
      FreeAll(heap);
      Init();
    }

    lemma TableInFootprint()
      ensures this in Footprint() && (allocations != null ==> allocations in Footprint())
    {
    }

    lemma Bounds(ext: Extent)
      requires Valid() && ext in made
      ensures ext.at + HEADER + ext.room <= ext.home.Length
    {
      RoomFits(made, chunks, chunk, offset, ext);
    }
  }

  /** Where two extents of a buffer share a chunk, neither reaches into the other. */
  lemma RoomsApart(made: seq<Extent>, chunks: seq<array<byte>>, chunk: array?<byte>, offset: nat, e: Extent, f: Extent)
    requires Layout(made, chunks, chunk, offset) && e in made && f in made && e != f && e.home == f.home
    ensures e.at + HEADER + e.room <= f.at || f.at + HEADER + f.room <= e.at
    ensures e.at + HEADER + e.room <= e.home.Length && f.at + HEADER + f.room <= f.home.Length
  {
    SpanIsAligned(e.room);
    SpanIsAligned(f.room);
    hide Span;
  }

  lemma RoomFits(made: seq<Extent>, chunks: seq<array<byte>>, chunk: array?<byte>, offset: nat, e: Extent)
    requires Layout(made, chunks, chunk, offset) && e in made
    ensures e.at + HEADER + e.room <= e.home.Length && e.home in chunks
  {
    SpanIsAligned(e.room);
    hide Span;
  }

  lemma SameOutside(now: seq<byte>, before: seq<byte>, at: nat, n: nat)
    requires |now| == |before| && at + n <= |now|
    requires now[..at] == before[..at] && now[at + n..] == before[at + n..]
    ensures forall k :: 0 <= k < |now| && !(at <= k < at + n) ==> now[k] == before[k]
  {
    forall k | 0 <= k < |now| && !(at <= k < at + n) ensures now[k] == before[k] {
      if k < at {
        assert now[..at][k] == before[..at][k];
      } else {
        assert now[at + n..][k - at - n] == before[at + n..][k - at - n];
      }
    }
  }

  lemma SlicesOf(now: seq<byte>, before: seq<byte>, base: nat, room: nat, at: nat, n: nat)
    requires |now| == |before| && base + room <= |now| && at + n <= room && now[..base + at] == before[..base + at]
    ensures now[base..base + room][..at] == before[base..base + room][..at]
    ensures now[base..base + room][at..at + n] == now[base + at..base + at + n]
  {
    SubSlice(now, base, base + room, 0, at);
    SubSlice(before, base, base + room, 0, at);
    SubSlice(now, 0, base + at, base, base + at);
    SubSlice(before, 0, base + at, base, base + at);
    SubSlice(now, base, base + room, at, at + n);
  }

  lemma AllIn(es: seq<Extent>, e: Extent, made: seq<Extent>, chunks: seq<array<byte>>)
    requires PayloadsIn(es, chunks) && PayloadIn(e, chunks) && Among(es, made) && e in made
    ensures PayloadsIn(es + [e], chunks) && Among(es + [e], made)
  {
  }

  lemma FlatFrom(es: seq<Extent>, parts: seq<seq<byte>>)
    requires |parts| == |es| && forall i :: 0 <= i < |es| ==> es[i].Payload() == parts[i]
    ensures Flat(es) == Concat(parts)
  {
    assert Parts(es) == parts;
    hide Parts, Payloads, Concat;
  }

  lemma FlatIs(es: seq<Extent>)
    ensures Flat(es) == Concat(Parts(es)) && Total(es) == Sum(Lens(es))
  {
  }

  /** What a list holds once one more extent hangs on it. */
  lemma ListAppends(es: seq<Extent>, e: Extent, parts: seq<seq<byte>>, ns: seq<nat>)
    requires |parts| == |es| == |ns| && forall i :: 0 <= i < |es| ==> es[i].Payload() == parts[i] && es[i].len == ns[i]
    ensures Flat(es + [e]) == Concat(parts) + e.Payload() && Total(es + [e]) == Sum(ns) + e.len
  {
    assert Parts(es + [e]) == parts + [e.Payload()];
    ConcatLast(parts, e.Payload());
    assert Lens(es + [e]) == ns + [e.len];
    assert (parts + [e.Payload()])[..|parts|] == parts && (ns + [e.len])[..|ns|] == ns;
    hide Parts, Lens, Payloads;
  }

  lemma PayloadsAreAllocated(es: seq<Extent>)
    ensures forall a :: a in Payloads(es) ==> allocated(a)
  {
  }

  lemma CursorMovesOn(chunks: seq<array<byte>>, chunk: array?<byte>, offset: nat, available: nat, c: array<byte>)
    requires Cursor(chunks, chunk, offset, available) && c !in chunks
    ensures Cursor(chunks + [c], c, 0, c.Length)
  {
  }

  lemma CursorHasChunk(chunks: seq<array<byte>>, chunk: array?<byte>, offset: nat, available: nat)
    requires Cursor(chunks, chunk, offset, available) && available > 0
    ensures chunks != [] && chunk != null
  {
  }

  lemma PayloadsStay(es: seq<Extent>, chunks: seq<array<byte>>, c: array<byte>)
    requires PayloadsIn(es, chunks) && forall e :: e in es ==> e.payload != c
    ensures PayloadsIn(es, chunks + [c])
  {
  }

  /** memcpy of n table entries. */
  method CopyTable(dst: array<array?<byte>>, src: array?<array?<byte>>, n: nat)
    requires n <= dst.Length && (n > 0 ==> src != null && n <= src.Length) && src != dst
    modifies dst
    ensures forall k :: 0 <= k < n ==> dst[k] == src[k]
  {
    var i := 0;
    while i < n
      invariant 0 <= i <= n && forall k :: 0 <= k < i ==> dst[k] == src[k]
    {
      dst[i] := src[i];
      i := i + 1;
    }
  }
}
