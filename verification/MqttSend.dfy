/** Sending a buffer from an offset on: the vectors Mqtt_SendPkt hands to writev. */
module MqttSend {
  import opened Bytes
  import opened MqttBuffer

  /** One vector, seen from the payload of extent part: len bytes from position from on. Both are as
      computed; nothing keeps them inside the payload. */
  datatype Vector = Vector(part: nat, from: int, len: int)

  // ---------- the scan for the first extent ----------

  /** As written: go on while fewer bytes than the offset have been passed. */
  function Scan(parts: seq<seq<byte>>, offset: nat, k: nat, bytes: nat): (nat, nat)
    requires k <= |parts|
    decreases |parts| - k
  {
    if k < |parts| && bytes < offset then Scan(parts, offset, k + 1, bytes + |parts[k]|) else (k, bytes)
  }

  /** As intended: go on while the whole extent lies before the offset. */
  function IntendedScan(parts: seq<seq<byte>>, offset: nat, k: nat, bytes: nat): (nat, nat)
    requires k <= |parts|
    decreases |parts| - k
  {
    if k < |parts| && bytes + |parts[k]| <= offset then IntendedScan(parts, offset, k + 1, bytes + |parts[k]|)
    else (k, bytes)
  }

  function WholeFrom(parts: seq<seq<byte>>, k: nat): seq<Vector>
    requires k <= |parts|
    decreases |parts| - k
  {
    if k == |parts| then [] else [Vector(k, 0, |parts[k]|)] + WholeFrom(parts, k + 1)
  }

  /** The vectors for a scan that stopped at extent k with that many bytes passed. */
  function VectorsFrom(parts: seq<seq<byte>>, offset: nat, k: nat, bytes: nat): seq<Vector>
    requires k <= |parts|
  {
    if k == |parts| then []
    else [Vector(k, offset - bytes, |parts[k]| - (offset - bytes))] + WholeFrom(parts, k + 1)
  }

  function Vectors(parts: seq<seq<byte>>, offset: nat): seq<Vector> {
    if offset >= |Concat(parts)| then []
    else
      ScanBounds(parts, offset, 0, 0);
      VectorsFrom(parts, offset, Scan(parts, offset, 0, 0).0, Scan(parts, offset, 0, 0).1)
  }

  function IntendedVectors(parts: seq<seq<byte>>, offset: nat): seq<Vector> {
    if offset >= |Concat(parts)| then []
    else
      IntendedBounds(parts, offset, 0, 0);
      VectorsFrom(parts, offset, IntendedScan(parts, offset, 0, 0).0, IntendedScan(parts, offset, 0, 0).1)
  }

  lemma {:induction false} ScanBounds(parts: seq<seq<byte>>, offset: nat, k: nat, bytes: nat)
    requires k <= |parts|
    ensures k <= Scan(parts, offset, k, bytes).0 <= |parts|
    decreases |parts| - k
  {
    if k < |parts| && bytes < offset {
      ScanBounds(parts, offset, k + 1, bytes + |parts[k]|);
    }
  }

  lemma {:induction false} IntendedBounds(parts: seq<seq<byte>>, offset: nat, k: nat, bytes: nat)
    requires k <= |parts|
    ensures k <= IntendedScan(parts, offset, k, bytes).0 <= |parts|
    decreases |parts| - k
  {
    if k < |parts| && bytes + |parts[k]| <= offset {
      IntendedBounds(parts, offset, k + 1, bytes + |parts[k]|);
    }
  }

  // ---------- what the vectors hold ----------

  predicate Inside(v: Vector, parts: seq<seq<byte>>) {
    v.part < |parts| && 0 <= v.from && 0 <= v.len && v.from + v.len <= |parts[v.part]|
  }

  predicate AllInside(vs: seq<Vector>, parts: seq<seq<byte>>) {
    forall i :: 0 <= i < |vs| ==> Inside(vs[i], parts)
  }

  function Gather(vs: seq<Vector>, parts: seq<seq<byte>>): seq<byte>
    requires AllInside(vs, parts)
  {
    if vs == [] then []
    else
      assert Inside(vs[0], parts);
      assert forall i :: 0 <= i < |vs[1..]| ==> vs[1..][i] == vs[i + 1];
      parts[vs[0].part][vs[0].from..vs[0].from + vs[0].len] + Gather(vs[1..], parts)
  }

  /** The vectors hold the bytes from the offset on, no more and no less. */
  predicate Sends(vs: seq<Vector>, parts: seq<seq<byte>>, offset: nat) {
    AllInside(vs, parts) && offset <= |Concat(parts)| && Gather(vs, parts) == Concat(parts)[offset..]
  }

  /** The offset is a sum of leading extent lengths. */
  predicate IsBoundary(parts: seq<seq<byte>>, offset: nat) {
    exists k :: 0 <= k <= |parts| && |Concat(parts[..k])| == offset
  }

  lemma {:induction false} Split(parts: seq<seq<byte>>, k: nat)
    requires k <= |parts|
    ensures Concat(parts) == Concat(parts[..k]) + Concat(parts[k..])
    decreases |parts| - k
  {
    if k == |parts| {
      assert parts[..k] == parts;
    } else {
      Split(parts, k + 1);
      ConcatStep(parts, k);
      ConcatRest(parts, k);
      assert Concat(parts[..k]) + parts[k] + Concat(parts[k + 1..])
          == Concat(parts[..k]) + (parts[k] + Concat(parts[k + 1..]));
    }
  }

  lemma ConcatStep(parts: seq<seq<byte>>, k: nat)
    requires k < |parts|
    ensures Concat(parts[..k + 1]) == Concat(parts[..k]) + parts[k]
  {
    assert parts[..k + 1] == parts[..k] + [parts[k]];
    ConcatLast(parts[..k], parts[k]);
  }

  lemma ConcatRest(parts: seq<seq<byte>>, k: nat)
    requires k < |parts|
    ensures Concat(parts[k..]) == parts[k] + Concat(parts[k + 1..])
  {
    assert parts[k..][1..] == parts[k + 1..];
  }

  lemma {:induction false} WholeIsSent(parts: seq<seq<byte>>, k: nat)
    requires k <= |parts|
    ensures AllInside(WholeFrom(parts, k), parts) && Gather(WholeFrom(parts, k), parts) == Concat(parts[k..])
    decreases |parts| - k
  {
    hide Concat;
    if k < |parts| {
      WholeIsSent(parts, k + 1);
      ConcatRest(parts, k);
      var vs := WholeFrom(parts, k);
      assert vs[1..] == WholeFrom(parts, k + 1);
      forall i | 0 <= i < |vs| ensures Inside(vs[i], parts) {
        assert i > 0 ==> Inside(vs[1..][i - 1], parts);
      }
    } else {
      ConcatNothing(parts[k..]);
    }
  }

  lemma GatherFirst(vs: seq<Vector>, parts: seq<seq<byte>>)
    requires vs != [] && AllInside(vs, parts)
    ensures Inside(vs[0], parts) && AllInside(vs[1..], parts)
    ensures Gather(vs, parts) == parts[vs[0].part][vs[0].from..vs[0].from + vs[0].len] + Gather(vs[1..], parts)
  {
    assert Inside(vs[0], parts);
    assert forall i :: 0 <= i < |vs[1..]| ==> vs[1..][i] == vs[i + 1];
  }

  lemma ConcatNothing(parts: seq<seq<byte>>)
    requires parts == []
    ensures Concat(parts) == []
  {
  }

  /** Vectors from the extent that holds the offset, the bytes before it passed, send the rest. */
  lemma PartialIsSent(parts: seq<seq<byte>>, offset: nat, k: nat)
    requires k < |parts| && |Concat(parts[..k])| <= offset <= |Concat(parts[..k])| + |parts[k]|
    ensures Sends(VectorsFrom(parts, offset, k, |Concat(parts[..k])|), parts, offset)
  {
    var front, rest := Concat(parts[..k]), Concat(parts[k + 1..]);
    var d := offset - |front|;
    var vs := VectorsFrom(parts, offset, k, |front|);
    WholeIsSent(parts, k + 1);
    Split(parts, k);
    ConcatRest(parts, k);
    hide Gather, Concat, WholeFrom;
    assert vs[1..] == WholeFrom(parts, k + 1);
    assert forall i :: 0 <= i < |vs| ==> Inside(vs[i], parts) by {
      assert forall i :: 0 < i < |vs| ==> vs[i] == vs[1..][i - 1];
    }
    GatherFirst(vs, parts);
    assert Gather(vs, parts) == parts[k][d..] + rest;
    DropFront(front, parts[k], rest, d);
  }

  lemma DropFront(front: seq<byte>, part: seq<byte>, rest: seq<byte>, d: nat)
    requires d <= |part|
    ensures (front + (part + rest))[|front| + d..] == part[d..] + rest
  {
  }

  // ---------- the two scans ----------

  /** The intended scan stops at the extent that holds the offset. */
  lemma {:induction false} IntendedStop(parts: seq<seq<byte>>, offset: nat, k: nat)
    requires k <= |parts| && |Concat(parts[..k])| <= offset < |Concat(parts)|
    ensures var (k', bytes) := IntendedScan(parts, offset, k, |Concat(parts[..k])|);
      k' < |parts| && bytes == |Concat(parts[..k'])| <= offset < bytes + |parts[k']|
    decreases |parts| - k
  {
    assert parts[..|parts|] == parts;
    ConcatStep(parts, k);
    if |Concat(parts[..k])| + |parts[k]| <= offset {
      IntendedStop(parts, offset, k + 1);
    }
    hide Concat;
  }

  /** With the intended scan the vectors send what is left, from every offset. */
  lemma IntendedSends(parts: seq<seq<byte>>, offset: nat)
    requires offset < |Concat(parts)|
    ensures Sends(IntendedVectors(parts, offset), parts, offset) && IntendedVectors(parts, offset) != []
  {
    assert parts[..0] == [];
    IntendedStop(parts, offset, 0);
    PartialIsSent(parts, offset, IntendedScan(parts, offset, 0, 0).0);
    hide Concat, WholeFrom;
  }

  /** The scan as written stops at the first extent that does not start before the offset. */
  lemma {:induction false} WrittenStop(parts: seq<seq<byte>>, offset: nat, k: nat)
    requires k <= |parts| && forall j :: 0 <= j < k ==> |Concat(parts[..j])| < offset
    ensures var (k', bytes) := Scan(parts, offset, k, |Concat(parts[..k])|);
      && k' <= |parts| && bytes == |Concat(parts[..k'])| && (k' < |parts| ==> bytes >= offset)
      && forall j :: 0 <= j < k' ==> |Concat(parts[..j])| < offset
    decreases |parts| - k
  {
    if k < |parts| {
      ConcatStep(parts, k);
      if |Concat(parts[..k])| < offset {
        WrittenStop(parts, offset, k + 1);
      }
    }
    hide Concat;
  }

  /** As written: the vectors send what is left iff the offset is a sum of leading extent lengths. Otherwise
      there are no vectors, or the first one starts in front of its payload. */
  lemma WrittenSendsIff(parts: seq<seq<byte>>, offset: nat)
    requires offset < |Concat(parts)|
    ensures var vs := Vectors(parts, offset);
      && (vs != [] && Sends(vs, parts, offset) <==> IsBoundary(parts, offset))
      && (!IsBoundary(parts, offset) ==> vs == [] || vs[0].from < 0)
  {
    assert parts[..0] == [];
    WrittenStop(parts, offset, 0);
    var (k, bytes) := Scan(parts, offset, 0, 0);
    if IsBoundary(parts, offset) {
      var j :| 0 <= j <= |parts| && |Concat(parts[..j])| == offset;
      assert parts[..|parts|] == parts;
      assert k <= j < |parts|;
      Monotone(parts, k, j);
      PartialIsSent(parts, offset, k);
    } else if k < |parts| {
      assert bytes > offset;
      assert Vectors(parts, offset)[0].from < 0 && !Inside(Vectors(parts, offset)[0], parts);
      hide Concat, WholeFrom;
    }
  }

  lemma {:induction false} Monotone(parts: seq<seq<byte>>, k: nat, j: nat)
    requires k <= j <= |parts|
    ensures |Concat(parts[..k])| <= |Concat(parts[..j])|
    decreases j - k
  {
    if k < j {
      ConcatStep(parts, k);
      Monotone(parts, k + 1, j);
    }
    hide Concat;
  }

  // ---------- sends that are resumed ----------

  /** What goes out when each send is taken as far as its count says, and the next one goes on from there. */
  function Transmitted(parts: seq<seq<byte>>, offset: nat, counts: seq<nat>,
                       vectors: (seq<seq<byte>>, nat) -> seq<Vector>): seq<byte>
    requires Resumable(parts, offset, counts, vectors)
    decreases |counts|
  {
    if counts == [] then []
    else
      Gather(vectors(parts, offset), parts)[..counts[0]]
      + Transmitted(parts, offset + counts[0], counts[1..], vectors)
  }

  /** Each send goes out from inside the extents, and takes no more than it was given. */
  predicate Resumable(parts: seq<seq<byte>>, offset: nat, counts: seq<nat>,
                      vectors: (seq<seq<byte>>, nat) -> seq<Vector>)
    decreases |counts|
  {
    counts == []
    || (AllInside(vectors(parts, offset), parts) && counts[0] <= |Gather(vectors(parts, offset), parts)|
        && Resumable(parts, offset + counts[0], counts[1..], vectors))
  }

  function Taken(counts: seq<nat>): nat {
    if counts == [] then 0 else counts[0] + Taken(counts[1..])
  }

  /** All the offsets a run of sends starts from, but for the one behind the last byte, are boundaries. */
  predicate AtBoundaries(parts: seq<seq<byte>>, offset: nat, counts: seq<nat>)
    decreases |counts|
  {
    counts == []
    || (IsBoundary(parts, offset) && offset + counts[0] <= |Concat(parts)|
      && AtBoundaries(parts, offset + counts[0], counts[1..]))
  }

  lemma NoSends(parts: seq<seq<byte>>, offset: nat, vectors: (seq<seq<byte>>, nat) -> seq<Vector>)
    ensures Resumable(parts, offset, [], vectors) && Transmitted(parts, offset, [], vectors) == []
  {
  }

  lemma MoreSends(parts: seq<seq<byte>>, offset: nat, counts: seq<nat>,
                  vectors: (seq<seq<byte>>, nat) -> seq<Vector>)
    requires counts != [] && AllInside(vectors(parts, offset), parts)
    requires counts[0] <= |Gather(vectors(parts, offset), parts)|
    requires Resumable(parts, offset + counts[0], counts[1..], vectors)
    ensures Resumable(parts, offset, counts, vectors)
    ensures Transmitted(parts, offset, counts, vectors)
         == Gather(vectors(parts, offset), parts)[..counts[0]]
            + Transmitted(parts, offset + counts[0], counts[1..], vectors)
  {
    hide AllInside, Gather;
  }

  lemma BoundarySends(parts: seq<seq<byte>>, offset: nat)
    requires IsBoundary(parts, offset) && offset <= |Concat(parts)|
    ensures Sends(Vectors(parts, offset), parts, offset)
  {
    hide Concat, Sends, IsBoundary, VectorsFrom;
    if offset < |Concat(parts)| {
      WrittenSendsIff(parts, offset);
    } else {
      NothingToSend(parts);
    }
  }

  /** Sends resumed at boundaries transmit every byte once, and in order. */
  lemma {:induction false} ResumedSends(parts: seq<seq<byte>>, offset: nat, counts: seq<nat>)
    requires offset <= |Concat(parts)| && AtBoundaries(parts, offset, counts)
    ensures Resumable(parts, offset, counts, Vectors)
    ensures offset + Taken(counts) <= |Concat(parts)|
    ensures Transmitted(parts, offset, counts, Vectors) == Concat(parts)[offset..offset + Taken(counts)]
    decreases |counts|
  {
    hide Concat, Gather, AllInside, Vectors, IsBoundary, Sends, Resumable, Transmitted;
    if counts == [] {
      NoSends(parts, offset, Vectors);
    } else {
      BoundarySends(parts, offset);
      OneSend(parts, offset, counts[0], Vectors(parts, offset));
      ResumedSends(parts, offset + counts[0], counts[1..]);
      MoreSends(parts, offset, counts, Vectors);
      Pieces(Concat(parts), offset, offset + counts[0], offset + Taken(counts));
    }
  }

  lemma IntendedSendsRest(parts: seq<seq<byte>>, offset: nat)
    requires offset <= |Concat(parts)|
    ensures Sends(IntendedVectors(parts, offset), parts, offset)
  {
    hide Concat, Sends, VectorsFrom;
    if offset < |Concat(parts)| {
      IntendedSends(parts, offset);
    } else {
      NothingToSend(parts);
    }
  }

  /** With the intended scan they may be resumed anywhere. */
  lemma {:induction false} IntendedResumedSends(parts: seq<seq<byte>>, offset: nat, counts: seq<nat>)
    requires offset + Taken(counts) <= |Concat(parts)|
    ensures Resumable(parts, offset, counts, IntendedVectors)
    ensures Transmitted(parts, offset, counts, IntendedVectors) == Concat(parts)[offset..offset + Taken(counts)]
    decreases |counts|
  {
    hide Concat, Gather, AllInside, IntendedVectors, Sends, Resumable, Transmitted;
    if counts == [] {
      NoSends(parts, offset, IntendedVectors);
    } else {
      IntendedSendsRest(parts, offset);
      OneSend(parts, offset, counts[0], IntendedVectors(parts, offset));
      IntendedResumedSends(parts, offset + counts[0], counts[1..]);
      MoreSends(parts, offset, counts, IntendedVectors);
      Pieces(Concat(parts), offset, offset + counts[0], offset + Taken(counts));
    }
  }

  lemma NothingToSend(parts: seq<seq<byte>>)
    ensures Sends([], parts, |Concat(parts)|)
  {
  }

  lemma OneSend(parts: seq<seq<byte>>, offset: nat, count: nat, vs: seq<Vector>)
    requires Sends(vs, parts, offset) && offset + count <= |Concat(parts)|
    ensures AllInside(vs, parts) && count <= |Gather(vs, parts)|
    ensures Gather(vs, parts)[..count] == Concat(parts)[offset..offset + count]
  {
    hide Concat, Gather, AllInside;
  }

  lemma Pieces(s: seq<byte>, a: nat, b: nat, c: nat)
    requires a <= b <= c <= |s|
    ensures s[a..b] + s[b..c] == s[a..c]
  {
  }

  // ---------- Mqtt_SendPkt ----------

  /** struct iovec: where its bytes start, which as computed may lie in front of the store, and how many they are. */
  datatype IoVec = IoVec(store: array<byte>, base: int, len: int)

  ghost function IoVecOf(v: Vector, es: seq<Extent>): IoVec
    requires v.part < |es|
    reads es`payload, es`start
  {
    IoVec(es[v.part].payload, es[v.part].start + v.from, v.len)
  }

  /** The vectors as they are in memory. */
  ghost predicate AreIoVecs(iov: seq<IoVec>, vs: seq<Vector>, es: seq<Extent>)
    reads es`payload, es`start
  {
    |iov| == |vs| && forall i :: 0 <= i < |vs| ==> vs[i].part < |es| && iov[i] == IoVecOf(vs[i], es)
  }

  lemma {:induction false} WholeAt(parts: seq<seq<byte>>, k: nat, i: nat)
    requires k + i < |parts|
    ensures |WholeFrom(parts, k)| == |parts| - k && WholeFrom(parts, k)[i] == Vector(k + i, 0, |parts[k + i]|)
    decreases |parts| - k
  {
    if k + 1 < |parts| {
      WholeAt(parts, k + 1, if i > 0 then i - 1 else 0);
    }
  }

  lemma VectorAt(parts: seq<seq<byte>>, offset: nat, k: nat, bytes: nat, i: nat)
    requires k + i < |parts|
    ensures var vs := VectorsFrom(parts, offset, k, bytes);
      && |vs| == |parts| - k
      && vs[i] == if i == 0 then Vector(k, offset - bytes, |parts[k]| - (offset - bytes))
                  else Vector(k + i, 0, |parts[k + i]|)
  {
    hide WholeFrom;
    WholeCount(parts, k + 1);
    var whole := WholeFrom(parts, k + 1);
    if i > 0 {
      WholeAt(parts, k + 1, i - 1);
      assert VectorsFrom(parts, offset, k, bytes)[i] == whole[i - 1];
    }
  }

  lemma {:induction false} WholeCount(parts: seq<seq<byte>>, k: nat)
    requires k <= |parts|
    ensures |WholeFrom(parts, k)| == |parts| - k
    decreases |parts| - k
  {
    if k < |parts| {
      WholeCount(parts, k + 1);
    }
  }

  lemma {:induction false} SumIsLength(parts: seq<seq<byte>>, ns: seq<nat>)
    requires |parts| == |ns| && forall i :: 0 <= i < |ns| ==> |parts[i]| == ns[i]
    ensures Sum(ns) == |Concat(parts)|
    decreases |ns|
  {
    if ns != [] {
      var n := |ns| - 1;
      SumIsLength(parts[..n], ns[..n]);
      ConcatStep(parts, n);
      assert parts[..n + 1] == parts;
    }
  }

  lemma TotalIsLength(es: seq<Extent>, chunks: seq<array<byte>>)
    requires PayloadsIn(es, chunks)
    ensures Total(es) == |Concat(Parts(es))|
    ensures forall i :: 0 <= i < |es| ==> |Parts(es)[i]| == es[i].len
  {
    hide Concat, Sum, Lens, Parts, Payloads;
    forall i | 0 <= i < |es| ensures |es[i].Payload()| == es[i].len {
      assert es[i] in es && PayloadIn(es[i], chunks);
    }
    SumIsLength(Parts(es), Lens(es));
  }

  /** The payloads of a list, by their lengths. */
  ghost predicate Measures(parts: seq<seq<byte>>, es: seq<Extent>)
    reads es`len
  {
    |parts| == |es| && forall i :: 0 <= i < |es| ==> |parts[i]| == es[i].len
  }

  /** The list at place i, and the extent behind it. */
  lemma ListStep(buf: Buffer, i: nat)
    requires buf.Valid() && i < |buf.listed|
    ensures buf.listed[i].next == ExtentAt(buf.listed, i + 1)
  {
    assert NextIs(buf.listed[i], ExtentAt(buf.listed, i + 1));
    hide Buffer.TableValid, Cursor, Layout, Total, PayloadsIn;
  }

  lemma StartsAtFirst(buf: Buffer)
    requires buf.Valid()
    ensures buf.first == ExtentAt(buf.listed, 0) && buf.buffered == |Concat(Parts(buf.listed))|
    ensures Measures(Parts(buf.listed), buf.listed)
  {
    TotalIsLength(buf.listed, buf.chunks);
    hide Buffer.TableValid, Cursor, Layout, PayloadsIn, Total, Concat, Parts;
  }

  /** The scan of Mqtt_SendPkt. */
  method FindFirst(buf: Buffer, offset: nat, ghost parts: seq<seq<byte>>) returns (cursor: Extent?, bytes: nat)
    requires buf.Valid() && Measures(parts, buf.listed) && buf.first == ExtentAt(buf.listed, 0)
    ensures var (k, before) := Scan(parts, offset, 0, 0);
      k <= |buf.listed| && cursor == ExtentAt(buf.listed, k) && bytes == before
  {
    hide Buffer.Valid;
    ghost var es, k := buf.listed, 0;
    cursor, bytes := buf.first, 0;
    while cursor != null && bytes < offset
      invariant k <= |es| && cursor == ExtentAt(es, k) && Scan(parts, offset, k, bytes) == Scan(parts, offset, 0, 0)
      decreases |es| - k
    {
      ListStep(buf, k);
      bytes, cursor, k := bytes + cursor.len, cursor.next, k + 1;
    }
  }

  /** How many extents are left. */
  method CountFrom(buf: Buffer, first: Extent?, ghost k: nat) returns (n: nat)
    requires buf.Valid() && k <= |buf.listed| && first == ExtentAt(buf.listed, k)
    ensures n == |buf.listed| - k
  {
    hide Buffer.Valid;
    var cursor := first;
    n := 0;
    while cursor != null
      invariant k + n <= |buf.listed| && cursor == ExtentAt(buf.listed, k + n)
      decreases |buf.listed| - n
    {
      ListStep(buf, k + n);
      n, cursor := n + 1, cursor.next;
    }
  }

  /** The vectors for the extents from first on, which is number k. */
  method FillVectors(buf: Buffer, first: Extent, count: nat, offset: nat, bytes: nat, ghost k: nat,
                     ghost parts: seq<seq<byte>>)
    returns (iov: array<IoVec>)
    requires buf.Valid() && Measures(parts, buf.listed)
    requires k < |buf.listed| && first == buf.listed[k] && count == |buf.listed| - k
    ensures fresh(iov) && AreIoVecs(iov[..], VectorsFrom(parts, offset, k, bytes), buf.listed)
  {
    hide Buffer.Valid, VectorsFrom;
    ghost var es, vs := buf.listed, VectorsFrom(parts, offset, k, bytes);
    VectorAt(parts, offset, k, bytes, 0);
    ListStep(buf, k);
    var none := IoVec(first.payload, 0, 0);
    iov := new IoVec[count](_ => none);
    iov[0] := IoVec(first.payload, first.start + (offset - bytes), first.len - (offset - bytes));
    var i := 1;
    var cursor := first.next;
    while cursor != null
      invariant 1 <= i <= count && cursor == ExtentAt(es, k + i)
      invariant forall j :: 0 <= j < i ==> vs[j].part < |es| && iov[j] == IoVecOf(vs[j], es)
      decreases count - i
    {
      VectorAt(parts, offset, k, bytes, i);
      ListStep(buf, k + i);
      iov[i] := IoVec(cursor.payload, cursor.start, cursor.len);
      i, cursor := i + 1, cursor.next;
    }
  }

  /** The vectors of Mqtt_SendPkt; none when there is nothing left to send. */
  method MakeVectors(buf: Buffer, offset: nat) returns (iov: seq<IoVec>)
    requires buf.Valid()
    ensures AreIoVecs(iov, Vectors(Parts(buf.listed), offset), buf.listed)
  {
    hide Buffer.Valid, Parts, VectorsFrom, Concat, AreIoVecs, Measures;
    StartsAtFirst(buf);
    PayloadsAreAllocated(buf.listed);
    ghost var parts := Parts(buf.listed);
    if offset >= buf.buffered {
      NoIoVecs(Parts(buf.listed), offset, buf.listed);
      return [];
    }
    var first, bytes := FindFirst(buf, offset, parts);
    ghost var k := Scan(parts, offset, 0, 0).0;
    var count := CountFrom(buf, first, k);
    assert Parts(buf.listed) == parts;
    if count == 0 {
      NoVectors(parts, offset, bytes);
      NoIoVecs(Parts(buf.listed), offset, buf.listed);
      return [];
    }
    var vectors := FillVectors(buf, first, count, offset, bytes, k, parts);
    assert Parts(buf.listed) == parts;
    return vectors[..];
  }

  /** Mqtt_SendPkt; writev is what writev_func answers to the vectors it is given, if it is given any. */
  method SendPkt(buf: Buffer, offset: nat, writev: seq<IoVec> -> int) returns (r: int)
    requires buf.Valid()
    ensures exists iov :: AreIoVecs(iov, Vectors(Parts(buf.listed), offset), buf.listed)
                          && r == if iov == [] then 0 else writev(iov)
  {
    hide Buffer.Valid, Parts, Vectors, AreIoVecs;
    var iov := MakeVectors(buf, offset);
    r := if iov == [] then 0 else writev(iov);
  }

  // ---------- the bytes behind the vectors ----------

  predicate InStore(v: IoVec) {
    0 <= v.base && 0 <= v.len && v.base + v.len <= v.store.Length
  }

  ghost function Stores(iov: seq<IoVec>): set<array<byte>> {
    set v | v in iov :: v.store
  }

  /** What vectors hold. */
  ghost function IoBytes(iov: seq<IoVec>): seq<byte>
    requires forall v :: v in iov ==> InStore(v)
    reads Stores(iov)
  {
    if iov == [] then []
    else
      assert iov[0] in iov && InStore(iov[0]);
      iov[0].store[iov[0].base..iov[0].base + iov[0].len] + IoBytes(iov[1..])
  }

  /** The bytes of vectors, one vector after another. */
  method Collect(iov: seq<IoVec>, ghost whole: seq<byte>) returns (bytes: seq<byte>)
    requires (forall v :: v in iov ==> InStore(v)) && whole == IoBytes(iov)
    ensures bytes == whole
  {
    var i := 0;
    bytes := [];
    assert iov[0..] == iov;
    while i < |iov|
      invariant 0 <= i <= |iov| && bytes + IoBytes(iov[i..]) == whole
    {
      var v := iov[i];
      ghost var left := iov[i..];
      assert left[0] == v && left[1..] == iov[i + 1..];
      assert v in iov;
      Assoc(bytes, v.store[v.base..v.base + v.len], IoBytes(iov[i + 1..]));
      bytes := bytes + v.store[v.base..v.base + v.len];
      i := i + 1;
    }
    assert iov[i..] == [] && bytes + [] == bytes;
  }

  /** The vectors in memory hold what the vectors gather. */
  lemma {:induction false} IoIsGathered(iov: seq<IoVec>, vs: seq<Vector>, es: seq<Extent>, parts: seq<seq<byte>>)
    requires AreIoVecs(iov, vs, es) && AllInside(vs, parts) && Measures(parts, es) && Fit(es)
    requires forall i :: 0 <= i < |es| ==> es[i].Payload() == parts[i]
    ensures (forall v :: v in iov ==> InStore(v)) && IoBytes(iov) == Gather(vs, parts)
    decreases |vs|
  {
    if vs == [] {
      NothingGathered(parts, iov);
    } else {
      hide AreIoVecs, AllInside, IoBytes, Gather, InStore, Fit, Measures;
      RestAre(iov, vs, es);
      GatherFirst(vs, parts);
      PieceOf(vs[0], es, parts);
      IoIsGathered(iov[1..], vs[1..], es, parts);
      IoBytesFirst(iov);
    }
  }

  lemma NothingGathered(parts: seq<seq<byte>>, iov: seq<IoVec>)
    requires iov == []
    ensures AllInside([], parts) && Gather([], parts) == [] == IoBytes(iov)
  {
  }

  lemma RestAre(iov: seq<IoVec>, vs: seq<Vector>, es: seq<Extent>)
    requires AreIoVecs(iov, vs, es) && vs != []
    ensures iov != [] && vs[0].part < |es| && iov[0] == IoVecOf(vs[0], es)
    ensures AreIoVecs(iov[1..], vs[1..], es)
  {
    forall i | 0 <= i < |vs[1..]| ensures vs[1..][i].part < |es| && iov[1..][i] == IoVecOf(vs[1..][i], es) {
      assert vs[1..][i] == vs[i + 1] && iov[1..][i] == iov[i + 1];
    }
  }

  lemma IoBytesFirst(iov: seq<IoVec>)
    requires iov != [] && InStore(iov[0]) && forall v :: v in iov[1..] ==> InStore(v)
    ensures forall v :: v in iov ==> InStore(v)
    ensures IoBytes(iov) == iov[0].store[iov[0].base..iov[0].base + iov[0].len] + IoBytes(iov[1..])
  {
    hide InStore;
    assert iov == [iov[0]] + iov[1..];
  }

  lemma PieceOf(v: Vector, es: seq<Extent>, parts: seq<seq<byte>>)
    requires Inside(v, parts) && Measures(parts, es) && Fit(es) && es[v.part].Payload() == parts[v.part]
    ensures var w := IoVecOf(v, es);
      InStore(w) && w.store[w.base..w.base + w.len] == parts[v.part][v.from..v.from + v.len]
  {
    var e := es[v.part];
    SubSlice(e.payload[..], e.start, e.start + e.len, v.from, v.from + v.len);
  }

  /** The bytes Mqtt_SendPkt hands to writev_func, from an offset that is a sum of leading extent lengths:
      just those that are left. */
  method BytesToSend(buf: Buffer, offset: nat) returns (bytes: seq<byte>)
    requires buf.Valid() && IsBoundary(Parts(buf.listed), offset)
    ensures bytes == if offset >= |Flat(buf.listed)| then [] else Flat(buf.listed)[offset..]
  {
    hide Buffer.Valid, Parts, Vectors, AreIoVecs, Concat, IsBoundary, Payloads, Fit, Measures, Flat, IoBytes, InStore;
    PayloadsAreAllocated(buf.listed);
    ghost var es, parts := buf.listed, Parts(buf.listed);
    var iov := MakeVectors(buf, offset);
    assert Parts(es) == parts;
    StartsAtFirst(buf);
    PayloadsFit(buf);
    VectorsHoldRest(iov, parts, offset, es);
    if iov == [] {
      FlatFrom(es, parts);
      return [];
    }
    bytes := Collect(iov, Concat(parts)[offset..]);
    FlatFrom(es, parts);
  }

  /** Mqtt_SendPkt with a writev_func that passes on the bytes of its vectors; written is what it answers. */
  method SendBytes(buf: Buffer, offset: nat, written: seq<byte> -> int) returns (r: int)
    requires buf.Valid() && IsBoundary(Parts(buf.listed), offset)
    ensures r == if offset >= |Flat(buf.listed)| then 0 else written(Flat(buf.listed)[offset..])
  {
    hide Buffer.Valid, Parts, Flat, Payloads, IsBoundary;
    PayloadsAreAllocated(buf.listed);
    ghost var parts := Parts(buf.listed);
    FlatFrom(buf.listed, parts);
    var bytes := BytesToSend(buf, offset);
    FlatFrom(buf.listed, parts);
    r := if bytes == [] then 0 else written(bytes);
  }

  lemma VectorsHoldRest(iov: seq<IoVec>, parts: seq<seq<byte>>, offset: nat, es: seq<Extent>)
    requires AreIoVecs(iov, Vectors(parts, offset), es) && IsBoundary(parts, offset) && Measures(parts, es) && Fit(es)
    requires forall i :: 0 <= i < |es| ==> es[i].Payload() == parts[i]
    ensures iov == [] <==> offset >= |Concat(parts)|
    ensures iov != [] ==> (forall v :: v in iov ==> InStore(v)) && IoBytes(iov) == Concat(parts)[offset..]
  {
    hide Vectors, Concat, Gather, IsBoundary, Fit, IoBytes, InStore, AllInside;
    OnePerVector(iov, parts, offset, es);
    if offset < |Concat(parts)| {
      WrittenSendsIff(parts, offset);
      IoIsGathered(iov, Vectors(parts, offset), es, parts);
    }
  }

  lemma OnePerVector(iov: seq<IoVec>, parts: seq<seq<byte>>, offset: nat, es: seq<Extent>)
    requires AreIoVecs(iov, Vectors(parts, offset), es)
    ensures |iov| == |Vectors(parts, offset)| && (offset >= |Concat(parts)| ==> iov == [])
  {
    hide VectorsFrom;
  }

  lemma PayloadsFit(buf: Buffer)
    requires buf.Valid()
    ensures Fit(buf.listed)
  {
    hide Buffer.TableValid, Cursor, Layout, Total, Linked;
    forall i | 0 <= i < |buf.listed| ensures buf.listed[i].start + buf.listed[i].len <= buf.listed[i].payload.Length {
      assert buf.listed[i] in buf.listed;
    }
  }

  ghost predicate Fit(es: seq<Extent>)
    reads es`start, es`len, es`payload
  {
    forall i :: 0 <= i < |es| ==> es[i].start + es[i].len <= es[i].payload.Length
  }

  lemma NoIoVecs(parts: seq<seq<byte>>, offset: nat, es: seq<Extent>)
    requires Vectors(parts, offset) == []
    ensures AreIoVecs([], Vectors(parts, offset), es)
  {
  }

  lemma NoVectors(parts: seq<seq<byte>>, offset: nat, bytes: nat)
    ensures VectorsFrom(parts, offset, |parts|, bytes) == []
  {
  }
}
