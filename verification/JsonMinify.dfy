/** cJSON_Minify: the in-place loop, what it computes, and what that does to the meaning of a text. */
module JsonMinify {
  import opened Bytes
  import opened JsonText

  const SLASH: byte := 47
  const STAR: byte := 42
  const RETURN: byte := 13

  /** Overrun: the source steps over the terminator, in a literal or a comment that is never closed. */
  datatype Minified = Text(bytes: seq<byte>) | Overrun

  function Before(front: seq<byte>, m: Minified): Minified {
    match m
    case Text(back) => Text(front + back)
    case Overrun => Overrun
  }

  /** Text from the line end that closes a // comment. */
  function AfterLine(t: seq<byte>): (r: seq<byte>)
    ensures |r| <= |t|
  {
    if At(t, 0) == 0 || t[0] == NEWLINE then t else AfterLine(t[1..])
  }

  /** Text after the next star and slash; None when there is no such pair. */
  datatype Rest = Rest(t: seq<byte>) | None

  function AfterBlock(t: seq<byte>): (r: Rest)
    ensures r.Rest? ==> |r.t| + 2 <= |t|
  {
    if At(t, 0) == 0 then None
    else if t[0] == STAR && At(t, 1) == SLASH then Rest(t[2..])
    else AfterBlock(t[1..])
  }

  /** Length of the inside of a literal and its closing quote; none when the text ends first. */
  function LiteralEnd(t: seq<byte>): (r: Rest)
    ensures r.Rest? ==> |r.t| < |t|
  {
    if At(t, 0) == 0 then None
    else if t[0] == QUOTE then Rest(t[1..])
    else if t[0] != BACKSLASH then LiteralEnd(t[1..])
    else if At(t, 1) == 0 then None
    else LiteralEnd(t[2..])
  }

  function Minify(t: seq<byte>): Minified
    decreases |t|
  {
    if At(t, 0) == 0 then Text([])
    else if t[0] in {SPACE, TAB, RETURN, NEWLINE} then Minify(t[1..])
    else if t[0] == SLASH && At(t, 1) == SLASH then Minify(AfterLine(t[1..]))
    else if t[0] == SLASH && At(t, 1) == STAR then
      match AfterBlock(t[1..])
      case None => Overrun
      case Rest(rest) => Minify(rest)
    else if t[0] == QUOTE then
      match LiteralEnd(t[1..])
      case None => Overrun
      case Rest(rest) => Before(t[..|t| - |rest|], Minify(rest))
    else Before([t[0]], Minify(t[1..]))
  }

  // ---------- the loop ----------

  /** From index from on, a holds what is left of a text that ends at n. */
  ghost predicate HoldsText(a: seq<byte>, from: nat, n: nat) {
    from <= n < |a| && a[n] == 0 && forall k :: from <= k < n ==> a[k] != 0
  }

  lemma LineStep(t: seq<byte>, n: nat, k: nat)
    requires k < n <= |t| && t[k] != 0 && t[k] != NEWLINE
    ensures AfterLine(t[k..n]) == AfterLine(t[k + 1..n])
  {
    assert t[k..n][1..] == t[k + 1..n];
  }

  method SkipLine(a: array<byte>, n: nat, json: nat) returns (next: nat)
    requires HoldsText(a[..], json, n) && a[json] == SLASH
    ensures json < next <= n && a[next..n] == AfterLine(a[json..n])
  {
    next := json;
    while a[next] != 0 && a[next] != NEWLINE
      invariant json <= next <= n && (next == json ==> a[next] == SLASH)
      invariant AfterLine(a[next..n]) == AfterLine(a[json..n])
      decreases n - next
    {
      LineStep(a[..], n, next);
      next := next + 1;
    }
  }

  lemma BlockStep(t: seq<byte>, n: nat, k: nat)
    requires HoldsText(t, k, n) && k < n && !(t[k] == STAR && t[k + 1] == SLASH)
    ensures AfterBlock(t[k..n]) == AfterBlock(t[k + 1..n])
  {
    assert t[k..n][1..] == t[k + 1..n];
  }

  method SkipBlock(a: array<byte>, n: nat, json: nat) returns (next: nat)
    requires HoldsText(a[..], json, n) && AfterBlock(a[json..n]).Rest?
    ensures json < next <= n && AfterBlock(a[json..n]) == Rest(a[next..n])
  {
    next := json;
    while a[next] != 0 && !(a[next] == STAR && a[next + 1] == SLASH)
      invariant json <= next <= n
      invariant AfterBlock(a[next..n]) == AfterBlock(a[json..n])
      decreases n - next
    {
      BlockStep(a[..], n, next);
      next := next + 1;
    }
    assert a[next..n][2..] == a[next + 2..n];
    next := next + 2;
  }

  /** In a, the bytes t[from..json] have moved down to index to, and nothing behind them has changed yet. */
  ghost predicate Moved(a: seq<byte>, t: seq<byte>, from: nat, to: nat, json: nat, into: nat) {
    && |a| == |t|
    && to <= from <= json < |t| && to <= into && into - to == json - from
    && a[..to] == t[..to]
    && a[to..into] == t[from..json]
    && a[into..] == t[into..]
  }

  lemma MoveOne(a: seq<byte>, t: seq<byte>, from: nat, to: nat, json: nat, into: nat)
    requires Moved(a, t, from, to, json, into) && json + 1 < |t|
    ensures Moved(a[into := a[json]], t, from, to, json + 1, into + 1)
  {
    var b := a[into := a[json]];
    assert a[json] == a[into..][json - into] == t[into..][json - into];
    assert b[to..into + 1] == a[to..into] + [a[json]];
    assert t[from..json + 1] == t[from..json] + [t[json]];
    assert b[into + 1..] == a[into..][1..];
    assert t[into + 1..] == t[into..][1..];
  }

  /** Inside a literal of t that starts at from: what is left of it ends where the whole does. */
  ghost predicate InLiteral(t: seq<byte>, n: nat, from: nat, json: nat) {
    from < json <= n < |t| && LiteralEnd(t[from + 1..n]).Rest? && LiteralEnd(t[json..n]) == LiteralEnd(t[from + 1..n])
  }

  lemma LiteralStep(t: seq<byte>, n: nat, from: nat, json: nat)
    requires HoldsText(t, from, n) && InLiteral(t, n, from, json)
    ensures json < n && t[json] != 0
    ensures t[json] == QUOTE ==> LiteralEnd(t[from + 1..n]) == Rest(t[json + 1..n])
    ensures t[json] == BACKSLASH ==> InLiteral(t, n, from, json + 2)
    ensures t[json] != QUOTE && t[json] != BACKSLASH ==> InLiteral(t, n, from, json + 1)
  {
    assert t[json..n] != [];
    assert t[json..n][1..] == t[json + 1..n];
    if json + 1 < n { assert t[json..n][2..] == t[json + 2..n]; }
  }

  lemma MovedReads(a: seq<byte>, t: seq<byte>, from: nat, to: nat, json: nat, into: nat)
    requires Moved(a, t, from, to, json, into)
    ensures json < |a| == |t| && into <= json && a[json] == t[json]
  {
    assert a[json] == a[into..][json - into] == t[into..][json - into];
  }

  /** *into++ = *json++ */
  method CopyByte(a: array<byte>, json: nat, into: nat, ghost t: seq<byte>, ghost from: nat, ghost to: nat)
    returns (json': nat, into': nat)
    requires Moved(a[..], t, from, to, json, into) && json + 1 < a.Length
    modifies a
    ensures json' == json + 1 && into' == into + 1
    ensures Moved(a[..], t, from, to, json', into')
    ensures into' <= json' < a.Length && a[json'] == t[json']
  {
    MoveOne(a[..], t, from, to, json, into);
    a[into] := a[json];
    json', into' := json + 1, into + 1;
    MovedReads(a[..], t, from, to, json', into');
  }

  /** One round of the loop over a literal: a byte, with the byte it escapes. */
  method CopyUnit(a: array<byte>, n: nat, json: nat, into: nat, ghost t: seq<byte>, ghost from: nat, ghost to: nat)
    returns (json': nat, into': nat)
    requires Moved(a[..], t, from, to, json, into) && HoldsText(t, from, n) && InLiteral(t, n, from, json)
    requires json < a.Length && a[json] == t[json] && t[json] != QUOTE
    modifies a
    ensures Moved(a[..], t, from, to, json', into') && InLiteral(t, n, from, json') && json < json'
    ensures json' < n && json' < a.Length && a[json'] == t[json']
  {
    LiteralStep(t, n, from, json);
    assert json + 1 < n && (t[json] == BACKSLASH ==> json + 2 < n) by {
      LiteralStep(t, n, from, if t[json] == BACKSLASH then json + 2 else json + 1);
    }
    hide Moved, LiteralEnd;
    json', into' := json, into;
    if a[json] == BACKSLASH {
      json', into' := CopyByte(a, json', into', t, from, to);
    }
    json', into' := CopyByte(a, json', into', t, from, to);
  }

  lemma LiteralOpens(t: seq<byte>, n: nat, from: nat, to: nat)
    requires HoldsText(t, from, n) && to <= from < n && LiteralEnd(t[from + 1..n]).Rest?
    ensures n < |t| && InLiteral(t, n, from, from + 1) && Moved(t, t, from, to, from, to)
  {
  }

  /** Copy a literal, its closing quote included. */
  method CopyLiteral(a: array<byte>, n: nat, from: nat, to: nat, ghost t: seq<byte>) returns (json: nat, into: nat)
    requires t == a[..] && HoldsText(t, from, n) && to <= from < n && t[from] == QUOTE
    requires LiteralEnd(t[from + 1..n]).Rest?
    modifies a
    ensures Moved(a[..], t, from, to, json, into) && from < json <= n
    ensures LiteralEnd(t[from + 1..n]) == Rest(t[json..n])
  {
    hide Moved, InLiteral, HoldsText, LiteralEnd;
    LiteralOpens(t, n, from, to);
    LiteralStep(t, n, from, from + 1);
    json, into := CopyByte(a, from, to, t, from, to);
    while a[json] != 0 && a[json] != QUOTE
      invariant from < json < n && json < a.Length && Moved(a[..], t, from, to, json, into)
      invariant a[json] == t[json] && InLiteral(t, n, from, json)
      decreases n - json
    {
      json, into := CopyUnit(a, n, json, into, t, from, to);
    }
    LiteralStep(t, n, from, json);
    json, into := CopyByte(a, json, into, t, from, to);
  }

  /** Between two tokens: t[json..n] is still to be read, a[..into] is what came of t[..json]. */
  ghost predicate Progress(a: seq<byte>, t: seq<byte>, n: nat, json: nat, into: nat) {
    && HoldsText(t, 0, n) && |a| == |t|
    && into <= json <= n
    && a[into..] == t[into..]
    && Minify(t[json..n]).Text?
    && Minify(t[..n]) == Before(a[..into], Minify(t[json..n]))
  }

  lemma ProgressReads(a: seq<byte>, t: seq<byte>, n: nat, json: nat, into: nat)
    requires Progress(a, t, n, json, into)
    ensures n < |a| == |t| && into <= json <= n
    ensures a[json] == t[json] && (json < n ==> a[json + 1] == t[json + 1])
    ensures a[json..n] == t[json..n] && (t[json] == 0 <==> json == n)
    ensures HoldsText(a, json, n) && HoldsText(t, json, n)
  {
    assert forall k :: json <= k <= n ==> a[k] == a[into..][k - into] == t[into..][k - into];
  }

  lemma ProgressMoves(a: seq<byte>, t: seq<byte>, n: nat, json: nat, into: nat,
                      a': seq<byte>, json': nat, into': nat)
    requires Progress(a, t, n, json, into) && json <= json' <= n
    requires Moved(a', a, json, into, json', into')
    requires Minify(t[json..n]) == Before(t[json..json'], Minify(t[json'..n]))
    ensures Progress(a', t, n, json', into')
  {
    assert n < |t|;
    hide Minify, HoldsText;
    assert a[json..json'] == t[json..json'] by {
      ProgressReads(a, t, n, json, into);
      SliceOfSlice(a, t, n, json, json');
    }
    MovedExtends(a, json, into, a', json', into');
    assert a'[into'..] == t[into'..] by { TailOfTail(a, t, into, into'); }
    BeforeBefore(a[..into], t[json..json'], Minify(t[json'..n]));
  }

  lemma MovedExtends(a: seq<byte>, json: nat, into: nat, a': seq<byte>, json': nat, into': nat)
    requires Moved(a', a, json, into, json', into')
    ensures a'[..into'] == a[..into] + a[json..json']
  {
    assert a'[..into'] == a'[..into] + a'[into..into'];
  }

  lemma TailOfTail(a: seq<byte>, t: seq<byte>, i: nat, j: nat)
    requires i <= j <= |a| == |t| && a[i..] == t[i..]
    ensures a[j..] == t[j..]
  {
    assert a[j..] == a[i..][j - i..] && t[j..] == t[i..][j - i..];
  }

  lemma BeforeBefore(x: seq<byte>, y: seq<byte>, m: Minified)
    ensures Before(x, Before(y, m)) == Before(x + y, m)
  {
    if m.Text? { assert x + (y + m.bytes) == x + y + m.bytes; }
  }

  lemma SliceOfSlice(a: seq<byte>, t: seq<byte>, n: nat, json: nat, json': nat)
    requires json <= json' <= n <= |a| && n <= |t| && a[json..n] == t[json..n]
    ensures a[json..json'] == t[json..json']
  {
    assert a[json..json'] == a[json..n][..json' - json];
    assert t[json..json'] == t[json..n][..json' - json];
  }

  /** What Minify does at json, case by case as the loop does it. */
  lemma MinifyStep(t: seq<byte>, n: nat, json: nat)
    requires HoldsText(t, 0, n) && json < n
    ensures var b := t[json];
      && (b in {SPACE, TAB, RETURN, NEWLINE} ==> Minify(t[json..n]) == Minify(t[json + 1..n]))
      && (b == SLASH && t[json + 1] == SLASH ==> Minify(t[json..n]) == Minify(AfterLine(t[json..n])))
      && (b == SLASH && t[json + 1] == STAR ==>
            Minify(t[json..n]) ==
              match AfterBlock(t[json..n]) case None => Overrun case Rest(rest) => Minify(rest))
      && (b == QUOTE && LiteralEnd(t[json + 1..n]).None? ==> Minify(t[json..n]) == Overrun)
  {
    var r := t[json..n];
    assert r[1..] == t[json + 1..n];
    assert At(r, 1) == t[json + 1];
  }

  lemma ProgressStarts(t: seq<byte>, n: nat)
    requires HoldsText(t, 0, n) && Minify(t[..n]).Text?
    ensures Progress(t, t, n, 0, 0)
  {
    assert t[0..n] == t[..n];
    assert Before(t[..0], Minify(t[..n])) == Minify(t[..n]);
  }

  lemma ProgressEnds(a: seq<byte>, t: seq<byte>, n: nat, into: nat)
    requires Progress(a, t, n, n, into)
    ensures into <= n < |a| == |t| && Minify(t[..n]) == Text(a[..into]) && a[into..] == t[into..]
  {
    assert a[..into] + [] == a[..into];
  }

  lemma SkipsLine(a: seq<byte>, t: seq<byte>, n: nat, json: nat, into: nat, next: nat)
    requires Progress(a, t, n, json, into) && json < next <= n < |a|
    requires t[json] == SLASH && t[json + 1] == SLASH && a[next..n] == AfterLine(a[json..n])
    ensures Progress(a, t, n, next, into)
  {
    ProgressReads(a, t, n, json, into);
    MinifyStep(t, n, json);
    LaterSlice(a, t, n, json, next);
    hide Minify;
  }

  lemma SkipsBlock(a: seq<byte>, t: seq<byte>, n: nat, json: nat, into: nat, next: nat)
    requires Progress(a, t, n, json, into) && json < next <= n < |a|
    requires t[json] == SLASH && t[json + 1] == STAR && AfterBlock(a[json..n]) == Rest(a[next..n])
    ensures Progress(a, t, n, next, into)
  {
    ProgressReads(a, t, n, json, into);
    MinifyStep(t, n, json);
    LaterSlice(a, t, n, json, next);
    hide Minify;
  }

  lemma LaterSlice(a: seq<byte>, t: seq<byte>, n: nat, json: nat, next: nat)
    requires json <= next <= n <= |a| && n <= |t| && a[json..n] == t[json..n]
    ensures a[next..n] == t[next..n]
  {
    assert a[next..n] == a[json..n][next - json..] && t[next..n] == t[json..n][next - json..];
  }

  lemma BlockIsClosed(a: seq<byte>, t: seq<byte>, n: nat, json: nat, into: nat)
    requires Progress(a, t, n, json, into) && json < n && t[json] == SLASH && t[json + 1] == STAR
    ensures n < |a| && AfterBlock(a[json..n]).Rest?
  {
    ProgressReads(a, t, n, json, into);
    MinifyStep(t, n, json);
    hide Minify;
  }

  lemma LiteralIsClosed(a: seq<byte>, t: seq<byte>, n: nat, json: nat, into: nat)
    requires Progress(a, t, n, json, into) && json < n && t[json] == QUOTE
    ensures n < |a| && LiteralEnd(a[json + 1..n]).Rest?
  {
    ProgressReads(a, t, n, json, into);
    MinifyStep(t, n, json);
    LaterSlice(a, t, n, json, json + 1);
    hide Minify;
  }

  lemma MovesLiteral(a: seq<byte>, t: seq<byte>, n: nat, json: nat, into: nat,
                     a': seq<byte>, json': nat, into': nat)
    requires Progress(a, t, n, json, into) && json < json' <= n < |a| && t[json] == QUOTE
    requires Moved(a', a, json, into, json', into') && LiteralEnd(a[json + 1..n]) == Rest(a[json'..n])
    ensures Progress(a', t, n, json', into')
  {
    ProgressReads(a, t, n, json, into);
    LaterSlice(a, t, n, json, json + 1);
    LaterSlice(a, t, n, json, json');
    hide Minify, Progress, Moved, HoldsText, LiteralEnd;
    MinifiesLiteral(t, n, json, json');
    ProgressMoves(a, t, n, json, into, a', json', into');
  }

  lemma MinifiesLiteral(t: seq<byte>, n: nat, json: nat, json': nat)
    requires HoldsText(t, json, n) && json < json' <= n && t[json] == QUOTE
    requires LiteralEnd(t[json + 1..n]) == Rest(t[json'..n])
    ensures Minify(t[json..n]) == Before(t[json..json'], Minify(t[json'..n]))
  {
    var r := t[json..n];
    assert r[1..] == t[json + 1..n];
    assert r[..|r| - |t[json'..n]|] == t[json..json'];
  }

  lemma MinifiesByte(t: seq<byte>, n: nat, json: nat)
    requires HoldsText(t, json, n) && json < n
    requires t[json] !in {SPACE, TAB, RETURN, NEWLINE, QUOTE}
    requires t[json] == SLASH ==> t[json + 1] !in {SLASH, STAR}
    ensures Minify(t[json..n]) == Before(t[json..json + 1], Minify(t[json + 1..n]))
  {
    var r := t[json..n];
    assert r[1..] == t[json + 1..n] && t[json..json + 1] == [r[0]];
    assert At(r, 1) == t[json + 1];
  }

  lemma MovesByte(a: seq<byte>, t: seq<byte>, n: nat, json: nat, into: nat, a': seq<byte>)
    requires Progress(a, t, n, json, into) && json < n
    requires t[json] !in {SPACE, TAB, RETURN, NEWLINE, QUOTE}
    requires t[json] == SLASH ==> t[json + 1] !in {SLASH, STAR}
    requires Moved(a', a, json, into, json + 1, into + 1)
    ensures Progress(a', t, n, json + 1, into + 1)
  {
    ProgressReads(a, t, n, json, into);
    hide Minify, Progress, Moved, HoldsText;
    MinifiesByte(t, n, json);
    ProgressMoves(a, t, n, json, into, a', json + 1, into + 1);
  }

  lemma SkipsBlank(a: seq<byte>, t: seq<byte>, n: nat, json: nat, into: nat)
    requires Progress(a, t, n, json, into) && json < n && t[json] in {SPACE, TAB, RETURN, NEWLINE}
    ensures Progress(a, t, n, json + 1, into)
  {
    MinifyStep(t, n, json);
    hide Minify;
  }

  lemma NothingMoved(a: seq<byte>, json: nat, into: nat)
    requires into <= json < |a|
    ensures Moved(a, a, json, into, json, into)
  {
  }

  /** One round of the loop of cJSON_Minify. */
  method MinifyRound(a: array<byte>, n: nat, json: nat, into: nat, ghost t: seq<byte>)
    returns (json': nat, into': nat)
    requires Progress(a[..], t, n, json, into) && json < n
    modifies a
    ensures Progress(a[..], t, n, json', into') && json < json'
  {
    hide Progress, Minify, Moved, HoldsText, AfterLine, AfterBlock, LiteralEnd;
    ghost var s := a[..];
    ProgressReads(s, t, n, json, into);
    json', into' := json, into;
    if a[json] == SPACE || a[json] == TAB || a[json] == RETURN || a[json] == NEWLINE {
      json' := json + 1;
      SkipsBlank(s, t, n, json, into);
    } else if a[json] == SLASH && a[json + 1] == SLASH {
      json' := SkipLine(a, n, json);
      SkipsLine(s, t, n, json, into, json');
    } else if a[json] == SLASH && a[json + 1] == STAR {
      BlockIsClosed(s, t, n, json, into);
      json' := SkipBlock(a, n, json);
      SkipsBlock(s, t, n, json, into, json');
    } else if a[json] == QUOTE {
      LiteralIsClosed(s, t, n, json, into);
      json', into' := CopyLiteral(a, n, json, into, s);
      MovesLiteral(s, t, n, json, into, a[..], json', into');
    } else {
      NothingMoved(s, json, into);
      json', into' := CopyByte(a, json, into, s, json, into);
      MovesByte(s, t, n, json, into, a[..]);
    }
  }

  /** cJSON_Minify, on a text whose literals and comments are closed: afterwards the array holds the
      minified text and its terminator, and nothing behind that terminator has been written. */
  method MinifyInPlace(a: array<byte>, n: nat)
    requires HoldsText(a[..], 0, n) && Minify(a[..n]).Text?
    modifies a
    ensures var m := Minify(old(a[..n])).bytes;
            && |m| <= n && a[..|m|] == m && a[|m|] == 0
            && a[|m| + 1..] == old(a[|m| + 1..])
  {
    ghost var t := a[..];
    assert t[..n] == a[..n];
    hide Progress, Minify;
    ProgressStarts(t, n);
    var json: nat, into: nat := 0, 0;
    while a[json] != 0
      invariant json <= n < a.Length && Progress(a[..], t, n, json, into) && (a[json] == 0 <==> json == n)
      decreases n - json
    {
      json, into := MinifyRound(a, n, json, into, t);
      ProgressReads(a[..], t, n, json, into);
    }
    ProgressEnds(a[..], t, n, into);
    a[into] := 0;
    assert a[into + 1..] == t[into..][1..] == t[into + 1..];
  }
}
