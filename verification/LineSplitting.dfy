/** The bounded line splitter of services/workers.py: a child's stdout arrives in arbitrary
    chunks, complete lines go to a callback, and two caps stop the child. */
module LineSplitting {
  newtype Byte = x: int | 0 <= x < 256

  type Bytes = seq<Byte>

  const NEWLINE: Byte := 10

  /** bytes.find(b"\n"), with the length in place of -1. */
  function Find(s: Bytes): (i: nat)
    ensures i <= |s|
    ensures forall k :: 0 <= k < i ==> s[k] != NEWLINE
    ensures i < |s| ==> s[i] == NEWLINE
  {
    if s == [] || s[0] == NEWLINE then 0 else 1 + Find(s[1..])
  }

  /** What draining a stretch of bytes gives: the lines handed over, the unfinished rest,
      and whether a line was over the cap. */
  datatype Drained = Drained(lines: seq<Bytes>, rest: Bytes, over: bool)

  function NonEmpty(line: Bytes): seq<Bytes> {
    if line == [] then [] else [line]
  }

  /** Everything up to the first over-long line, finished or not. */
  function Drain(s: Bytes, maxLine: nat): Drained {
    var i := Find(s);
    if i > maxLine then Drained([], [], true)
    else if i == |s| then Drained([], s, false)
    else
      var d := Drain(s[i + 1..], maxLine);
      Drained(NonEmpty(s[..i]) + d.lines, d.rest, d.over)
  }

  /** What draining `b` adds to what was drained before it. */
  function Then(d: Drained, b: Bytes, maxLine: nat): Drained {
    if d.over then d
    else
      var e := Drain(d.rest + b, maxLine);
      Drained(d.lines + e.lines, e.rest, e.over)
  }

  function Prefixed(lines: seq<Bytes>, d: Drained): Drained {
    Drained(lines + d.lines, d.rest, d.over)
  }

  lemma ThenPrefixed(lines: seq<Bytes>, d: Drained, b: Bytes, maxLine: nat)
    ensures Then(Prefixed(lines, d), b, maxLine) == Prefixed(lines, Then(d, b, maxLine))
  {
    var e := Drain(d.rest + b, maxLine);
    assert (lines + d.lines) + e.lines == lines + (d.lines + e.lines);
  }

  lemma DrainLine(s: Bytes, maxLine: nat)
    requires Find(s) < |s| && Find(s) <= maxLine
    ensures Drain(s, maxLine) == Prefixed(NonEmpty(s[..Find(s)]), Drain(s[Find(s) + 1..], maxLine))
  {
  }

  /** Draining in two stretches is draining at once. */
  lemma {:induction false} DrainAppend(a: Bytes, b: Bytes, maxLine: nat)
    ensures Drain(a + b, maxLine) == Then(Drain(a, maxLine), b, maxLine)
    decreases |a|
  {
    FindAppend(a, b);
    var i := Find(a);
    if i < |a| && i <= maxLine {
      assert (a + b)[i + 1..] == a[i + 1..] + b;
      assert (a + b)[..i] == a[..i];
      DrainLine(a, maxLine);
      DrainLine(a + b, maxLine);
      DrainAppend(a[i + 1..], b, maxLine);
      ThenPrefixed(NonEmpty(a[..i]), Drain(a[i + 1..], maxLine), b, maxLine);
    } else if i == |a| <= maxLine {
      assert [] + Drain(a + b, maxLine).lines == Drain(a + b, maxLine).lines;
    }
  }

  lemma {:induction false} FindAppend(a: Bytes, b: Bytes)
    ensures Find(a + b) == if Find(a) < |a| then Find(a) else |a| + Find(b)
  {
    if a == [] {
      assert a + b == b;
    } else {
      assert (a + b)[1..] == a[1..] + b;
      FindAppend(a[1..], b);
    }
  }

  lemma {:induction false} DrainRest(s: Bytes, maxLine: nat)
    ensures var d := Drain(s, maxLine);
            Find(d.rest) == |d.rest| <= maxLine && (d.over ==> d.rest == [])
    ensures forall l :: l in Drain(s, maxLine).lines ==> 0 < |l| <= maxLine && NEWLINE !in l
    decreases |s|
  {
    var i := Find(s);
    if i < |s| && i <= maxLine {
      DrainRest(s[i + 1..], maxLine);
    }
  }

  // ---- the whole stream, without chunks -----------------------------------------

  /** bytes.split(b"\n"): every piece but the last ended in a newline. */
  function Split(s: Bytes): (pieces: seq<Bytes>)
    ensures |pieces| > 0
  {
    var i := Find(s);
    if i == |s| then [s] else [s[..i]] + Split(s[i + 1..])
  }

  /** How many pieces come before the first one over the cap. */
  function Fitting(pieces: seq<Bytes>, maxLine: nat): (n: nat)
    ensures n <= |pieces|
  {
    if pieces == [] || |pieces[0]| > maxLine then 0 else 1 + Fitting(pieces[1..], maxLine)
  }

  function NonEmptyOf(pieces: seq<Bytes>): seq<Bytes> {
    if pieces == [] then [] else NonEmpty(pieces[0]) + NonEmptyOf(pieces[1..])
  }

  function Cut(stream: Bytes, maxTotal: nat): Bytes {
    if |stream| > maxTotal then stream[..maxTotal] else stream
  }

  /** The truncated flag as a function of the stream and the caps. */
  predicate Truncated(stream: Bytes, maxLine: nat, maxTotal: nat) {
    |stream| > maxTotal || exists p :: p in Split(Cut(stream, maxTotal)) && |p| > maxLine
  }

  /** The lines as a function of the stream and the caps: the non-empty pieces before the
      first over-long one; the unterminated last piece only when nothing was truncated. */
  function Lines(stream: Bytes, maxLine: nat, maxTotal: nat): seq<Bytes> {
    var pieces := Split(Cut(stream, maxTotal));
    var n := Fitting(pieces, maxLine);
    NonEmptyOf(if n < |pieces| || |stream| <= maxTotal then pieces[..n] else pieces[..n - 1])
  }

  lemma {:induction false} FittingAll(pieces: seq<Bytes>, maxLine: nat)
    ensures Fitting(pieces, maxLine) == |pieces| <==> forall p :: p in pieces ==> |p| <= maxLine
  {
    if pieces != [] {
      FittingAll(pieces[1..], maxLine);
      assert pieces == [pieces[0]] + pieces[1..];
    }
  }

  /** The finished pieces that fit before the first one that does not. */
  function Finished(pieces: seq<Bytes>, maxLine: nat): seq<Bytes>
    requires pieces != []
  {
    var n := Fitting(pieces, maxLine);
    if n < |pieces| then pieces[..n] else pieces[..n - 1]
  }

  lemma FinishedCons(piece: Bytes, tail: seq<Bytes>, maxLine: nat)
    requires |piece| <= maxLine && tail != []
    ensures Fitting([piece] + tail, maxLine) == 1 + Fitting(tail, maxLine)
    ensures NonEmptyOf(Finished([piece] + tail, maxLine)) == NonEmpty(piece) + NonEmptyOf(Finished(tail, maxLine))
  {
    var pieces := [piece] + tail;
    assert pieces[1..] == tail;
    assert Finished(pieces, maxLine) == [piece] + Finished(tail, maxLine);
    assert ([piece] + Finished(tail, maxLine))[1..] == Finished(tail, maxLine);
  }

  /** Draining is splitting: the lines are the non-empty finished pieces that fit before the
      first that does not, and the rest is the last piece. */
  lemma {:induction false} DrainIsSplit(s: Bytes, maxLine: nat)
    ensures var d, pieces := Drain(s, maxLine), Split(s);
            && (d.over <==> Fitting(pieces, maxLine) < |pieces|)
            && d.lines == NonEmptyOf(Finished(pieces, maxLine))
            && (!d.over ==> d.rest == pieces[|pieces| - 1])
    decreases |s|
  {
    var i := Find(s);
    if i < |s| && i <= maxLine {
      DrainIsSplit(s[i + 1..], maxLine);
      DrainLine(s, maxLine);
      FinishedCons(s[..i], Split(s[i + 1..]), maxLine);
    } else if i == |s| <= maxLine {
      assert Finished([s], maxLine) == [];
    } else {
      assert Finished(Split(s), maxLine) == [];
    }
  }

  lemma {:induction false} NonEmptyOfAppend(a: seq<Bytes>, b: seq<Bytes>)
    ensures NonEmptyOf(a + b) == NonEmptyOf(a) + NonEmptyOf(b)
  {
    if a == [] {
      assert a + b == b;
    } else {
      assert (a + b)[1..] == a[1..] + b;
      NonEmptyOfAppend(a[1..], b);
    }
  }

  // ---- the splitter -------------------------------------------------------------

  class LineSplitter {
    const hasCallback: bool
    const maxLine: nat
    const maxTotal: nat
    var pending: Bytes
    var kept: Bytes
    var total: nat
    var truncated: bool
    // What on_line was called with, in order.
    var handed: seq<Bytes>
    // The bytes fed up to and including the chunk that set `truncated`.
    ghost var fed: Bytes
    // Everything offered to feed().
    ghost var offered: Bytes

    /** The splitter's state is a function of the bytes fed, however they were chunked. */
    ghost predicate Valid()
      reads this
    {
      && total == |fed| && fed <= offered
      && (!truncated ==> fed == offered)
      && (if hasCallback then
            var d := Drain(Cut(fed, maxTotal), maxLine);
            && kept == []
            && handed == d.lines
            && (truncated <==> |fed| > maxTotal || d.over)
            && (!truncated ==> pending == d.rest)
          else
            && handed == [] && pending == []
            && kept == Cut(fed, maxTotal)
            && (truncated <==> |fed| > maxTotal))
    }

    constructor (hasCallback: bool, maxLine: nat, maxTotal: nat)
      ensures Valid() && offered == []
      ensures this.hasCallback == hasCallback && this.maxLine == maxLine && this.maxTotal == maxTotal
    {
      this.hasCallback, this.maxLine, this.maxTotal := hasCallback, maxLine, maxTotal;
      pending, kept, total, truncated, handed, fed, offered := [], [], 0, false, [], [], [];
    }

    /** The loop of feed(): hand over the finished lines; false when one is over-long. */
    method HandOver() returns (fits: bool)
      modifies this`pending, this`handed
      ensures var d := Drain(old(pending), maxLine);
              && handed == old(handed) + d.lines
              && (!fits ==> d.over)
              && (fits ==> Find(pending) == |pending|)
              && (fits ==> (d.over <==> |pending| > maxLine))
              && (fits && !d.over ==> pending == d.rest)
    {
      hide Drain, Find, Handing;
      ghost var all := pending;
      HandingNothing(all, maxLine);
      ghost var done: seq<Bytes> := [];
      while true
        invariant handed == old(handed) + done
        invariant Handing(all, done, pending, maxLine)
        decreases |pending|
      {
        var newline := Find(pending);
        if newline == |pending| {
          HandingDone(all, done, pending, maxLine);
          return true;
        }
        var line := pending[..newline];
        ghost var before := pending;
        pending := pending[newline + 1..];
        if |line| > maxLine {
          HandingOver(all, done, before, maxLine);
          return false;
        }
        HandingLine(all, done, before, maxLine);
        if line != [] {
          handed := handed + [line];
        }
        done := done + NonEmpty(line);
      }
    }

    /** One chunk. False once a cap is passed: the child must be stopped. */
    method Feed(chunk: Bytes) returns (more: bool)
      requires Valid()
      modifies this
      ensures Valid() && offered == old(offered) + chunk
      ensures more <==> !truncated
      ensures old(truncated) ==> handed == old(handed) && kept == old(kept) && truncated
      ensures !truncated && hasCallback ==> |pending| <= maxLine
    {
      offered := offered + chunk;
      if truncated {
        return false;
      }
      ghost var before := fed;
      fed := fed + chunk;
      total := total + |chunk|;
      var piece := chunk;
      if total > maxTotal {
        truncated := true;
        var room := |chunk| - (total - maxTotal);
        piece := chunk[..if room > 0 then room else 0];
      }
      assert Cut(fed, maxTotal) == before + piece;
      if !hasCallback {
        kept := kept + piece;
        return !truncated;
      }
      DrainAppend(before, piece, maxLine);
      DrainRest(before + piece, maxLine);
      pending := pending + piece;
      var fits := HandOver();
      if !fits {
        truncated := true;
        return false;
      }
      if |pending| > maxLine {
        truncated := true;
        pending := [];
        return false;
      }
      return !truncated;
    }

    /** Flush a last line without a newline; the kept stdout. */
    method Finish() returns (out: Bytes)
      requires Valid()
      modifies this`pending, this`handed
      ensures hasCallback ==> out == [] && handed == Lines(offered, maxLine, maxTotal)
      ensures hasCallback ==> (truncated <==> Truncated(offered, maxLine, maxTotal))
      ensures !hasCallback ==> handed == [] && out == Cut(offered, maxTotal) && (truncated <==> |offered| > maxTotal)
    {
      CapsAreFinal(fed, offered, maxLine, maxTotal);
      LinesAreDrained(offered, maxLine, maxTotal);
      DrainRest(Cut(fed, maxTotal), maxLine);
      if hasCallback && pending != [] && !truncated {
        if |pending| <= maxLine {
          handed := handed + [pending];
        }
        pending := [];
      }
      out := kept;
    }
  }

  /** `all` has been drained to `done`, with `pending` still to drain. */
  ghost predicate Handing(all: Bytes, done: seq<Bytes>, pending: Bytes, maxLine: nat) {
    Drain(all, maxLine) == Prefixed(done, Drain(pending, maxLine))
  }

  lemma HandingNothing(all: Bytes, maxLine: nat)
    ensures Handing(all, [], all, maxLine)
  {
    hide Drain;
    assert [] + Drain(all, maxLine).lines == Drain(all, maxLine).lines;
  }

  lemma HandingDone(all: Bytes, done: seq<Bytes>, pending: Bytes, maxLine: nat)
    requires Handing(all, done, pending, maxLine) && Find(pending) == |pending|
    ensures var d := Drain(all, maxLine);
            && d.lines == done && (d.over <==> |pending| > maxLine) && (!d.over ==> pending == d.rest)
  {
    assert done + [] == done;
  }

  lemma PrefixedTwice(a: seq<Bytes>, b: seq<Bytes>, d: Drained)
    ensures Prefixed(a, Prefixed(b, d)) == Prefixed(a + b, d)
  {
    assert a + (b + d.lines) == (a + b) + d.lines;
  }

  lemma HandingLine(all: Bytes, done: seq<Bytes>, pending: Bytes, maxLine: nat)
    requires Handing(all, done, pending, maxLine) && Find(pending) < |pending| && Find(pending) <= maxLine
    ensures Handing(all, done + NonEmpty(pending[..Find(pending)]), pending[Find(pending) + 1..], maxLine)
  {
    DrainLine(pending, maxLine);
    PrefixedTwice(done, NonEmpty(pending[..Find(pending)]), Drain(pending[Find(pending) + 1..], maxLine));
  }

  lemma HandingOver(all: Bytes, done: seq<Bytes>, pending: Bytes, maxLine: nat)
    requires Handing(all, done, pending, maxLine) && Find(pending) > maxLine
    ensures Drain(all, maxLine).over && Drain(all, maxLine).lines == done
  {
    assert done + [] == done;
  }

  /** Once the bytes fed are over a cap, the rest of the stream changes nothing. */
  lemma CapsAreFinal(fed: Bytes, offered: Bytes, maxLine: nat, maxTotal: nat)
    requires fed <= offered
    ensures |fed| > maxTotal ==> Cut(fed, maxTotal) == Cut(offered, maxTotal)
    ensures Drain(Cut(fed, maxTotal), maxLine).over ==>
              Drain(Cut(fed, maxTotal), maxLine) == Drain(Cut(offered, maxTotal), maxLine)
  {
    var a, b := Cut(fed, maxTotal), Cut(offered, maxTotal);
    assert a <= b;
    if |fed| > maxTotal {
      assert fed[..maxTotal] == offered[..maxTotal];
    }
    assert b == a + b[|a|..];
    DrainAppend(a, b[|a|..], maxLine);
  }

  /** The two functions of the stream, said through Drain. */
  lemma LinesAreDrained(stream: Bytes, maxLine: nat, maxTotal: nat)
    ensures var d := Drain(Cut(stream, maxTotal), maxLine);
            && (Truncated(stream, maxLine, maxTotal) <==> |stream| > maxTotal || d.over)
            && Lines(stream, maxLine, maxTotal)
               == if |stream| > maxTotal || d.over then d.lines else d.lines + NonEmpty(d.rest)
  {
    var pieces := Split(Cut(stream, maxTotal));
    DrainIsSplit(Cut(stream, maxTotal), maxLine);
    FittingAll(pieces, maxLine);
    if Fitting(pieces, maxLine) == |pieces| {
      FinishedAndLast(pieces, maxLine);
    }
  }

  /** Every line is non-empty, within the cap and without a newline. */
  lemma LinesFit(stream: Bytes, maxLine: nat, maxTotal: nat)
    ensures forall line :: line in Lines(stream, maxLine, maxTotal) ==> 0 < |line| <= maxLine && 10 as Byte !in line
  {
    var d := Drain(Cut(stream, maxTotal), maxLine);
    LinesAreDrained(stream, maxLine, maxTotal);
    DrainRest(Cut(stream, maxTotal), maxLine);
    assert Find(d.rest) == |d.rest|;
  }

  lemma FinishedAndLast(pieces: seq<Bytes>, maxLine: nat)
    requires pieces != [] && Fitting(pieces, maxLine) == |pieces|
    ensures NonEmptyOf(pieces[..|pieces|]) == NonEmptyOf(Finished(pieces, maxLine)) + NonEmpty(pieces[|pieces| - 1])
  {
    var n := |pieces|;
    assert pieces[..n] == pieces[..n - 1] + [pieces[n - 1]];
    NonEmptyOfAppend(pieces[..n - 1], [pieces[n - 1]]);
    assert NonEmptyOf([pieces[n - 1]]) == NonEmpty(pieces[n - 1]) + NonEmptyOf([]);
  }

  function Concat(chunks: seq<Bytes>): Bytes {
    if chunks == [] then [] else Concat(chunks[..|chunks| - 1]) + chunks[|chunks| - 1]
  }

  /** A whole run over any chunking: the lines, the flag and the kept bytes are functions of
      the concatenated stream and the caps, so no chunking can be observed. */
  method Run(chunks: seq<Bytes>, hasCallback: bool, maxLine: nat, maxTotal: nat)
    returns (lines: seq<Bytes>, truncated: bool, kept: Bytes)
    ensures hasCallback ==>
              && kept == [] && lines == Lines(Concat(chunks), maxLine, maxTotal)
              && (truncated <==> Truncated(Concat(chunks), maxLine, maxTotal))
    ensures forall line :: line in lines ==> 0 < |line| <= maxLine && 10 as Byte !in line
    ensures !hasCallback ==>
              && lines == [] && kept == Cut(Concat(chunks), maxTotal)
              && (truncated <==> |Concat(chunks)| > maxTotal)
  {
    var splitter := new LineSplitter(hasCallback, maxLine, maxTotal);
    var i := 0;
    while i < |chunks|
      invariant 0 <= i <= |chunks| && splitter.Valid() && splitter.offered == Concat(chunks[..i])
    {
      var more := splitter.Feed(chunks[i]);
      i := i + 1;
      assert chunks[..i][..i - 1] == chunks[..i - 1];
    }
    assert chunks[..i] == chunks;
    kept := splitter.Finish();
    LinesFit(Concat(chunks), maxLine, maxTotal);
    lines, truncated := splitter.handed, splitter.truncated;
  }
}
