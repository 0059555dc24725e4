/** The installer's build log (installer/bootstrap.py): a bounded deque of output lines that a
    page reads by polling with the position the last answer gave it. */
module BuildLogs {
  import opened Options

  const MAX_LINES_PER_STATUS := 500

  datatype BuildState = Idle | Building | Starting | Healthy | Failed

  // ---- what is kept and what a poll is answered ---------------------------------

  /** The number of the oldest line still kept. */
  function First(total: nat, maxLines: nat): nat {
    if total > maxLines then total - maxLines else 0
  }

  /** Where an answer to `since` starts: never before the oldest kept line nor past the end. */
  function StartOf(total: nat, maxLines: nat, since: int): nat {
    var first := First(total, maxLines);
    if since <= first then first else if since >= total then total else since
  }

  function NextOf(total: nat, maxLines: nat, since: int): nat {
    var start := StartOf(total, maxLines, since);
    if total - start > MAX_LINES_PER_STATUS then start + MAX_LINES_PER_STATUS else total
  }

  class BuildLog {
    const maxLines: nat
    var lines: seq<string>
    var total: nat
    var state: BuildState
    var phase: Option<string>
    var attempts: nat
    // Every line ever appended.
    ghost var history: seq<string>

    /** The deque is always the last min(total, maxlen) lines of the whole history. */
    ghost predicate Valid()
      reads this
    {
      total == |history| && lines == history[First(total, maxLines)..]
    }

    constructor (maxLines: nat)
      ensures Valid() && history == [] && state == Idle && this.maxLines == maxLines
    {
      this.maxLines := maxLines;
      lines, total, state, phase, attempts, history := [], 0, Idle, None, 0, [];
    }

    /** One cleaned line of output. `startsContainers`: compose reports a container. */
    method Append(text: string, fromCompose: bool, startsContainers: bool)
      requires Valid()
      modifies this`lines, this`total, this`history, this`phase
      ensures Valid() && history == old(history) + [text]
      ensures phase == if fromCompose && startsContainers && state.Building? then Some("starting_containers") else old(phase)
    {
      lines := lines + [text];
      if |lines| > maxLines {
        lines := lines[1..];
      }
      total := total + 1;
      history := history + [text];
      if fromCompose && state.Building? && startsContainers {
        phase := Some("starting_containers");
      }
    }

    /** Accepted unless a build runs or has succeeded; a retry keeps the log and its numbers. */
    method Start(separator: string) returns (accepted: bool)
      requires Valid()
      modifies this
      ensures Valid()
      ensures accepted <==> old(state).Idle? || old(state).Failed?
      ensures !accepted ==> unchanged(this)
      ensures accepted ==> state == Building && phase == Some("building") && attempts == old(attempts) + 1
      ensures accepted ==> history == old(history) + (if old(state).Failed? then [separator] else [])
    {
      if state.Building? || state.Starting? || state.Healthy? {
        return false;
      }
      attempts := attempts + 1;
      var retry := state.Failed?;
      state := Building;
      phase := Some("building");
      if retry {
        Append(separator, true, false);
      }
      return true;
    }

    method Finish(outcome: BuildState)
      requires Valid()
      modifies this`state, this`phase
      ensures Valid() && state == outcome && phase == None
    {
      state := outcome;
      phase := None;
    }

    /** The lines from `since` on that are still kept, at most 500, and where to go on. */
    method Status(since: int) returns (answer: seq<string>, next: nat)
      requires Valid()
      ensures StartOf(total, maxLines, since) <= next == NextOf(total, maxLines, since) <= total
      ensures answer == history[StartOf(total, maxLines, since)..next] && |answer| <= 500
    {
      var first := total - |lines|;
      var wanted := if since > first then since else first;
      var start := if wanted < total then wanted else total;
      var offset := start - first;
      var end := if offset + MAX_LINES_PER_STATUS < |lines| then offset + MAX_LINES_PER_STATUS else |lines|;
      answer := lines[offset..end];
      next := start + |answer|;
      assert lines == history[first..];
      assert first + offset == start && first + end == next;
      assert history[first..][offset..end] == history[start..next];
    }
  }

  // ---- a client that polls ------------------------------------------------------

  datatype Action = Line(text: string) | Poll

  /** The whole history, the client's position and what it got, each line with its number. */
  datatype Client = Client(history: seq<string>, next: nat, got: seq<(nat, string)>)

  /** Lines `from` to `to` of the history, with their numbers. */
  function Numbered(history: seq<string>, from: nat, to: nat): seq<(nat, string)>
    requires from <= to <= |history|
  {
    if from == to then [] else Numbered(history, from, to - 1) + [(to - 1, history[to - 1])]
  }

  function Step(c: Client, a: Action, maxLines: nat): Client {
    match a
    case Line(text) => c.(history := c.history + [text])
    case Poll =>
      var total := |c.history|;
      var start, next := StartOf(total, maxLines, c.next), NextOf(total, maxLines, c.next);
      Client(c.history, next, c.got + Numbered(c.history, start, next))
  }

  function Run(actions: seq<Action>, maxLines: nat): Client {
    if actions == [] then Client([], 0, [])
    else Step(Run(actions[..|actions| - 1], maxLines), actions[|actions| - 1], maxLines)
  }

  /** At poll `k` the client had not yet been given line `i`, and it was already evicted. */
  ghost predicate LostAt(actions: seq<Action>, maxLines: nat, k: nat, i: nat)
    requires k < |actions|
  {
    var c := Run(actions[..k], maxLines);
    actions[k].Poll? && c.next <= i < First(|c.history|, maxLines)
  }

  ghost predicate Lost(actions: seq<Action>, maxLines: nat, i: nat) {
    exists k: nat :: k < |actions| && LostAt(actions, maxLines, k, i)
  }

  /** The first `n` lines of the history, in order, without the lost ones. */
  ghost function Delivered(actions: seq<Action>, maxLines: nat, history: seq<string>, n: nat): seq<(nat, string)>
    requires n <= |history|
  {
    if n == 0 then []
    else
      Delivered(actions, maxLines, history, n - 1)
      + if Lost(actions, maxLines, n - 1) then [] else [(n - 1, history[n - 1])]
  }

  lemma LostSnoc(actions: seq<Action>, maxLines: nat, i: nat)
    requires actions != []
    ensures var n := |actions| - 1;
            Lost(actions, maxLines, i) <==> Lost(actions[..n], maxLines, i) || LostAt(actions, maxLines, n, i)
  {
    var n := |actions| - 1;
    forall k: nat | k < n
      ensures LostAt(actions[..n], maxLines, k, i) <==> LostAt(actions, maxLines, k, i)
    {
      assert actions[..n][..k] == actions[..k];
    }
    if Lost(actions, maxLines, i) {
      var k: nat :| k < |actions| && LostAt(actions, maxLines, k, i);
      assert k < n ==> LostAt(actions[..n], maxLines, k, i);
    }
    if Lost(actions[..n], maxLines, i) {
      var k: nat :| k < n && LostAt(actions[..n], maxLines, k, i);
      assert LostAt(actions, maxLines, k, i);
    }
  }

  /** What is lost was given up at a poll, so it lies before the position. */
  lemma {:induction false} LostIsBehind(actions: seq<Action>, maxLines: nat, i: nat)
    requires Lost(actions, maxLines, i)
    ensures i < Run(actions, maxLines).next <= |Run(actions, maxLines).history|
  {
    var n := |actions| - 1;
    LostSnoc(actions, maxLines, i);
    PositionInside(actions[..n], maxLines);
    if Lost(actions[..n], maxLines, i) {
      LostIsBehind(actions[..n], maxLines, i);
    }
  }

  lemma {:induction false} PositionInside(actions: seq<Action>, maxLines: nat)
    ensures Run(actions, maxLines).next <= |Run(actions, maxLines).history|
  {
    if actions != [] {
      PositionInside(actions[..|actions| - 1], maxLines);
    }
  }

  /** Only lines below `n` matter to Delivered. */
  lemma {:induction false} DeliveredSame(a: seq<Action>, b: seq<Action>, maxLines: nat,
                                         ha: seq<string>, hb: seq<string>, n: nat)
    requires n <= |ha| && n <= |hb| && ha[..n] == hb[..n]
    requires forall i: nat :: i < n ==> (Lost(a, maxLines, i) <==> Lost(b, maxLines, i))
    ensures Delivered(a, maxLines, ha, n) == Delivered(b, maxLines, hb, n)
  {
    if n > 0 {
      assert ha[..n][..n - 1] == ha[..n - 1] && hb[..n][..n - 1] == hb[..n - 1];
      assert ha[..n][n - 1] == hb[..n][n - 1];
      DeliveredSame(a, b, maxLines, ha, hb, n - 1);
    }
  }

  /** Lines `lo` to `hi` all lost add nothing; none lost, they are all there. */
  lemma {:induction false} DeliveredRange(actions: seq<Action>, maxLines: nat, history: seq<string>, lo: nat, hi: nat, lost: bool)
    requires lo <= hi <= |history|
    requires forall i: nat :: lo <= i < hi ==> (Lost(actions, maxLines, i) <==> lost)
    ensures Delivered(actions, maxLines, history, hi)
         == Delivered(actions, maxLines, history, lo) + if lost then [] else Numbered(history, lo, hi)
    decreases hi
  {
    if lo < hi {
      DeliveredRange(actions, maxLines, history, lo, hi - 1, lost);
    }
  }

  lemma NoneDelivered(maxLines: nat)
    ensures Delivered([], maxLines, [], 0) == []
  {
  }

  /** Polling: whatever the interleaving of output and polls, a client that passes each
      `next` back has got, in order and without repeats, exactly the lines before its
      position except those evicted before it asked for them. */
  lemma {:induction false} PollingDelivers(actions: seq<Action>, maxLines: nat)
    ensures var c := Run(actions, maxLines);
            c.next <= |c.history| && c.got == Delivered(actions, maxLines, c.history, c.next)
  {
    hide Delivered, Lost;
    if actions == [] {
      NoneDelivered(maxLines);
    } else {
      var n := |actions| - 1;
      var front := actions[..n];
      PollingDelivers(front, maxLines);
      PositionInside(actions, maxLines);
      var c, c' := Run(front, maxLines), Run(actions, maxLines);
      forall i: nat ensures Lost(actions, maxLines, i) <==>
                            Lost(front, maxLines, i) || (actions[n].Poll? && c.next <= i < First(|c.history|, maxLines)) {
        LostSnoc(actions, maxLines, i);
        assert actions[..n] == front;
      }
      assert c'.history[..c.next] == c.history[..c.next];
      DeliveredSame(front, actions, maxLines, c.history, c'.history, c.next);
      if actions[n].Poll? {
        var total := |c.history|;
        var start := StartOf(total, maxLines, c.next);
        forall i: nat | c.next <= i ensures !Lost(front, maxLines, i) {
          if Lost(front, maxLines, i) { LostIsBehind(front, maxLines, i); }
        }
        DeliveredRange(actions, maxLines, c.history, c.next, start, true);
        DeliveredRange(actions, maxLines, c.history, start, c'.next, false);
      }
    }
  }

  /** A client never more than maxlen lines behind when it polls misses nothing. */
  ghost predicate NeverFarBehind(actions: seq<Action>, maxLines: nat) {
    forall k: nat :: k < |actions| && actions[k].Poll? ==>
      var c := Run(actions[..k], maxLines); |c.history| - c.next <= maxLines
  }

  lemma NoGap(actions: seq<Action>, maxLines: nat)
    requires NeverFarBehind(actions, maxLines)
    ensures var c := Run(actions, maxLines);
            c.next <= |c.history| && c.got == Numbered(c.history, 0, c.next)
  {
    PollingDelivers(actions, maxLines);
    var c := Run(actions, maxLines);
    forall i: nat | i < c.next ensures !Lost(actions, maxLines, i) {
      forall k: nat | k < |actions| ensures !LostAt(actions, maxLines, k, i) {}
    }
    DeliveredRange(actions, maxLines, c.history, 0, c.next, false);
  }

  // ---- catching up --------------------------------------------------------------

  /** The position after `k` polls with no new line. */
  function After(total: nat, maxLines: nat, since: int, k: nat): int {
    if k == 0 then since else NextOf(total, maxLines, After(total, maxLines, since, k - 1))
  }

  lemma {:induction false} PollsAdvance(total: nat, maxLines: nat, since: int, k: nat)
    requires k > 0
    ensures var p := After(total, maxLines, since, k);
            p == total || (First(total, maxLines) + MAX_LINES_PER_STATUS * k <= p < total)
  {
    if k > 1 {
      PollsAdvance(total, maxLines, since, k - 1);
    }
  }

  /** With no new lines a client at any position is at the end after ceil(maxlen / 500) polls
      (one poll when nothing is kept at all). */
  lemma CatchesUp(total: nat, maxLines: nat, since: int, k: nat)
    requires k > 0 && k >= (maxLines + 499) / 500
    ensures After(total, maxLines, since, k) == total
  {
    PollsAdvance(total, maxLines, since, k);
  }
}
