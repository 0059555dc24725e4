/** Progress of the two-level lock: the asyncio lock is released when an append returns, the
    row lock only when the transaction ends. */
module AuditProgress {
  import opened Options
  import opened AuditRows
  import opened AuditWriter

  /** Each transaction starts an append only while it has appended nothing. */
  ghost predicate OneAppendEach(h: Hashing, s: State, labels: seq<Label>) {
    labels == [] ||
    (var before := Exec(h, s, labels[..|labels| - 1]);
     var l := labels[|labels| - 1];
     && OneAppendEach(h, s, labels[..|labels| - 1])
     && (l.Call? && Enabled(before, l) ==> before.txns[l.t].own == []))
  }

  /** An append has been called and has not returned. */
  predicate Unfinished(p: Phase) {
    !p.Idle? && !p.Ended?
  }

  /** Steps that serve an append already called, or end a transaction that appended. */
  predicate Serving(s: State, l: Label) {
    && (l.TakeLocal? || l.TakeRow? || l.ReadHead? || l.Insert? || l.Return? || l.Commit?)
    && Enabled(s, l)
  }

  predicate InsideLock(p: Phase) {
    p.WantRow? || p.HasRow? || p.HasHead? || p.Inserted?
  }

  predicate PastRowLock(p: Phase) {
    p.HasRow? || p.HasHead? || p.Inserted?
  }

  /** An asyncio lock is held by an append that has taken it and not returned. */
  ghost predicate LocalInv(s: State) {
    forall k :: k in s.local ==>
      s.local[k] < |s.txns|
      && var x := s.txns[s.local[k]]; InsideLock(x.phase) && k == (x.worker, x.phase.user)
  }

  /** A row lock is held by an append past it or by a transaction that has appended and is
      ready to commit: with one append each, nobody waits while holding one. */
  ghost predicate RowInv(s: State) {
    && (forall u :: u in s.rowLock ==>
          s.rowLock[u] < |s.txns|
          && var x := s.txns[s.rowLock[u]];
             (PastRowLock(x.phase) && x.phase.user == u) || (x.phase.Idle? && x.own != []))
    && (forall t :: 0 <= t < |s.txns| && s.txns[t].phase.Inserted? ==> s.txns[t].own != [])
  }

  ghost predicate LockInv(s: State) {
    LocalInv(s) && RowInv(s)
  }

  lemma StepKeepsLocal(h: Hashing, s: State, l: Label)
    requires LocalInv(s) && Enabled(s, l)
    ensures LocalInv(Do(h, s, l))
  {
  }

  lemma StepKeepsRow(h: Hashing, s: State, l: Label)
    requires RowInv(s) && Enabled(s, l)
    requires l.Call? ==> s.txns[l.t].own == []
    ensures RowInv(Do(h, s, l))
  {
  }

  lemma {:induction false} RunKeepsLocks(h: Hashing, base: seq<Row>, labels: seq<Label>)
    requires OneAppendEach(h, Init(base), labels)
    ensures LockInv(Exec(h, Init(base), labels))
  {
    if labels != [] {
      var n := |labels| - 1;
      RunKeepsLocks(h, base, labels[..n]);
      var s := Exec(h, Init(base), labels[..n]);
      if Enabled(s, labels[n]) {
        StepKeepsLocal(h, s, labels[n]);
        StepKeepsRow(h, s, labels[n]);
      }
    }
  }

  /** The head query always has an answer. */
  lemma {:induction false} HeadExists(rows: seq<Row>) returns (head: Option<Row>)
    ensures IsHead(rows, head)
  {
    if rows == [] {
      head := None;
    } else {
      var n := |rows| - 1;
      var front := HeadExists(rows[..n]);
      head := if front.Some? && HeadOrder(front.value, rows[n]) then front else Some(rows[n]);
      forall x | x in rows ensures HeadOrder(head.value, x) {
        assert x in rows[..n] || x == rows[n];
      }
    }
  }

  /** A transaction past the row lock, or ready to commit, can always move. */
  lemma HolderMoves(s: State, t: nat) returns (l: Label)
    requires t < |s.txns|
    requires PastRowLock(s.txns[t].phase) || s.txns[t].phase.Idle?
    ensures Serving(s, l) && l.t == t
  {
    match s.txns[t].phase
    case HasRow(u, _) =>
      var head := HeadExists(OfUser(Visible(s, t), u));
      l := ReadHead(t, head);
    case HasHead(_, _, _) => l := Insert(t, "", 0);
    case Inserted(_) => l := Return(t);
    case Idle => l := Commit(t);
  }

  lemma WaiterMoves(s: State, t: nat) returns (l: Label)
    requires LockInv(s) && t < |s.txns| && InsideLock(s.txns[t].phase)
    ensures Serving(s, l)
  {
    var x := s.txns[t];
    if x.phase.WantRow? {
      if x.phase.user in s.rowLock && s.rowLock[x.phase.user] != t {
        l := HolderMoves(s, s.rowLock[x.phase.user]);
      } else {
        l := TakeRow(t);
      }
    } else {
      l := HolderMoves(s, t);
    }
  }

  /** No deadlock: when each transaction appends at most one row, every reachable state with
      an unfinished append has a step that serves one. */
  lemma NoDeadlock(h: Hashing, base: seq<Row>, labels: seq<Label>, t: nat) returns (l: Label)
    requires OneAppendEach(h, Init(base), labels)
    requires t < |Exec(h, Init(base), labels).txns| && Unfinished(Exec(h, Init(base), labels).txns[t].phase)
    ensures Serving(Exec(h, Init(base), labels), l)
  {
    RunKeepsLocks(h, base, labels);
    var s := Exec(h, Init(base), labels);
    var x := s.txns[t];
    if x.phase.WantLocal? {
      if (x.worker, x.phase.user) in s.local {
        l := WaiterMoves(s, s.local[(x.worker, x.phase.user)]);
      } else {
        l := TakeLocal(t);
      }
    } else {
      l := WaiterMoves(s, t);
    }
  }

  // ---- without new appends ------------------------------------------------------

  /** Steps left to a transaction before it ends. */
  function StepsLeft(p: Phase): nat {
    match p
    case WantLocal(_, _) => 6
    case WantRow(_, _) => 5
    case HasRow(_, _) => 4
    case HasHead(_, _, _) => 3
    case Inserted(_) => 2
    case Idle => 1
    case Ended => 0
  }

  function TotalLeft(txns: seq<Txn>): nat {
    if txns == [] then 0 else TotalLeft(txns[..|txns| - 1]) + StepsLeft(txns[|txns| - 1].phase)
  }

  lemma {:induction false} TotalLeftUpdate(txns: seq<Txn>, t: nat, x: Txn)
    requires t < |txns|
    ensures TotalLeft(txns[t := x]) == TotalLeft(txns) - StepsLeft(txns[t].phase) + StepsLeft(x.phase)
  {
    var n := |txns| - 1;
    if t == n {
      assert txns[t := x][..n] == txns[..n];
    } else {
      assert txns[t := x][..n] == txns[..n][t := x];
      TotalLeftUpdate(txns[..n], t, x);
    }
  }

  /** A schedule that calls no new append and never picks a step that is not enabled. */
  ghost predicate Draining(h: Hashing, s: State, labels: seq<Label>) {
    labels == [] ||
    (var l := labels[|labels| - 1];
     && Draining(h, s, labels[..|labels| - 1])
     && !l.Begin? && !l.Call? && Enabled(Exec(h, s, labels[..|labels| - 1]), l))
  }

  lemma StepUsesOne(h: Hashing, s: State, l: Label)
    requires !l.Begin? && !l.Call? && Enabled(s, l)
    ensures TotalLeft(Do(h, s, l).txns) < TotalLeft(s.txns)
  {
    TotalLeftUpdate(s.txns, l.t, Do(h, s, l).txns[l.t]);
  }

  /** Such a schedule is at most as long as the steps left at its start. */
  lemma {:induction false} DrainingIsBounded(h: Hashing, s: State, labels: seq<Label>)
    requires Draining(h, s, labels)
    ensures |labels| + TotalLeft(Exec(h, s, labels).txns) <= TotalLeft(s.txns)
  {
    if labels != [] {
      var n := |labels| - 1;
      var before, l := Exec(h, s, labels[..n]), labels[n];
      DrainingIsBounded(h, s, labels[..n]);
      StepUsesOne(h, before, l);
    }
  }

  lemma {:induction false} ExecAppend(h: Hashing, s: State, a: seq<Label>, b: seq<Label>)
    ensures Exec(h, s, a + b) == Exec(h, Exec(h, s, a), b)
    decreases |b|
  {
    if b == [] {
      assert a + b == a;
    } else {
      assert (a + b)[..|a + b| - 1] == a + b[..|b| - 1];
      ExecAppend(h, s, a, b[..|b| - 1]);
    }
  }

  lemma {:induction false} DrainingAddsNoCall(h: Hashing, s: State, a: seq<Label>, b: seq<Label>)
    requires OneAppendEach(h, s, a) && Draining(h, Exec(h, s, a), b)
    ensures OneAppendEach(h, s, a + b)
    decreases |b|
  {
    if b == [] {
      assert a + b == a;
    } else {
      assert (a + b)[..|a + b| - 1] == a + b[..|b| - 1];
      DrainingAddsNoCall(h, s, a, b[..|b| - 1]);
    }
  }

  /** Draining finishes: after any run with one append per transaction, scheduling the
      enabled steps in whatever order stops within TotalLeft steps, and once no step that
      serves an append is enabled, every append called so far has returned or ended. */
  lemma DrainingFinishes(h: Hashing, base: seq<Row>, run: seq<Label>, rest: seq<Label>, t: nat)
    requires OneAppendEach(h, Init(base), run) && Draining(h, Exec(h, Init(base), run), rest)
    requires t < |Exec(h, Init(base), run + rest).txns|
    ensures |rest| <= TotalLeft(Exec(h, Init(base), run).txns)
    ensures (forall l :: !Serving(Exec(h, Init(base), run + rest), l))
            ==> !Unfinished(Exec(h, Init(base), run + rest).txns[t].phase)
  {
    DrainingIsBounded(h, Exec(h, Init(base), run), rest);
    DrainingAddsNoCall(h, Init(base), run, rest);
    if Unfinished(Exec(h, Init(base), run + rest).txns[t].phase) {
      var l := NoDeadlock(h, base, run + rest, t);
    }
  }

  // ---- two appends in one transaction -------------------------------------------

  // One worker, transaction 0 appending twice for the same user: it keeps the row lock of
  // its first append and waits for the asyncio lock, which transaction 1 took in between
  // and holds while it waits for that row lock.

  function TwoAppends(u: string, e: Entry): seq<Label> {
    [Begin(0), Begin(0), Call(0, u, e)]
    + [TakeLocal(0), TakeRow(0), ReadHead(0, None)]
    + [Insert(0, "r0", 0), Return(0), Call(1, u, e)]
    + [TakeLocal(1), Call(0, u, e), TakeRow(1)]
  }

  lemma ExecSnoc(h: Hashing, s: State, labels: seq<Label>, l: Label)
    ensures Exec(h, s, labels + [l]) == Do(h, Exec(h, s, labels), l)
  {
    assert (labels + [l])[..|labels|] == labels;
  }

  lemma ExecThree(h: Hashing, s: State, a: Label, b: Label, c: Label)
    ensures Exec(h, s, [a, b, c]) == Do(h, Do(h, Do(h, s, a), b), c)
  {
    ExecSnoc(h, s, [], a);
    ExecSnoc(h, s, [a], b);
    ExecSnoc(h, s, [a, b], c);
    assert [] + [a] == [a] && [a] + [b] == [a, b] && [a, b] + [c] == [a, b, c];
  }

  function Calling(u: string, e: Entry): State {
    State([], [], [Txn(0, WantLocal(u, e), []), Txn(0, Idle, [])], map[], map[])
  }

  function Reading(u: string, e: Entry): State {
    State([], [], [Txn(0, HasHead(u, e, None), []), Txn(0, Idle, [])], map[(0, u) := 0], map[u := 0])
  }

  function Returned(h: Hashing, u: string, e: Entry): State {
    State([], [], [Txn(0, Idle, [NewRow(h, u, e, None, "r0", 0)]), Txn(0, WantLocal(u, e), [])], map[], map[u := 0])
  }

  function Stuck(h: Hashing, u: string, e: Entry): State {
    State([], [], [Txn(0, WantLocal(u, e), [NewRow(h, u, e, None, "r0", 0)]), Txn(0, WantRow(u, e), [])],
          map[(0, u) := 1], map[u := 0])
  }

  lemma ToCalling(h: Hashing, u: string, e: Entry)
    ensures Exec(h, Init([]), [Begin(0), Begin(0), Call(0, u, e)]) == Calling(u, e)
  {
    ExecThree(h, Init([]), Begin(0), Begin(0), Call(0, u, e));
  }

  lemma ToReading(h: Hashing, u: string, e: Entry)
    ensures Exec(h, Calling(u, e), [TakeLocal(0), TakeRow(0), ReadHead(0, None)]) == Reading(u, e)
  {
    ExecThree(h, Calling(u, e), TakeLocal(0), TakeRow(0), ReadHead(0, None));
  }

  lemma ToReturned(h: Hashing, u: string, e: Entry)
    ensures Exec(h, Reading(u, e), [Insert(0, "r0", 0), Return(0), Call(1, u, e)]) == Returned(h, u, e)
  {
    ExecThree(h, Reading(u, e), Insert(0, "r0", 0), Return(0), Call(1, u, e));
    var row := NewRow(h, u, e, None, "r0", 0);
    assert [] + [row] == [row];
    assert map[(0, u) := 0] - {(0, u)} == map[];
  }

  lemma ToStuck(h: Hashing, u: string, e: Entry)
    ensures Exec(h, Returned(h, u, e), [TakeLocal(1), Call(0, u, e), TakeRow(1)]) == Stuck(h, u, e)
  {
    ExecThree(h, Returned(h, u, e), TakeLocal(1), Call(0, u, e), TakeRow(1));
  }

  lemma NothingServes(h: Hashing, u: string, e: Entry)
    ensures forall l :: !Serving(Stuck(h, u, e), l)
  {
  }

  /** The one-append condition is needed: without it two appends can wait for each other,
      one for an asyncio lock, where the database cannot see the cycle. */
  lemma TwoAppendsCanDeadlock(h: Hashing, u: string, e: Entry)
    ensures var s := Exec(h, Init([]), TwoAppends(u, e));
            && |s.txns| == 2 && Unfinished(s.txns[0].phase) && Unfinished(s.txns[1].phase)
            && forall l :: !Serving(s, l)
  {
    NothingServes(h, u, e);
    var a, b := [Begin(0), Begin(0), Call(0, u, e)], [TakeLocal(0), TakeRow(0), ReadHead(0, None)];
    var c, d := [Insert(0, "r0", 0), Return(0), Call(1, u, e)], [TakeLocal(1), Call(0, u, e), TakeRow(1)];
    ExecFour(h, Init([]), a, b, c, d);
    ToCalling(h, u, e);
    ToReading(h, u, e);
    ToReturned(h, u, e);
    ToStuck(h, u, e);
  }

  lemma ExecFour(h: Hashing, s: State, a: seq<Label>, b: seq<Label>, c: seq<Label>, d: seq<Label>)
    ensures Exec(h, s, a + b + c + d) == Exec(h, Exec(h, Exec(h, Exec(h, s, a), b), c), d)
  {
    ExecAppend(h, s, a, b);
    ExecAppend(h, s, a + b, c);
    ExecAppend(h, s, a + b + c, d);
  }
}
