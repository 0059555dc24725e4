/** Every append finishes under fair scheduling, however many other appends keep arriving. */
module AuditFairness {
  import opened AuditRows
  import opened AuditWriter
  import opened AuditProgress

  /** An infinite run: one label after the other, for ever. */
  type Run = nat -> Label

  function At(h: Hashing, base: seq<Row>, run: Run, n: nat): State {
    if n == 0 then Init(base) else Do(h, At(h, base, run, n - 1), run(n - 1))
  }

  /** Each transaction starts an append only while it has appended nothing. */
  ghost predicate OneAppendRun(h: Hashing, base: seq<Row>, run: Run) {
    forall n: nat :: OneAppendAt(h, base, run, n)
  }

  ghost predicate OneAppendAt(h: Hashing, base: seq<Row>, run: Run, n: nat) {
    var s := At(h, base, run, n);
    run(n).Call? && Enabled(s, run(n)) ==> s.txns[run(n).t].own == []
  }

  /** The transaction has a step of its append to make, or has appended and can commit. */
  predicate CanMove(s: State, t: nat) {
    && t < |s.txns|
    && var x := s.txns[t];
       match x.phase
       case WantLocal(u, _) => (x.worker, u) !in s.local
       case WantRow(u, _) => u in s.rowLock ==> s.rowLock[u] == t
       case HasRow(_, _) => true
       case HasHead(_, _, _) => true
       case Inserted(_) => true
       case Idle => x.own != []
       case Ended => false
  }

  /** Position n of the run is a step of transaction t. */
  ghost predicate Moves(h: Hashing, base: seq<Row>, run: Run, n: nat, t: nat) {
    !run(n).Begin? && run(n).t == t && Enabled(At(h, base, run, n), run(n))
  }

  ghost predicate CanMoveFrom(h: Hashing, base: seq<Row>, run: Run, n: nat, t: nat) {
    exists m: nat :: n <= m && CanMove(At(h, base, run, m), t)
  }

  ghost predicate MovesFrom(h: Hashing, base: seq<Row>, run: Run, n: nat, t: nat) {
    exists m: nat :: n <= m && Moves(h, base, run, m, t)
  }

  /** A transaction that can move infinitely often moves infinitely often. */
  ghost predicate Fair(h: Hashing, base: seq<Row>, run: Run) {
    forall t: nat :: FairTo(h, base, run, t)
  }

  ghost predicate FairTo(h: Hashing, base: seq<Row>, run: Run, t: nat) {
    (forall n: nat :: CanMoveFrom(h, base, run, n, t)) ==> forall n: nat :: MovesFrom(h, base, run, n, t)
  }

  // ---- single steps ---------------------------------------------------------------------

  /** CanMove is having a serving step; an idle transaction's is the commit of its row. */
  lemma CanMoveIsServing(s: State, t: nat)
    ensures CanMove(s, t) <==> exists l :: Serving(s, l) && l.t == t && (l.Commit? ==> s.txns[t].own != [])
  {
    if CanMove(s, t) {
      var l: Label;
      if s.txns[t].phase.WantLocal? {
        l := TakeLocal(t);
      } else if s.txns[t].phase.WantRow? {
        l := TakeRow(t);
      } else {
        l := HolderMoves(s, t);
      }
      assert Serving(s, l) && l.t == t;
    }
  }

  lemma LocksHold(h: Hashing, base: seq<Row>, run: Run, n: nat)
    requires OneAppendRun(h, base, run)
    ensures LockInv(At(h, base, run, n))
  {
    hide LocalInv, RowInv;
    if n == 0 {
      RunKeepsLocks(h, base, []);
      assert Exec(h, Init(base), []) == Init(base);
    } else {
      var s := At(h, base, run, n - 1);
      LocksHold(h, base, run, n - 1);
      assert OneAppendAt(h, base, run, n - 1);
      if Enabled(s, run(n - 1)) {
        StepKeepsLocal(h, s, run(n - 1));
        StepKeepsRow(h, s, run(n - 1));
      }
    }
  }

  /** What transaction t looks like after one more position of the run. */
  lemma NextOf(h: Hashing, base: seq<Row>, run: Run, n: nat, t: nat)
    requires OneAppendRun(h, base, run) && t < |At(h, base, run, n).txns|
    ensures t < |At(h, base, run, n + 1).txns|
    ensures var x, x' := At(h, base, run, n).txns[t], At(h, base, run, n + 1).txns[t];
            && x'.worker == x.worker
            && (!Moves(h, base, run, n, t) ==> x' == x)
            && (Moves(h, base, run, n, t) && (x.phase.Idle? ==> x.own != []) ==> StepsLeft(x'.phase) < StepsLeft(x.phase))
  {
    hide IsHead, NewRow, Visible;
    assert OneAppendAt(h, base, run, n);
  }

  /** From n on, t stays a transaction that is not idle without a row. */
  ghost predicate Busy(h: Hashing, base: seq<Row>, run: Run, n: nat, t: nat) {
    forall m: nat :: n <= m ==> BusyAt(h, base, run, m, t)
  }

  ghost predicate BusyAt(h: Hashing, base: seq<Row>, run: Run, m: nat, t: nat) {
    var s := At(h, base, run, m);
    t < |s.txns| && (s.txns[t].phase.Idle? ==> s.txns[t].own != [])
  }

  lemma {:induction false} BusyShrinks(h: Hashing, base: seq<Row>, run: Run, n: nat, m: nat, t: nat)
    requires OneAppendRun(h, base, run) && Busy(h, base, run, n, t) && n <= m
    ensures BusyAt(h, base, run, m, t) && BusyAt(h, base, run, n, t)
    ensures StepsLeft(At(h, base, run, m).txns[t].phase) <= StepsLeft(At(h, base, run, n).txns[t].phase)
    decreases m - n
  {
    hide At, OneAppendRun, Moves, StepsLeft;
    assert BusyAt(h, base, run, n, t);
    if n < m {
      BusyShrinks(h, base, run, n, m - 1, t);
      NextOf(h, base, run, m - 1, t);
      assert BusyAt(h, base, run, m, t);
    }
  }

  /** A busy transaction makes finitely many steps: from some position on it makes none. */
  lemma {:induction false} StopsMoving(h: Hashing, base: seq<Row>, run: Run, n: nat, t: nat) returns (m: nat)
    requires OneAppendRun(h, base, run) && Busy(h, base, run, n, t)
    ensures n <= m && !MovesFrom(h, base, run, m, t)
    decreases BusyLeft(h, base, run, n, t)
  {
    hide At, OneAppendRun, Moves, StepsLeft;
    if MovesFrom(h, base, run, n, t) {
      var k: nat :| n <= k && Moves(h, base, run, k, t);
      BusyShrinks(h, base, run, n, k, t);
      NextOf(h, base, run, k, t);
      assert Busy(h, base, run, k + 1, t) && BusyAt(h, base, run, k + 1, t);
      m := StopsMoving(h, base, run, k + 1, t);
    } else {
      m := n;
    }
  }

  ghost function BusyLeft(h: Hashing, base: seq<Row>, run: Run, n: nat, t: nat): nat {
    var s := At(h, base, run, n);
    if t < |s.txns| then StepsLeft(s.txns[t].phase) else 0
  }

  /** So it ends up unable to move. */
  lemma StopsForGood(h: Hashing, base: seq<Row>, run: Run, n: nat, t: nat) returns (m: nat)
    requires OneAppendRun(h, base, run) && Fair(h, base, run) && Busy(h, base, run, n, t)
    ensures n <= m && !CanMoveFrom(h, base, run, m, t)
  {
    hide At, OneAppendRun, Busy, CanMoveFrom, MovesFrom;
    var k := StopsMoving(h, base, run, n, t);
    assert FairTo(h, base, run, t);
    m :| !CanMoveFrom(h, base, run, m, t);
    if m < n {
      CannotLater(h, base, run, m, n, t);
      m := n;
    }
  }

  lemma CannotLater(h: Hashing, base: seq<Row>, run: Run, m: nat, n: nat, t: nat)
    requires m <= n && !CanMoveFrom(h, base, run, m, t)
    ensures !CanMoveFrom(h, base, run, n, t)
  {
  }

  // ---- locks that are never seen free ------------------------------------------------------

  ghost predicate RowTaken(h: Hashing, base: seq<Row>, run: Run, n: nat, u: string) {
    forall m: nat :: n <= m ==> u in At(h, base, run, m).rowLock
  }

  ghost predicate LocalTaken(h: Hashing, base: seq<Row>, run: Run, n: nat, k: (nat, string)) {
    forall m: nat :: n <= m ==> k in At(h, base, run, m).local
  }

  /** A lock changes hands only by being free in between. */
  lemma SameRowHolder(h: Hashing, s: State, l: Label, u: string)
    requires u in s.rowLock && u in Do(h, s, l).rowLock
    ensures Do(h, s, l).rowLock[u] == s.rowLock[u]
  {
    hide IsHead, NewRow, Visible;
  }

  lemma SameLocalHolder(h: Hashing, s: State, l: Label, k: (nat, string))
    requires k in s.local && k in Do(h, s, l).local
    ensures Do(h, s, l).local[k] == s.local[k]
  {
    hide IsHead, NewRow, Visible;
  }

  lemma {:induction false} RowHolderStays(h: Hashing, base: seq<Row>, run: Run, n: nat, m: nat, u: string)
    requires RowTaken(h, base, run, n, u) && n <= m
    ensures u in At(h, base, run, n).rowLock && u in At(h, base, run, m).rowLock
    ensures At(h, base, run, m).rowLock[u] == At(h, base, run, n).rowLock[u]
    decreases m - n
  {
    assert u in At(h, base, run, m).rowLock;
    if n < m {
      RowHolderStays(h, base, run, n, m - 1, u);
      SameRowHolder(h, At(h, base, run, m - 1), run(m - 1), u);
      hide Do;
    }
  }

  lemma {:induction false} LocalHolderStays(h: Hashing, base: seq<Row>, run: Run, n: nat, m: nat, k: (nat, string))
    requires LocalTaken(h, base, run, n, k) && n <= m
    ensures k in At(h, base, run, n).local && k in At(h, base, run, m).local
    ensures At(h, base, run, m).local[k] == At(h, base, run, n).local[k]
    decreases m - n
  {
    assert k in At(h, base, run, m).local;
    if n < m {
      LocalHolderStays(h, base, run, n, m - 1, k);
      SameLocalHolder(h, At(h, base, run, m - 1), run(m - 1), k);
      hide Do;
    }
  }

  /** No row lock stays taken for ever: its holder can always move, so it commits. */
  lemma RowIsFreed(h: Hashing, base: seq<Row>, run: Run, n: nat, u: string)
    requires OneAppendRun(h, base, run) && Fair(h, base, run)
    ensures !RowTaken(h, base, run, n, u)
  {
    hide OneAppendRun, Fair, At;
    if RowTaken(h, base, run, n, u) {
      RowHolderStays(h, base, run, n, n, u);
      var d := At(h, base, run, n).rowLock[u];
      forall m: nat | n <= m ensures BusyAt(h, base, run, m, d) && CanMove(At(h, base, run, m), d) {
        LocksHold(h, base, run, m);
        RowHolderStays(h, base, run, n, m, u);
      }
      var m := StopsForGood(h, base, run, n, d);
      MovableNow(h, base, run, m, d);
    }
  }

  lemma MovableNow(h: Hashing, base: seq<Row>, run: Run, n: nat, t: nat)
    ensures CanMove(At(h, base, run, n), t) ==> CanMoveFrom(h, base, run, n, t)
  {
  }

  /** Between its calls and returns an append holds its asyncio lock. */
  ghost predicate StuckInside(h: Hashing, base: seq<Row>, run: Run, n: nat, t: nat) {
    forall m: nat :: n <= m ==> InsideAt(h, base, run, m, t)
  }

  ghost predicate InsideAt(h: Hashing, base: seq<Row>, run: Run, m: nat, t: nat) {
    var s := At(h, base, run, m);
    t < |s.txns| && InsideLock(s.txns[t].phase)
  }

  // ---- every append finishes -----------------------------------------------------------------

  ghost predicate UnfinishedAt(h: Hashing, base: seq<Row>, run: Run, m: nat, t: nat) {
    var s := At(h, base, run, m);
    t < |s.txns| && Unfinished(s.txns[t].phase)
  }

  ghost predicate NeverDone(h: Hashing, base: seq<Row>, run: Run, n: nat, t: nat) {
    forall m: nat :: n <= m ==> UnfinishedAt(h, base, run, m, t)
  }

  /** An unfinished append that cannot move, and is not rolled back, stays as it is. */
  lemma StillStep(h: Hashing, s: State, l: Label, t: nat)
    requires t < |s.txns| && Unfinished(s.txns[t].phase) && !CanMove(s, t)
    requires t < |Do(h, s, l).txns| && Unfinished(Do(h, s, l).txns[t].phase)
    ensures Do(h, s, l).txns[t] == s.txns[t]
  {
    hide IsHead, NewRow, Visible;
  }

  lemma {:induction false} StillWaits(h: Hashing, base: seq<Row>, run: Run, n: nat, m: nat, t: nat)
    requires n <= m && NeverDone(h, base, run, n, t) && !CanMoveFrom(h, base, run, n, t)
    ensures UnfinishedAt(h, base, run, m, t) && UnfinishedAt(h, base, run, n, t)
    ensures At(h, base, run, m).txns[t] == At(h, base, run, n).txns[t]
    decreases m - n
  {
    hide CanMove, Do, Unfinished;
    assert UnfinishedAt(h, base, run, m, t);
    if n < m {
      StillWaits(h, base, run, n, m - 1, t);
      assert !CanMove(At(h, base, run, m - 1), t);
      StillStep(h, At(h, base, run, m - 1), run(m - 1), t);
    }
  }

  lemma NeverDoneIsBusy(h: Hashing, base: seq<Row>, run: Run, n: nat, t: nat)
    requires NeverDone(h, base, run, n, t)
    ensures Busy(h, base, run, n, t)
  {
    hide At;
    forall m: nat | n <= m ensures BusyAt(h, base, run, m, t) {
      assert UnfinishedAt(h, base, run, m, t);
    }
  }

  /** An append that has its asyncio lock does not keep it for ever. */
  lemma InsideEnds(h: Hashing, base: seq<Row>, run: Run, n: nat, t: nat)
    requires OneAppendRun(h, base, run) && Fair(h, base, run)
    ensures !StuckInside(h, base, run, n, t)
  {
    hide OneAppendRun, Fair, At, Busy, CanMoveFrom;
    if StuckInside(h, base, run, n, t) {
      forall m: nat | n <= m ensures UnfinishedAt(h, base, run, m, t) {
        assert InsideAt(h, base, run, m, t);
      }
      NeverDoneIsBusy(h, base, run, n, t);
      var m := StopsForGood(h, base, run, n, t);
      StillWaits(h, base, run, m, m, t);
      var u := At(h, base, run, m).txns[t].phase.user;
      forall i: nat | m <= i ensures u in At(h, base, run, i).rowLock {
        StillWaits(h, base, run, m, i, t);
        WaitsForRow(h, base, run, m, i, t);
      }
      RowIsFreed(h, base, run, m, u);
    }
  }

  lemma WaitsForRow(h: Hashing, base: seq<Row>, run: Run, m: nat, i: nat, t: nat)
    requires m <= i && !CanMoveFrom(h, base, run, m, t) && InsideAt(h, base, run, i, t)
    ensures At(h, base, run, i).txns[t].phase.WantRow?
    ensures At(h, base, run, i).txns[t].phase.user in At(h, base, run, i).rowLock
  {
    hide At;
    assert !CanMove(At(h, base, run, i), t);
  }

  lemma WaitsForLocal(h: Hashing, base: seq<Row>, run: Run, m: nat, i: nat, t: nat)
    requires m <= i && !CanMoveFrom(h, base, run, m, t)
    requires t < |At(h, base, run, i).txns| && At(h, base, run, i).txns[t].phase.WantLocal?
    ensures var x := At(h, base, run, i).txns[t]; (x.worker, x.phase.user) in At(h, base, run, i).local
  {
    hide At;
    assert !CanMove(At(h, base, run, i), t);
  }

  /** An asyncio lock that is never seen free is kept by one append for ever. */
  lemma LocalIsFreed(h: Hashing, base: seq<Row>, run: Run, n: nat, k: (nat, string))
    requires OneAppendRun(h, base, run) && Fair(h, base, run)
    ensures !LocalTaken(h, base, run, n, k)
  {
    hide OneAppendRun, Fair, At;
    if LocalTaken(h, base, run, n, k) {
      LocalHolderStays(h, base, run, n, n, k);
      var d := At(h, base, run, n).local[k];
      forall m: nat | n <= m ensures InsideAt(h, base, run, m, d) {
        LocksHold(h, base, run, m);
        LocalHolderStays(h, base, run, n, m, k);
      }
      InsideEnds(h, base, run, n, d);
    }
  }

  /** Every append finishes: on every fair infinite run with one append per transaction, an
      append under way at any position has returned, or its transaction ended, at a later one. */
  lemma EveryAppendFinishes(h: Hashing, base: seq<Row>, run: Run, n: nat, t: nat)
    requires OneAppendRun(h, base, run) && Fair(h, base, run) && UnfinishedAt(h, base, run, n, t)
    ensures exists m: nat :: n <= m && !UnfinishedAt(h, base, run, m, t)
  {
    hide OneAppendRun, Fair, At, Busy, CanMoveFrom;
    if NeverDone(h, base, run, n, t) {
      NeverDoneIsBusy(h, base, run, n, t);
      var m := StopsForGood(h, base, run, n, t);
      StillWaits(h, base, run, m, m, t);
      var x := At(h, base, run, m).txns[t];
      if x.phase.WantLocal? {
        forall i: nat | m <= i ensures (x.worker, x.phase.user) in At(h, base, run, i).local {
          StillWaits(h, base, run, m, i, t);
          WaitsForLocal(h, base, run, m, i, t);
        }
        LocalIsFreed(h, base, run, m, (x.worker, x.phase.user));
      } else {
        forall i: nat | m <= i ensures InsideAt(h, base, run, i, t) {
          StillWaits(h, base, run, m, i, t);
        }
        InsideEnds(h, base, run, m, t);
      }
    }
  }

  // ---- fair runs exist ------------------------------------------------------------------------

  /** The labels, then transactions that are begun and left alone. */
  function Continued(labels: seq<Label>): Run {
    (n: nat) => if n < |labels| then labels[n] else Begin(0)
  }

  ghost predicate Extends(run: Run, labels: seq<Label>) {
    forall n: nat :: n < |labels| ==> run(n) == labels[n]
  }

  lemma {:induction false} AtPrefix(h: Hashing, base: seq<Row>, labels: seq<Label>, n: nat)
    requires n <= |labels|
    ensures At(h, base, Continued(labels), n) == Exec(h, Init(base), labels[..n])
  {
    hide Do;
    if n > 0 {
      AtPrefix(h, base, labels, n - 1);
      assert labels[..n][..n - 1] == labels[..n - 1];
    }
  }

  /** Nothing can move in `s`, nor once transactions have been begun after it. */
  ghost predicate Quiet(s: State) {
    forall t: nat :: !CanMove(s, t)
  }

  lemma BeginKeepsQuiet(h: Hashing, s: State)
    requires Quiet(s)
    ensures Quiet(Do(h, s, Begin(0)))
  {
    var s' := Do(h, s, Begin(0));
    forall t: nat ensures !CanMove(s', t) {
      assert !CanMove(s, t);
    }
  }

  lemma {:induction false} StaysQuiet(h: Hashing, base: seq<Row>, labels: seq<Label>, n: nat)
    requires Quiet(Exec(h, Init(base), labels)) && |labels| <= n
    ensures Quiet(At(h, base, Continued(labels), n))
  {
    hide Quiet, Do;
    if n == |labels| {
      AtPrefix(h, base, labels, n);
      assert labels[..n] == labels;
    } else {
      StaysQuiet(h, base, labels, n - 1);
      BeginKeepsQuiet(h, At(h, base, Continued(labels), n - 1));
    }
  }

  lemma {:induction false} DrainingCons(h: Hashing, s: State, l: Label, rest: seq<Label>)
    requires !l.Begin? && !l.Call? && Enabled(s, l) && Draining(h, Do(h, s, l), rest)
    ensures Draining(h, s, [l] + rest)
  {
    hide Enabled, Do;
    ExecSnoc(h, s, [], l);
    assert [] + [l] == [l];
    if rest == [] {
      assert [l] + rest == [l] && [l][..0] == [];
      assert Draining(h, s, []);
    } else {
      var n := |rest| - 1;
      DrainingCons(h, s, l, rest[..n]);
      assert ([l] + rest)[..n + 1] == [l] + rest[..n];
      ExecAppend(h, s, [l], rest[..n]);
    }
  }

  /** Every state can be drained until nothing can move. */
  lemma {:induction false} DrainsQuiet(h: Hashing, s: State) returns (rest: seq<Label>)
    ensures Draining(h, s, rest) && Quiet(Exec(h, s, rest))
    decreases TotalLeft(s.txns)
  {
    hide Serving, CanMove, TotalLeft, Enabled, Do;
    if Quiet(s) {
      rest := [];
    } else {
      var t: nat :| CanMove(s, t);
      CanMoveIsServing(s, t);
      var l :| Serving(s, l);
      ServingIsNoCall(s, l);
      StepUsesOne(h, s, l);
      var more := DrainsQuiet(h, Do(h, s, l));
      DrainingCons(h, s, l, more);
      rest := [l] + more;
      ExecAppend(h, s, [l], more);
      ExecSnoc(h, s, [], l);
      assert [] + [l] == [l];
    }
  }

  lemma ServingIsNoCall(s: State, l: Label)
    requires Serving(s, l)
    ensures !l.Begin? && !l.Call? && Enabled(s, l)
  {
  }

  lemma {:induction false} OneAppendPrefix(h: Hashing, base: seq<Row>, labels: seq<Label>, n: nat)
    requires OneAppendEach(h, Init(base), labels) && n < |labels|
    ensures OneAppendAt(h, base, Continued(labels), n)
    decreases |labels| - n
  {
    hide Do, Enabled;
    OneAppendFront(h, Init(base), labels, n + 1);
    AtPrefix(h, base, labels, n);
    assert labels[..n + 1][..n] == labels[..n];
  }

  lemma {:induction false} OneAppendFront(h: Hashing, s: State, labels: seq<Label>, n: nat)
    requires OneAppendEach(h, s, labels) && n <= |labels|
    ensures OneAppendEach(h, s, labels[..n])
    decreases |labels|
  {
    hide Do, Enabled;
    if n < |labels| {
      OneAppendFront(h, s, labels[..|labels| - 1], n);
      assert labels[..|labels| - 1][..n] == labels[..n];
    } else {
      assert labels[..n] == labels;
    }
  }

  /** Every finite run with one append per transaction goes on as a fair one. */
  lemma FairRunExists(h: Hashing, base: seq<Row>, labels: seq<Label>)
    requires OneAppendEach(h, Init(base), labels)
    ensures exists run: Run :: Extends(run, labels) && OneAppendRun(h, base, run) && Fair(h, base, run)
  {
    hide At, Quiet, OneAppendEach, Draining, Exec, OneAppendAt;
    var rest := DrainsQuiet(h, Exec(h, Init(base), labels));
    var all := labels + rest;
    DrainingAddsNoCall(h, Init(base), labels, rest);
    ExecAppend(h, Init(base), labels, rest);
    var run := Continued(all);
    forall n: nat ensures OneAppendAt(h, base, run, n) {
      if n < |all| {
        OneAppendPrefix(h, base, all, n);
      } else {
        BeginIsNoCall(h, base, all, n);
      }
    }
    forall t: nat ensures FairTo(h, base, run, t) {
      QuietIsFair(h, base, all, t);
    }
    assert Extends(run, labels);
  }

  lemma BeginIsNoCall(h: Hashing, base: seq<Row>, labels: seq<Label>, n: nat)
    requires |labels| <= n
    ensures OneAppendAt(h, base, Continued(labels), n)
  {
  }

  lemma QuietIsFair(h: Hashing, base: seq<Row>, labels: seq<Label>, t: nat)
    requires Quiet(Exec(h, Init(base), labels))
    ensures FairTo(h, base, Continued(labels), t)
  {
    hide At, Exec, CanMove;
    forall m: nat | |labels| <= m ensures !CanMove(At(h, base, Continued(labels), m), t) {
      StaysQuiet(h, base, labels, m);
    }
    assert !CanMoveFrom(h, base, Continued(labels), |labels|, t);
  }
}
