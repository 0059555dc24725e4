/** Exactly when an append is stuck: what each waiting transaction needs forms a chain, and the
    append can be served without a rollback if and only if the chain ends. */
module AuditDeadlock {
  import opened Options
  import opened AuditRows
  import opened AuditWriter
  import opened AuditProgress

  predicate Waiting(p: Phase) {
    p.WantLocal? || p.WantRow?
  }

  /** The asyncio lock of a transaction's append. */
  function Key(x: Txn): (nat, string)
    requires Unfinished(x.phase)
  {
    (x.worker, x.phase.user)
  }

  // ---- who owns what, after any run -------------------------------------------------

  ghost predicate OwnsLocks(s: State, t: nat)
    requires t < |s.txns|
  {
    var x := s.txns[t];
    && (InsideLock(x.phase) ==> Key(x) in s.local && s.local[Key(x)] == t)
    && (PastRowLock(x.phase) ==> Holds(s, t, x.phase.user))
  }

  ghost predicate Owners(s: State) {
    && LocalInv(s)
    && (forall t: nat :: t < |s.txns| ==> OwnsLocks(s, t))
    && (forall u :: u in s.rowLock ==> s.rowLock[u] < |s.txns| && !s.txns[s.rowLock[u]].phase.Ended?)
  }

  lemma StepKeepsOwners(h: Hashing, s: State, l: Label)
    requires Owners(s)
    ensures Owners(Do(h, s, l))
  {
    hide LocalInv, IsHead, NewRow, Visible;
    if Enabled(s, l) {
      StepKeepsLocal(h, s, l);
      var s' := Do(h, s, l);
      forall t: nat | t < |s'.txns| ensures OwnsLocks(s', t) {
        StepKeepsOwned(h, s, l, t);
      }
    }
  }

  lemma StepKeepsOwned(h: Hashing, s: State, l: Label, t: nat)
    requires Owners(s) && Enabled(s, l) && t < |Do(h, s, l).txns|
    ensures OwnsLocks(Do(h, s, l), t)
  {
    hide IsHead, NewRow, Visible;
    if t < |s.txns| {
      assert OwnsLocks(s, t);
    }
    if !l.Begin? {
      assert OwnsLocks(s, l.t);
    }
  }

  lemma {:induction false} RunKeepsOwners(h: Hashing, s: State, labels: seq<Label>)
    requires Owners(s)
    ensures Owners(Exec(h, s, labels))
  {
    hide Owners, Do;
    if labels != [] {
      RunKeepsOwners(h, s, labels[..|labels| - 1]);
      StepKeepsOwners(h, Exec(h, s, labels[..|labels| - 1]), labels[|labels| - 1]);
    }
  }

  lemma InitOwners(base: seq<Row>)
    ensures Owners(Init(base))
  {
  }

  lemma {:induction false} TxnsStay(h: Hashing, s: State, labels: seq<Label>)
    ensures |s.txns| <= |Exec(h, s, labels).txns|
  {
    if labels != [] {
      TxnsStay(h, s, labels[..|labels| - 1]);
    }
  }

  // ---- what a waiting transaction needs ---------------------------------------------

  /** Who must move first: the holder of the asyncio lock, or else of the row lock, that the
      append still has to take. */
  function Needs(s: State, t: nat): Option<nat>
    requires t < |s.txns|
  {
    var x := s.txns[t];
    if !Waiting(x.phase) then None
    else if x.phase.WantLocal? && Key(x) in s.local then Some(s.local[Key(x)])
    else if x.phase.user in s.rowLock && s.rowLock[x.phase.user] != t then Some(s.rowLock[x.phase.user])
    else None
  }

  /** The k-th transaction on the chain from `t`. */
  function Follow(s: State, t: nat, k: nat): Option<nat> {
    if k == 0 then Some(t)
    else
      var y := Follow(s, t, k - 1);
      if y.Some? && y.value < |s.txns| then Needs(s, y.value) else None
  }

  ghost predicate ChainEnds(s: State, t: nat) {
    exists k: nat :: Follow(s, t, k).None?
  }

  ghost predicate OnChain(s: State, t: nat, x: nat) {
    exists k: nat :: Follow(s, t, k) == Some(x)
  }

  predicate NoRollbacks(labels: seq<Label>) {
    forall l :: l in labels ==> !l.Rollback?
  }

  /** No transaction on the chain is rolled back. */
  ghost predicate SparesChain(s: State, t: nat, labels: seq<Label>) {
    forall l :: l in labels && l.Rollback? ==> !OnChain(s, t, l.t)
  }

  lemma NeedsIsLive(s: State, t: nat)
    requires Owners(s) && t < |s.txns| && Needs(s, t).Some?
    ensures var y := Needs(s, t).value; y < |s.txns| && !s.txns[y].phase.Ended?
  {
  }

  // ---- an endless chain never moves --------------------------------------------------

  /** Each of these waits for a lock another of them holds. */
  ghost predicate Doomed(s: State, d: set<nat>) {
    forall x :: x in d ==> x < |s.txns| && DoomedTxn(s, d, x)
  }

  ghost predicate DoomedTxn(s: State, d: set<nat>, t: nat)
    requires t < |s.txns|
  {
    var x := s.txns[t];
    Waiting(x.phase) && (RowElsewhere(s, d, t) || (x.phase.WantLocal? && Key(x) in s.local && s.local[Key(x)] in d))
  }

  ghost predicate RowElsewhere(s: State, d: set<nat>, t: nat)
    requires t < |s.txns| && Waiting(s.txns[t].phase)
  {
    var u := s.txns[t].phase.user;
    u in s.rowLock && s.rowLock[u] in d && s.rowLock[u] != t
  }

  lemma DoomedStep(h: Hashing, s: State, l: Label, d: set<nat>)
    requires Owners(s) && Doomed(s, d)
    requires l.Rollback? ==> l.t !in d
    ensures Doomed(Do(h, s, l), d)
  {
    hide IsHead, NewRow, Visible;
    if Enabled(s, l) {
      var s' := Do(h, s, l);
      forall x | x in d ensures x < |s'.txns| && DoomedTxn(s', d, x) {
        assert DoomedTxn(s, d, x);
        DoomedStays(h, s, l, d, x);
      }
    }
  }

  lemma DoomedStays(h: Hashing, s: State, l: Label, d: set<nat>, x: nat)
    requires Owners(s) && Doomed(s, d) && x in d && Enabled(s, l)
    requires l.Rollback? ==> l.t !in d
    ensures x < |Do(h, s, l).txns| && DoomedTxn(Do(h, s, l), d, x)
  {
    hide IsHead, NewRow, Visible;
    assert DoomedTxn(s, d, x);
    if !l.Begin? {
      assert OwnsLocks(s, l.t);
      assert l.t in d ==> DoomedTxn(s, d, l.t);
    }
  }

  lemma {:induction false} DoomedRun(h: Hashing, s: State, labels: seq<Label>, d: set<nat>)
    requires Owners(s) && Doomed(s, d)
    requires forall l :: l in labels && l.Rollback? ==> l.t !in d
    ensures Doomed(Exec(h, s, labels), d)
  {
    hide Owners, Doomed, Do;
    if labels != [] {
      var front, last := labels[..|labels| - 1], labels[|labels| - 1];
      assert last in labels;
      DoomedRun(h, s, front, d);
      RunKeepsOwners(h, s, front);
      DoomedStep(h, Exec(h, s, front), last, d);
    }
  }

  ghost function ChainSet(s: State, t: nat): set<nat> {
    set x: nat | x < |s.txns| && OnChain(s, t, x)
  }

  lemma EndlessIsDoomed(s: State, t: nat)
    requires Owners(s) && t < |s.txns| && !ChainEnds(s, t)
    ensures t in ChainSet(s, t) && Doomed(s, ChainSet(s, t))
  {
    hide Owners;
    var d := ChainSet(s, t);
    assert Follow(s, t, 0) == Some(t);
    forall x | x in d ensures DoomedTxn(s, d, x) {
      var k: nat :| Follow(s, t, k) == Some(x);
      var y := Follow(s, t, k + 1);
      assert y.Some? && y == Needs(s, x);
      NeedsIsLive(s, x);
      assert y.value in d;
    }
  }

  // ---- a chain that ends can be served -------------------------------------------------

  /** `x` has run to its commit; nobody else moved. */
  ghost predicate RanAlone(s: State, s': State, x: nat) {
    && x < |s.txns| && s'.txns == s.txns[x := Txn(s.txns[x].worker, Ended, [])]
    && s'.local == ReleasedLocal(s.local, x) && s'.rowLock == Released(s.rowLock, x)
  }

  lemma FreeMoves(h: Hashing, s: State, x: nat) returns (l: Label)
    requires Owners(s) && x < |s.txns| && Unfinished(s.txns[x].phase) && Needs(s, x).None?
    ensures !l.Rollback? && Enabled(s, l)
    ensures var s' := Do(h, s, l);
            && x < |s'.txns| && s'.txns == s.txns[x := s'.txns[x]] && s'.txns[x].worker == s.txns[x].worker
            && StepsLeft(s'.txns[x].phase) < StepsLeft(s.txns[x].phase) && !s'.txns[x].phase.Ended?
            && Needs(s', x).None?
            && ReleasedLocal(s'.local, x) == ReleasedLocal(s.local, x)
            && Released(s'.rowLock, x) == Released(s.rowLock, x)
  {
    hide LocalInv, IsHead, NewRow, Visible;
    assert OwnsLocks(s, x);
    match s.txns[x].phase
    case WantLocal(_, _) => l := TakeLocal(x);
    case WantRow(_, _) => l := TakeRow(x);
    case HasRow(_, _) => l := HolderMoves(s, x);
    case HasHead(_, _, _) => l := Insert(x, "", 0);
    case Inserted(_) => l := Return(x);
  }

  lemma CommitsAlone(h: Hashing, s: State, x: nat)
    requires Owners(s) && x < |s.txns| && s.txns[x].phase.Idle?
    ensures Enabled(s, Commit(x)) && RanAlone(s, Do(h, s, Commit(x)), x)
  {
    assert ReleasedLocal(s.local, x) == s.local;
  }

  lemma {:induction false} RunsAlone(h: Hashing, s: State, x: nat) returns (labels: seq<Label>)
    requires Owners(s) && x < |s.txns| && !s.txns[x].phase.Ended? && Needs(s, x).None?
    ensures NoRollbacks(labels) && RanAlone(s, Exec(h, s, labels), x)
    decreases StepsLeft(s.txns[x].phase)
  {
    hide Owners, Needs, Do, ReleasedLocal, Released;
    if s.txns[x].phase.Idle? {
      labels := [Commit(x)];
      CommitsAlone(h, s, x);
      ExecOne(h, s, Commit(x));
    } else {
      var l := FreeMoves(h, s, x);
      StepKeepsOwners(h, s, l);
      var rest := RunsAlone(h, Do(h, s, l), x);
      labels := [l] + rest;
      ExecAppend(h, s, [l], rest);
      ExecOne(h, s, l);
    }
  }

  lemma ExecOne(h: Hashing, s: State, l: Label)
    ensures Exec(h, s, [l]) == Do(h, s, l)
  {
    assert [l][..0] == [];
    assert Exec(h, s, []) == s;
  }

  /** Everyone on a chain before its k-th transaction waits. */
  lemma {:induction false} FollowPrefix(s: State, t: nat, j: nat, k: nat)
    requires j < k && Follow(s, t, k).Some?
    ensures Follow(s, t, j).Some? && Follow(s, t, j).value < |s.txns|
    ensures Needs(s, Follow(s, t, j).value) == Follow(s, t, j + 1) && Follow(s, t, j + 1).Some?
  {
    hide Needs;
    if j < k - 1 {
      FollowPrefix(s, t, j, k - 1);
    }
  }

  lemma NeedsStays(s: State, s': State, t: nat, x: nat)
    requires RanAlone(s, s', x) && t < |s.txns| && t != x
    requires Needs(s, t).Some? && Needs(s, t).value != x
    ensures Needs(s', t) == Needs(s, t)
  {
  }

  lemma NeedsGone(s: State, s': State, t: nat, x: nat)
    requires Owners(s) && RanAlone(s, s', x) && t < |s.txns| && t != x
    requires Needs(s, t) == Some(x) && Needs(s, x).None?
    ensures Needs(s', t).None?
  {
    assert OwnsLocks(s, x);
  }

  /** Once the end of the chain has committed, the chain is one shorter. */
  lemma {:induction false} FollowStays(s: State, s': State, t: nat, k: nat, x: nat, j: nat)
    requires RanAlone(s, s', x) && Follow(s, t, k) == Some(x) && Needs(s, x).None? && j < k
    ensures Follow(s', t, j) == Follow(s, t, j) && Follow(s, t, j).Some? && Follow(s, t, j).value != x
  {
    hide Needs;
    FollowPrefix(s, t, j, k);
    if j > 0 {
      FollowStays(s, s', t, k, x, j - 1);
      FollowPrefix(s, t, j - 1, k);
      NeedsStays(s, s', Follow(s, t, j - 1).value, x);
    }
  }

  lemma ChainShortens(s: State, s': State, t: nat, k: nat, x: nat)
    requires Owners(s) && RanAlone(s, s', x) && Follow(s, t, k) == Some(x) && Needs(s, x).None? && k > 0
    ensures Follow(s', t, k).None? && Follow(s', t, 0) != Some(x)
  {
    hide Needs, Owners;
    FollowStays(s, s', t, k, x, k - 1);
    FollowStays(s, s', t, k, x, 0);
    FollowPrefix(s, t, k - 1, k);
    NeedsGone(s, s', Follow(s, t, k - 1).value, x);
  }

  /** The end of a chain that ends. */
  lemma {:induction false} ChainEnd(s: State, t: nat, k: nat) returns (m: nat)
    requires Follow(s, t, k).None?
    ensures m < k && Follow(s, t, m).Some? && Follow(s, t, m + 1).None?
  {
    hide Needs;
    m := k - 1;
    if Follow(s, t, m).None? {
      m := ChainEnd(s, t, m);
    }
  }

  lemma {:induction false} OnlyLive(s: State, t: nat, k: nat)
    requires Owners(s) && t < |s.txns| && !s.txns[t].phase.Ended? && Follow(s, t, k).Some?
    ensures var x := Follow(s, t, k).value; x < |s.txns| && !s.txns[x].phase.Ended?
  {
    hide Owners, Needs;
    if k > 0 {
      FollowPrefix(s, t, k - 1, k);
      NeedsIsLive(s, Follow(s, t, k - 1).value);
    }
  }

  lemma {:induction false} Serve(h: Hashing, s: State, t: nat, k: nat) returns (labels: seq<Label>)
    requires Owners(s) && t < |s.txns| && !s.txns[t].phase.Ended? && Follow(s, t, k).None?
    ensures NoRollbacks(labels)
    ensures t < |Exec(h, s, labels).txns| && Exec(h, s, labels).txns[t].phase.Ended?
    decreases k
  {
    hide Owners, Needs, Do, ReleasedLocal, Released;
    var m := ChainEnd(s, t, k);
    OnlyLive(s, t, m);
    var x := Follow(s, t, m).value;
    var first := RunsAlone(h, s, x);
    if m == 0 {
      labels := first;
    } else {
      var s' := Exec(h, s, first);
      RunKeepsOwners(h, s, first);
      ChainShortens(s, s', t, m, x);
      var rest := Serve(h, s', t, m);
      labels := first + rest;
      ExecAppend(h, s, first, rest);
    }
  }

  // ---- the exact condition ---------------------------------------------------------------

  lemma Reached(h: Hashing, base: seq<Row>, before: seq<Label>)
    ensures Owners(Exec(h, Init(base), before))
  {
    InitOwners(base);
    RunKeepsOwners(h, Init(base), before);
  }

  /** An append can finish without any rollback if and only if its chain ends; otherwise no
      continuation finishes it that spares the transactions on the chain. */
  lemma StuckExactlyWhen(h: Hashing, base: seq<Row>, before: seq<Label>, t: nat)
    requires t < |Exec(h, Init(base), before).txns| && Unfinished(Exec(h, Init(base), before).txns[t].phase)
    ensures var s := Exec(h, Init(base), before);
            ChainEnds(s, t) <==> exists labels :: NoRollbacks(labels) && Finishes(h, s, labels, t)
    ensures var s := Exec(h, Init(base), before);
            !ChainEnds(s, t) ==> forall labels :: SparesChain(s, t, labels) ==> !Finishes(h, s, labels, t)
  {
    hide Owners, Exec, Follow, Doomed, OnChain;
    var s := Exec(h, Init(base), before);
    Reached(h, base, before);
    if ChainEnds(s, t) {
      var k: nat :| Follow(s, t, k).None?;
      var labels := Serve(h, s, t, k);
      assert Finishes(h, s, labels, t);
    } else {
      forall labels | SparesChain(s, t, labels) ensures !Finishes(h, s, labels, t) {
        NeverServed(h, s, t, labels);
      }
    }
  }

  ghost predicate Finishes(h: Hashing, s: State, labels: seq<Label>, t: nat) {
    var s' := Exec(h, s, labels);
    t < |s'.txns| && !Unfinished(s'.txns[t].phase)
  }

  lemma NeverServed(h: Hashing, s: State, t: nat, labels: seq<Label>)
    requires Owners(s) && t < |s.txns| && !ChainEnds(s, t) && SparesChain(s, t, labels)
    ensures !Finishes(h, s, labels, t)
  {
    hide Owners, ChainEnds, OnChain, Exec;
    EndlessIsDoomed(s, t);
    DoomedRun(h, s, labels, ChainSet(s, t));
    assert DoomedTxn(Exec(h, s, labels), ChainSet(s, t), t);
  }

  // ---- the chain is short enough to follow ----------------------------------------------

  /** The first `n` transactions on the chain. */
  ghost function Nodes(s: State, t: nat, n: nat): set<nat> {
    if n == 0 then {}
    else Nodes(s, t, n - 1) + if Follow(s, t, n - 1).Some? then {Follow(s, t, n - 1).value} else {}
  }

  lemma {:induction false} NodesAre(s: State, t: nat, n: nat)
    ensures forall x :: x in Nodes(s, t, n) <==> AmongFirst(s, t, n, x)
  {
    hide Follow;
    if n > 0 {
      NodesAre(s, t, n - 1);
      forall x ensures x in Nodes(s, t, n) <==> AmongFirst(s, t, n, x) {
        if AmongFirst(s, t, n - 1, x) {
          var i: nat :| i < n - 1 && Follow(s, t, i) == Some(x);
          assert i < n;
        }
        if AmongFirst(s, t, n, x) {
          var i: nat :| i < n && Follow(s, t, i) == Some(x);
          assert i < n - 1 ==> AmongFirst(s, t, n - 1, x);
        }
      }
    }
  }

  ghost predicate AmongFirst(s: State, t: nat, n: nat, x: nat) {
    exists i: nat :: i < n && Follow(s, t, i) == Some(x)
  }

  /** A chain that comes back to a transaction goes round for ever. */
  lemma {:induction false} Repeats(s: State, t: nat, i: nat, j: nat, k: nat)
    requires i < j && Follow(s, t, i).Some? && Follow(s, t, i) == Follow(s, t, j)
    ensures Follow(s, t, i + k) == Follow(s, t, j + k)
  {
    hide Needs;
    if k > 0 {
      Repeats(s, t, i, j, k - 1);
    }
  }

  lemma {:induction false} NeverEnds(s: State, t: nat, i: nat, j: nat, k: nat)
    requires i < j && Follow(s, t, j).Some? && Follow(s, t, i) == Follow(s, t, j)
    ensures Follow(s, t, k).Some?
  {
    hide Follow;
    if k < j {
      FollowPrefix(s, t, k, j);
    } else if k > j {
      FollowPrefix(s, t, i, j);
      NeverEnds(s, t, i, j, k - (j - i));
      Repeats(s, t, i, j, k - j);
    }
  }

  /** Without a repetition the chain has as many transactions as links. */
  lemma {:induction false} NodesDistinct(s: State, t: nat, n: nat)
    requires forall i: nat :: i < n ==> Follow(s, t, i).Some?
    requires forall i: nat, j: nat :: i < j < n ==> Follow(s, t, i) != Follow(s, t, j)
    ensures |Nodes(s, t, n)| == n
  {
    hide Follow;
    if n > 0 {
      var nodes, last := Nodes(s, t, n - 1), Follow(s, t, n - 1).value;
      NodesDistinct(s, t, n - 1);
      NodesAre(s, t, n - 1);
      assert last !in nodes;
      assert Nodes(s, t, n) == nodes + {last};
    }
  }

  lemma {:induction false} Below(xs: set<nat>, n: nat)
    requires forall x :: x in xs ==> x < n
    ensures |xs| <= n
  {
    if n > 0 {
      Below(xs - {n - 1}, n - 1);
    } else {
      assert xs == {};
    }
  }

  /** Following the chain for as many links as there are transactions tells whether it ends. */
  lemma EndsWithin(s: State, t: nat)
    requires Owners(s) && t < |s.txns| && !s.txns[t].phase.Ended?
    ensures ChainEnds(s, t) <==> Follow(s, t, |s.txns|).None?
  {
    hide Owners, Follow;
    var n := |s.txns|;
    if Follow(s, t, n).Some? {
      forall i: nat | i < n + 1 ensures Follow(s, t, i).Some? {
        if i < n {
          FollowPrefix(s, t, i, n);
        }
      }
      if forall i: nat, j: nat :: i < j < n + 1 ==> Follow(s, t, i) != Follow(s, t, j) {
        var nodes := Nodes(s, t, n + 1);
        NodesDistinct(s, t, n + 1);
        NodesAre(s, t, n + 1);
        forall x | x in nodes ensures x < n {
          var i: nat :| i < n + 1 && Follow(s, t, i) == Some(x);
          OnlyLive(s, t, i);
        }
        Below(nodes, n);
      } else {
        var i: nat, j: nat :| i < j < n + 1 && Follow(s, t, i) == Follow(s, t, j);
        forall k: nat ensures Follow(s, t, k).Some? {
          NeverEnds(s, t, i, j, k);
        }
      }
    }
  }

  // ---- one append each, and a second append ----------------------------------------------

  /** With one append per transaction every chain ends. */
  lemma OneAppendEnds(h: Hashing, base: seq<Row>, before: seq<Label>, t: nat)
    requires OneAppendEach(h, Init(base), before)
    requires t < |Exec(h, Init(base), before).txns| && Unfinished(Exec(h, Init(base), before).txns[t].phase)
    ensures ChainEnds(Exec(h, Init(base), before), t)
  {
    hide OneAppendEach, Exec;
    var s := Exec(h, Init(base), before);
    RunKeepsLocks(h, base, before);
    OneAppendShort(s, t);
  }

  /** The holder of the asyncio lock waits at most for the holder of the row lock, who waits
      for nobody. */
  lemma OneAppendShort(s: State, t: nat)
    requires LockInv(s) && t < |s.txns|
    ensures ChainEnds(s, t)
  {
    assert Follow(s, t, 0) == Some(t) && Follow(s, t, 1) == Needs(s, t);
    if Needs(s, t).Some? {
      var d := Needs(s, t).value;
      assert Follow(s, t, 2) == Needs(s, d);
      if Needs(s, d).Some? {
        assert Needs(s, Needs(s, d).value).None?;
        assert Follow(s, t, 3).None?;
      }
    }
  }

  /** `t` holds the user's row lock and waits for an asyncio lock whose holder waits for that
      row lock. */
  ghost predicate MutualWait(s: State, t: nat, u: string) {
    && t < |s.txns| && s.txns[t].phase.WantLocal? && s.txns[t].phase.user == u && Holds(s, t, u)
    && (s.txns[t].worker, u) in s.local
    && var d := s.local[(s.txns[t].worker, u)];
       d != t && d < |s.txns| && s.txns[d].phase.WantRow? && s.txns[d].phase.user == u
  }

  lemma HolderWantsRow(s: State, t: nat)
    requires Owners(s) && t < |s.txns| && s.txns[t].phase.WantLocal? && Holds(s, t, s.txns[t].phase.user)
    requires Key(s.txns[t]) in s.local
    ensures MutualWait(s, t, s.txns[t].phase.user)
  {
    var d := s.local[Key(s.txns[t])];
    assert OwnsLocks(s, d);
  }

  /** A transaction that appended for a user and waits to append for that user again is stuck,
      unless it or the holder of its asyncio lock is rolled back, exactly when that lock is
      taken; its holder is then waiting for the row lock. */
  lemma SecondAppendStuckExactlyWhen(h: Hashing, base: seq<Row>, before: seq<Label>, t: nat)
    requires var s := Exec(h, Init(base), before);
             t < |s.txns| && s.txns[t].phase.WantLocal? && Holds(s, t, s.txns[t].phase.user)
    ensures var s := Exec(h, Init(base), before);
            if Key(s.txns[t]) in s.local then
              && MutualWait(s, t, s.txns[t].phase.user)
              && forall labels :: Spares(labels, t, s.local[Key(s.txns[t])]) ==> !Finishes(h, s, labels, t)
            else exists labels :: NoRollbacks(labels) && Finishes(h, s, labels, t)
  {
    hide Owners, Exec, Finishes, DoomedTxn;
    var s := Exec(h, Init(base), before);
    Reached(h, base, before);
    if Key(s.txns[t]) in s.local {
      HolderWantsRow(s, t);
      var d := s.local[Key(s.txns[t])];
      forall labels | Spares(labels, t, d) ensures !Finishes(h, s, labels, t) {
        PairNeverServed(h, s, t, labels);
      }
    } else {
      assert Follow(s, t, 0) == Some(t) && Follow(s, t, 1).None?;
      StuckExactlyWhen(h, base, before, t);
    }
  }

  predicate Spares(labels: seq<Label>, t: nat, d: nat) {
    forall l :: l in labels && l.Rollback? ==> l.t != t && l.t != d
  }

  lemma PairNeverServed(h: Hashing, s: State, t: nat, labels: seq<Label>)
    requires Owners(s) && t < |s.txns| && s.txns[t].phase.WantLocal? && MutualWait(s, t, s.txns[t].phase.user)
    requires Spares(labels, t, s.local[Key(s.txns[t])])
    ensures !Finishes(h, s, labels, t)
  {
    hide Owners, Exec;
    var d := s.local[Key(s.txns[t])];
    assert DoomedTxn(s, {t, d}, t) && DoomedTxn(s, {t, d}, d);
    DoomedRun(h, s, labels, {t, d});
    assert DoomedTxn(Exec(h, s, labels), {t, d}, t);
  }

  /** Whenever a transaction that holds a user's row lock calls a second append for that user,
      the run can go on to that mutual wait. */
  lemma SecondCallCanDeadlock(h: Hashing, base: seq<Row>, before: seq<Label>, t: nat, u: string, e: Entry, e': Entry)
    requires var s := Exec(h, Init(base), before); t < |s.txns| && s.txns[t].phase.Idle? && Holds(s, t, u)
    ensures exists labels :: MutualWait(Exec(h, Exec(h, Init(base), before + [Call(t, u, e)]), labels), t, u)
  {
    var s := Exec(h, Init(base), before);
    Reached(h, base, before);
    hide Exec;
    ExecSnoc(h, Init(base), before, Call(t, u, e));
    StepKeepsOwners(h, s, Call(t, u, e));
    var s' := Do(h, s, Call(t, u, e));
    var labels: seq<Label>;
    if (s'.txns[t].worker, u) in s'.local {
      HolderWantsRow(s', t);
      labels := [];
      NoSteps(h, s');
    } else {
      var d, w := |s'.txns|, s'.txns[t].worker;
      labels := [Begin(w), Call(d, u, e'), TakeLocal(d)];
      ExecThree(h, s', Begin(w), Call(d, u, e'), TakeLocal(d));
    }
    assert MutualWait(Exec(h, s', labels), t, u);
  }

  lemma NoSteps(h: Hashing, s: State)
    ensures Exec(h, s, []) == s
  {
  }
}
