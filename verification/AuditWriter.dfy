/** The append protocol of services/audit.py as a state machine over any number of
    interleaved transactions.

    One label is one step between two awaits. A label that is not enabled leaves the
    state as it is, so every sequence of labels is a run. */
module AuditWriter {
  import opened Options
  import opened AuditRows

  // ---- one append ---------------------------------------------------------------

  /** The sanitised arguments of one append_audit_log call. */
  datatype Entry = Entry(
    connectorName: string,
    action: string,
    endpoint: string,
    scopeUsed: string,
    status: string,
    requestId: string,
    requestData: Option<Json>,
    responseSummary: Option<string>,
    reasoningChain: Option<Json>,
    detectionMethod: Option<string>,
    confidenceScore: Option<Json>)

  /** The payload as the writer builds it, before there is a row. */
  function BuildHashPayload(user: string, e: Entry, previousHash: Option<Hash>): Payload {
    Payload(user, e.connectorName, e.action, e.endpoint, e.scopeUsed, e.status, e.requestId, e.requestData,
            e.responseSummary, e.reasoningChain, e.detectionMethod, e.confidenceScore, previousHash)
  }

  /** The row an append inserts after `head`; the database supplies id and timestamp. */
  function NewRow(h: Hashing, user: string, e: Entry, head: Option<Row>, id: string, timestamp: int): Row {
    var previousHash := if head.Some? then Some(head.value.integrityHash) else None;
    var number := if head.None? || head.value.number.None? then 1 else head.value.number.value + 1;
    Row(id, user, timestamp, Some(number), e.connectorName, e.action, e.endpoint, e.scopeUsed, e.status,
        e.reasoningChain, e.detectionMethod, e.confidenceScore, e.requestData, e.responseSummary,
        h.keyed(BuildHashPayload(user, e, previousHash)), previousHash, e.requestId)
  }

  /** `a` may come before `b` under ORDER BY seq DESC NULLS LAST, timestamp DESC. */
  predicate HeadOrder(a: Row, b: Row) {
    match (a.number, b.number)
    case (Some(m), Some(n)) => m > n || (m == n && a.timestamp >= b.timestamp)
    case (Some(_), None) => true
    case (None, Some(_)) => false
    case (None, None) => a.timestamp >= b.timestamp
  }

  /** `head` is a possible answer of the head query (LIMIT 1) over one user's rows. */
  predicate IsHead(rows: seq<Row>, head: Option<Row>) {
    match head
    case None => rows == []
    case Some(r) => r in rows && forall x :: x in rows ==> HeadOrder(r, x)
  }

  // ---- the machine --------------------------------------------------------------

  datatype Phase =
    | Idle
    | WantLocal(user: string, entry: Entry)                    // waiting for the asyncio lock
    | WantRow(user: string, entry: Entry)                      // waiting for the row lock
    | HasRow(user: string, entry: Entry)
    | HasHead(user: string, entry: Entry, head: Option<Row>)
    | Inserted(user: string)                                   // flushed, not yet returned
    | Ended                                                    // committed or rolled back

  datatype Txn = Txn(worker: nat, phase: Phase, own: seq<Row>)

  /** `base` is the table at the upgrade and never changes; `table` holds the committed
      rows; `local` the asyncio locks of each worker process; `rowLock` who holds
      SELECT ... FOR UPDATE on which user row. */
  datatype State = State(
    base: seq<Row>,
    table: seq<Row>,
    txns: seq<Txn>,
    local: map<(nat, string), nat>,
    rowLock: map<string, nat>)

  datatype Label =
    | Begin(worker: nat)
    | Call(t: nat, user: string, entry: Entry)
    | TakeLocal(t: nat)
    | TakeRow(t: nat)
    | ReadHead(t: nat, head: Option<Row>)
    | Insert(t: nat, id: string, timestamp: int)
    | Return(t: nat)
    | Commit(t: nat)
    | Rollback(t: nat)

  function Init(base: seq<Row>): State {
    State(base, base, [], map[], map[])
  }

  /** What transaction `t` reads under READ COMMITTED: the committed rows and its own. */
  function Visible(s: State, t: nat): seq<Row>
    requires t < |s.txns|
  {
    s.table + s.txns[t].own
  }

  predicate Enabled(s: State, l: Label) {
    l.Begin? ||
    (l.t < |s.txns| &&
     var x := s.txns[l.t];
     match l
     case Begin(_) => true
     case Call(_, _, _) => x.phase.Idle?
     case TakeLocal(_) => x.phase.WantLocal? && (x.worker, x.phase.user) !in s.local
     case TakeRow(t) => x.phase.WantRow? && (x.phase.user in s.rowLock ==> s.rowLock[x.phase.user] == t)
     case ReadHead(t, head) => x.phase.HasRow? && IsHead(OfUser(Visible(s, t), x.phase.user), head)
     case Insert(_, _, _) => x.phase.HasHead?
     case Return(_) => x.phase.Inserted?
     case Commit(_) => x.phase.Idle?
     case Rollback(_) => !x.phase.Ended?)
  }

  function SetTxn(s: State, t: nat, x: Txn): State
    requires t < |s.txns|
  {
    s.(txns := s.txns[t := x])
  }

  function Released(locks: map<string, nat>, t: nat): map<string, nat> {
    map u | u in locks && locks[u] != t :: locks[u]
  }

  function ReleasedLocal(locks: map<(nat, string), nat>, t: nat): map<(nat, string), nat> {
    map k | k in locks && locks[k] != t :: locks[k]
  }

  function Do(h: Hashing, s: State, l: Label): State {
    if !Enabled(s, l) then s
    else match l
      case Begin(worker) => s.(txns := s.txns + [Txn(worker, Idle, [])])
      case Call(t, user, entry) => SetTxn(s, t, s.txns[t].(phase := WantLocal(user, entry)))
      case TakeLocal(t) =>
        var x := s.txns[t];
        SetTxn(s, t, x.(phase := WantRow(x.phase.user, x.phase.entry)))
          .(local := s.local[(x.worker, x.phase.user) := t])
      case TakeRow(t) =>
        var x := s.txns[t];
        SetTxn(s, t, x.(phase := HasRow(x.phase.user, x.phase.entry))).(rowLock := s.rowLock[x.phase.user := t])
      case ReadHead(t, head) =>
        var x := s.txns[t];
        SetTxn(s, t, x.(phase := HasHead(x.phase.user, x.phase.entry, head)))
      case Insert(t, id, timestamp) =>
        var x := s.txns[t];
        var row := NewRow(h, x.phase.user, x.phase.entry, x.phase.head, id, timestamp);
        SetTxn(s, t, x.(phase := Inserted(x.phase.user), own := x.own + [row]))
      case Return(t) =>
        var x := s.txns[t];
        SetTxn(s, t, x.(phase := Idle)).(local := s.local - {(x.worker, x.phase.user)})
      case Commit(t) =>
        SetTxn(s, t, s.txns[t].(phase := Ended, own := []))
          .(table := s.table + s.txns[t].own, rowLock := Released(s.rowLock, t))
      case Rollback(t) =>
        SetTxn(s, t, s.txns[t].(phase := Ended, own := []))
          .(local := ReleasedLocal(s.local, t), rowLock := Released(s.rowLock, t))
  }

  function Exec(h: Hashing, s: State, labels: seq<Label>): State {
    if labels == [] then s else Do(h, Exec(h, s, labels[..|labels| - 1]), labels[|labels| - 1])
  }

  // ---- the chain ----------------------------------------------------------------

  /** The rows one user had before the upgrade: seq-less, unkeyed, linked to each other and
      told apart by their timestamps. */
  ghost predicate LegacyLinked(h: Hashing, rows: seq<Row>) {
    forall i :: 0 <= i < |rows| ==>
      && rows[i].number == None
      && rows[i].integrityHash == h.unkeyed(PayloadOf(rows[i]))
      && (i > 0 ==> rows[i].previousHash == Some(rows[i - 1].integrityHash))
      && (i > 0 ==> rows[i - 1].timestamp < rows[i].timestamp)
  }

  ghost predicate LegacyBase(h: Hashing, base: seq<Row>) {
    forall u :: LegacyLinked(h, OfUser(base, u))
  }

  /** `row` is the keyed row that belongs at position `i` of `rows`, `k` of which are legacy. */
  ghost predicate LinkAt(h: Hashing, user: string, k: nat, rows: seq<Row>, i: nat)
    requires i < |rows|
  {
    && rows[i].userId == user
    && rows[i].number == Some(i - k + 1)
    && Keyed(h, rows[i])
    && rows[i].previousHash == if i == 0 then None else Some(rows[i - 1].integrityHash)
  }

  /** One linear chain: the legacy rows, then rows numbered 1, 2, ... each carrying its
      predecessor's hash. */
  ghost predicate Chain(h: Hashing, user: string, legacy: seq<Row>, rows: seq<Row>) {
    && legacy <= rows
    && forall i :: |legacy| <= i < |rows| ==> LinkAt(h, user, |legacy|, rows, i)
  }

  /** On a chain the head query has exactly one answer, the last row. */
  lemma HeadIsLast(h: Hashing, user: string, legacy: seq<Row>, rows: seq<Row>, head: Option<Row>)
    requires LegacyLinked(h, legacy) && Chain(h, user, legacy, rows)
    ensures IsHead(rows, head) <==> head == if rows == [] then None else Some(rows[|rows| - 1])
  {
    if rows != [] {
      var n := |rows| - 1;
      forall i | 0 <= i < n
        ensures HeadOrder(rows[n], rows[i]) && !HeadOrder(rows[i], rows[n])
      {
        if n < |legacy| {
          TimestampsIncrease(h, legacy, i, n);
        } else if i >= |legacy| {
          assert LinkAt(h, user, |legacy|, rows, i) && LinkAt(h, user, |legacy|, rows, n);
        } else {
          assert LinkAt(h, user, |legacy|, rows, n);
        }
      }
      assert HeadOrder(rows[n], rows[n]);
      assert rows[n] in rows;
    }
  }

  lemma {:induction false} TimestampsIncrease(h: Hashing, legacy: seq<Row>, i: nat, j: nat)
    requires LegacyLinked(h, legacy) && i < j < |legacy|
    ensures legacy[i].timestamp < legacy[j].timestamp
  {
    if i < j - 1 {
      TimestampsIncrease(h, legacy, i, j - 1);
    }
  }

  /** Inserting after the head extends the chain by one row. */
  lemma AppendExtends(h: Hashing, user: string, e: Entry, legacy: seq<Row>, rows: seq<Row>, head: Option<Row>,
                      id: string, timestamp: int)
    requires LegacyLinked(h, legacy) && Chain(h, user, legacy, rows)
    requires head == if rows == [] then None else Some(rows[|rows| - 1])
    ensures Chain(h, user, legacy, rows + [NewRow(h, user, e, head, id, timestamp)])
  {
    var row := NewRow(h, user, e, head, id, timestamp);
    var longer := rows + [row];
    forall i | |legacy| <= i < |longer| ensures LinkAt(h, user, |legacy|, longer, i) {
      if i < |rows| {
        assert LinkAt(h, user, |legacy|, rows, i);
      } else if i > |legacy| {
        assert LinkAt(h, user, |legacy|, rows, i - 1);
      }
    }
  }

  // ---- the invariant ------------------------------------------------------------

  predicate Holds(s: State, t: nat, user: string) {
    user in s.rowLock && s.rowLock[user] == t
  }

  /** What transaction `t` sees of `user`. */
  function View(s: State, t: nat, user: string): seq<Row>
    requires t < |s.txns|
  {
    OfUser(s.table, user) + OfUser(s.txns[t].own, user)
  }

  /** A transaction with rows of a user, or past the row lock, holds that user's row lock;
      what it sees is a chain; and the head it remembers is still the last row it sees. */
  ghost predicate TxnInv(h: Hashing, s: State, t: nat, user: string)
    requires t < |s.txns|
  {
    var x := s.txns[t];
    && (OfUser(x.own, user) != [] ==> Holds(s, t, user))
    && ((x.phase.HasRow? || x.phase.HasHead? || x.phase.Inserted?) && x.phase.user == user ==> Holds(s, t, user))
    && Chain(h, user, OfUser(s.base, user), View(s, t, user))
    && (x.phase.HasHead? && x.phase.user == user ==>
          var rows := View(s, t, user);
          x.phase.head == if rows == [] then None else Some(rows[|rows| - 1]))
  }

  ghost predicate Inv(h: Hashing, s: State) {
    && LegacyBase(h, s.base)
    && (forall u :: Chain(h, u, OfUser(s.base, u), OfUser(s.table, u)))
    && (forall t, u :: 0 <= t < |s.txns| ==> TxnInv(h, s, t, u))
  }

  lemma InitInv(h: Hashing, base: seq<Row>)
    requires LegacyBase(h, base)
    ensures Inv(h, Init(base))
  {
  }

  /** What one step must keep, for one transaction and one user. */
  ghost predicate Kept(h: Hashing, s': State, t: nat, u: string)
    requires t < |s'.txns|
  {
    && Chain(h, u, OfUser(s'.base, u), OfUser(s'.table, u))
    && TxnInv(h, s', t, u)
  }

  lemma NoRows(u: string)
    ensures OfUser([], u) == []
  {
  }

  lemma OneRow(row: Row, u: string)
    ensures OfUser([row], u) == if row.userId == u then [row] else []
  {
  }

  /** The steps that write no row. */
  lemma QuietStepKeeps(h: Hashing, s: State, l: Label, t: nat, u: string)
    requires Inv(h, s) && Enabled(s, l) && t < |Do(h, s, l).txns|
    requires l.Begin? || l.Call? || l.TakeLocal? || l.TakeRow? || l.Return?
    ensures Kept(h, Do(h, s, l), t, u)
  {
    hide Chain, LegacyLinked, IsHead, OfUser;
    NoRows(u);
    var s' := Do(h, s, l);
    assert Chain(h, u, OfUser(s.base, u), OfUser(s.table, u));
    if t < |s.txns| {
      assert TxnInv(h, s, t, u);
      assert View(s', t, u) == View(s, t, u);
    } else {
      assert View(s', t, u) == OfUser(s.table, u);
    }
  }

  lemma ReadHeadKeeps(h: Hashing, s: State, l: Label, t: nat, u: string)
    requires Inv(h, s) && Enabled(s, l) && l.ReadHead? && t < |s.txns|
    ensures Kept(h, Do(h, s, l), t, u)
  {
    assert TxnInv(h, s, t, u) && Chain(h, u, OfUser(s.base, u), OfUser(s.table, u));
    assert View(Do(h, s, l), t, u) == View(s, t, u);
    if t == l.t && s.txns[t].phase.user == u {
      OfUserAppend(s.table, s.txns[t].own, u);
      HeadIsLast(h, u, OfUser(s.base, u), View(s, t, u), l.head);
    }
  }

  lemma InsertKeeps(h: Hashing, s: State, l: Label, t: nat, u: string)
    requires Inv(h, s) && Enabled(s, l) && l.Insert? && t < |s.txns|
    ensures Kept(h, Do(h, s, l), t, u)
  {
    hide Chain, LegacyLinked, IsHead, OfUser;
    assert TxnInv(h, s, t, u) && Chain(h, u, OfUser(s.base, u), OfUser(s.table, u));
    var s' := Do(h, s, l);
    var x := s.txns[l.t];
    var row := NewRow(h, x.phase.user, x.phase.entry, x.phase.head, l.id, l.timestamp);
    OfUserAppend(x.own, [row], u);
    OneRow(row, u);
    assert row.userId == x.phase.user;
    if t == l.t && x.phase.user == u {
      AppendExtends(h, u, x.phase.entry, OfUser(s.base, u), View(s, t, u), x.phase.head, l.id, l.timestamp);
      assert View(s', t, u) == View(s, t, u) + [row];
    } else {
      assert View(s', t, u) == View(s, t, u);
    }
  }

  /** Committed rows were rows of the lock holder, so no other transaction's view of that
      user was in use. */
  lemma CommitKeeps(h: Hashing, s: State, l: Label, t: nat, u: string)
    requires Inv(h, s) && Enabled(s, l) && l.Commit? && t < |s.txns|
    ensures Kept(h, Do(h, s, l), t, u)
  {
    hide Chain, LegacyLinked, IsHead, OfUser;
    NoRows(u);
    assert TxnInv(h, s, t, u) && TxnInv(h, s, l.t, u);
    var s' := Do(h, s, l);
    OfUserAppend(s.table, s.txns[l.t].own, u);
    assert OfUser(s'.table, u) == View(s, l.t, u);
    if t == l.t || OfUser(s.txns[l.t].own, u) != [] {
      assert View(s', t, u) == OfUser(s'.table, u);
    } else {
      assert View(s', t, u) == View(s, t, u);
    }
  }

  lemma RollbackKeeps(h: Hashing, s: State, l: Label, t: nat, u: string)
    requires Inv(h, s) && Enabled(s, l) && l.Rollback? && t < |s.txns|
    ensures Kept(h, Do(h, s, l), t, u)
  {
    assert TxnInv(h, s, t, u) && Chain(h, u, OfUser(s.base, u), OfUser(s.table, u));
    var s' := Do(h, s, l);
    assert t == l.t ==> View(s', t, u) == OfUser(s.table, u);
    assert t != l.t ==> View(s', t, u) == View(s, t, u);
  }

  lemma StepKeepsUser(h: Hashing, s: State, l: Label, t: nat, u: string)
    requires Inv(h, s) && Enabled(s, l) && t < |Do(h, s, l).txns|
    ensures Kept(h, Do(h, s, l), t, u)
  {
    match l
    case Begin(_) => QuietStepKeeps(h, s, l, t, u);
    case Call(_, _, _) => QuietStepKeeps(h, s, l, t, u);
    case TakeLocal(_) => QuietStepKeeps(h, s, l, t, u);
    case TakeRow(_) => QuietStepKeeps(h, s, l, t, u);
    case Return(_) => QuietStepKeeps(h, s, l, t, u);
    case ReadHead(_, _) => ReadHeadKeeps(h, s, l, t, u);
    case Insert(_, _, _) => InsertKeeps(h, s, l, t, u);
    case Commit(_) => CommitKeeps(h, s, l, t, u);
    case Rollback(_) => RollbackKeeps(h, s, l, t, u);
  }

  lemma StepKeepsInv(h: Hashing, s: State, l: Label)
    requires Inv(h, s)
    ensures Inv(h, Do(h, s, l))
  {
    if Enabled(s, l) {
      var s' := Do(h, s, l);
      forall u ensures Chain(h, u, OfUser(s'.base, u), OfUser(s'.table, u)) {
        StepKeepsUser(h, s, l, 0, u);
      }
      forall t, u | 0 <= t < |s'.txns| ensures TxnInv(h, s', t, u) {
        StepKeepsUser(h, s, l, t, u);
      }
    }
  }

  lemma {:induction false} RunKeepsInv(h: Hashing, base: seq<Row>, labels: seq<Label>)
    requires LegacyBase(h, base)
    ensures Inv(h, Exec(h, Init(base), labels))
    ensures Exec(h, Init(base), labels).base == base
  {
    if labels == [] {
      InitInv(h, base);
    } else {
      var n := |labels| - 1;
      RunKeepsInv(h, base, labels[..n]);
      StepKeepsInv(h, Exec(h, Init(base), labels[..n]), labels[n]);
    }
  }

  // ---- no fork ------------------------------------------------------------------

  /** The numbered part of a user's committed rows. */
  function Numbered(s: State, user: string): seq<Row>
    requires |OfUser(s.base, user)| <= |OfUser(s.table, user)|
  {
    OfUser(s.table, user)[|OfUser(s.base, user)|..]
  }

  /** After any run the committed rows of every user are one chain: the legacy rows in
      place, then 1..n, each linked to its predecessor. Only the row lock is used: with one
      transaction per worker the asyncio locks exclude nothing. */
  lemma NoFork(h: Hashing, base: seq<Row>, labels: seq<Label>, user: string)
    requires LegacyBase(h, base)
    ensures Chain(h, user, OfUser(base, user), OfUser(Exec(h, Init(base), labels).table, user))
  {
    RunKeepsInv(h, base, labels);
  }

  /** Two different positions of a chain never carry the same keyed hash. A repeat would
      repeat one row earlier, down to the first keyed row, which follows no keyed row. */
  lemma {:induction false} HashesNeverRepeat(h: Hashing, user: string, legacy: seq<Row>, rows: seq<Row>, i: nat, j: nat)
    requires Ideal(h) && LegacyLinked(h, legacy) && Chain(h, user, legacy, rows)
    requires |legacy| <= i < j < |rows|
    ensures rows[i].integrityHash != rows[j].integrityHash
    decreases i
  {
    assert LinkAt(h, user, |legacy|, rows, i) && LinkAt(h, user, |legacy|, rows, j);
    assert LinkAt(h, user, |legacy|, rows, j - 1);
    assert 0 < i == |legacy| ==> rows[i - 1] == legacy[i - 1];
    if i > |legacy| {
      HashesNeverRepeat(h, user, legacy, rows, i - 1, j - 1);
    }
  }

  /** No two committed rows of a user name the same predecessor. */
  lemma NoSharedPredecessor(h: Hashing, base: seq<Row>, labels: seq<Label>, user: string, i: nat, j: nat)
    requires Ideal(h) && LegacyBase(h, base)
    requires var k := |OfUser(base, user)|; k <= i < j < |OfUser(Exec(h, Init(base), labels).table, user)|
    ensures var rows := OfUser(Exec(h, Init(base), labels).table, user);
            rows[i].previousHash != rows[j].previousHash
  {
    hide Exec, OfUser, Chain, LegacyLinked;
    NoFork(h, base, labels, user);
    PredecessorsDiffer(h, user, OfUser(base, user), OfUser(Exec(h, Init(base), labels).table, user), i, j);
  }

  lemma PredecessorsDiffer(h: Hashing, user: string, legacy: seq<Row>, rows: seq<Row>, i: nat, j: nat)
    requires Ideal(h) && LegacyLinked(h, legacy) && Chain(h, user, legacy, rows)
    requires |legacy| <= i < j < |rows|
    ensures rows[i].previousHash != rows[j].previousHash
  {
    assert LinkAt(h, user, |legacy|, rows, i) && LinkAt(h, user, |legacy|, rows, j);
    assert LinkAt(h, user, |legacy|, rows, j - 1);
    if i > |legacy| {
      assert LinkAt(h, user, |legacy|, rows, i - 1);
      HashesNeverRepeat(h, user, legacy, rows, i - 1, j - 1);
    } else if 0 < i {
      assert rows[i - 1] == legacy[i - 1];
    }
  }
}
