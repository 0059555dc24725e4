/** What the committed rows say: read off the labels of a run, they are exactly the appends of the
    transactions that committed, in commit order (services/audit.py). */
module AuditContents {
  import opened Options
  import opened AuditRows
  import opened AuditWriter

  /** One append: by which transaction, for whom, with what, and what the database supplied. */
  datatype Item = Item(t: nat, user: string, entry: Entry, id: string, timestamp: int)

  /** The last label of a run was enabled when its turn came. */
  predicate Happened(h: Hashing, base: seq<Row>, labels: seq<Label>)
    requires labels != []
  {
    Enabled(Exec(h, Init(base), labels[..|labels| - 1]), labels[|labels| - 1])
  }

  // ---- the expected rows, from the labels alone --------------------------------------

  /** The arguments of the transaction's latest call. */
  function CallOf(h: Hashing, base: seq<Row>, labels: seq<Label>, t: nat): Option<(string, Entry)> {
    if labels == [] then None
    else
      var last := labels[|labels| - 1];
      if last.Call? && last.t == t && Happened(h, base, labels) then Some((last.user, last.entry))
      else CallOf(h, base, labels[..|labels| - 1], t)
  }

  /** What the transaction has inserted, in order. */
  function InsertedBy(h: Hashing, base: seq<Row>, labels: seq<Label>, t: nat): seq<Item> {
    if labels == [] then []
    else
      var front, last := labels[..|labels| - 1], labels[|labels| - 1];
      var call := CallOf(h, base, front, t);
      if last.Insert? && last.t == t && Happened(h, base, labels) && call.Some? then
        InsertedBy(h, base, front, t) + [Item(t, call.value.0, call.value.1, last.id, last.timestamp)]
      else InsertedBy(h, base, front, t)
  }

  /** The inserts of each transaction that committed, in the order of the commits. */
  function Published(h: Hashing, base: seq<Row>, labels: seq<Label>): seq<Item> {
    if labels == [] then []
    else
      var front, last := labels[..|labels| - 1], labels[|labels| - 1];
      if last.Commit? && Happened(h, base, labels) then Published(h, base, front) + InsertedBy(h, base, front, last.t)
      else Published(h, base, front)
  }

  predicate CommittedIn(h: Hashing, base: seq<Row>, labels: seq<Label>, t: nat) {
    labels != [] &&
    (CommittedIn(h, base, labels[..|labels| - 1], t)
     || (labels[|labels| - 1] == Commit(t) && Happened(h, base, labels)))
  }

  predicate RolledBackIn(h: Hashing, base: seq<Row>, labels: seq<Label>, t: nat) {
    labels != [] &&
    (RolledBackIn(h, base, labels[..|labels| - 1], t)
     || (labels[|labels| - 1] == Rollback(t) && Happened(h, base, labels)))
  }

  // ---- rows that say what an append was called with ------------------------------------

  predicate Records(row: Row, item: Item) {
    && row.userId == item.user
    && row.connectorName == item.entry.connectorName
    && row.action == item.entry.action
    && row.endpoint == item.entry.endpoint
    && row.scopeUsed == item.entry.scopeUsed
    && row.status == item.entry.status
    && row.requestId == item.entry.requestId
    && row.requestData == item.entry.requestData
    && row.responseSummary == item.entry.responseSummary
    && row.reasoningChain == item.entry.reasoningChain
    && row.detectionMethod == item.entry.detectionMethod
    && row.confidenceScore == item.entry.confidenceScore
    && row.id == item.id && row.timestamp == item.timestamp
  }

  ghost predicate RecordsAll(rows: seq<Row>, items: seq<Item>) {
    |rows| == |items| && forall k :: 0 <= k < |rows| ==> Records(rows[k], items[k])
  }

  lemma RecordsConcat(a: seq<Row>, x: seq<Item>, b: seq<Row>, y: seq<Item>)
    requires RecordsAll(a, x) && RecordsAll(b, y)
    ensures RecordsAll(a + b, x + y)
  {
    hide Records;
  }

  // ---- what holds after every run ---------------------------------------------------------

  predicate Calling(p: Phase) {
    p.WantLocal? || p.WantRow? || p.HasRow? || p.HasHead?
  }

  ghost predicate TxnSays(h: Hashing, base: seq<Row>, labels: seq<Label>, s: State, t: nat) {
    if t < |s.txns| then
      && (!s.txns[t].phase.Ended? ==> RecordsAll(s.txns[t].own, InsertedBy(h, base, labels, t)))
      && (s.txns[t].phase.Ended? ==> s.txns[t].own == [])
      && (Calling(s.txns[t].phase) ==>
            CallOf(h, base, labels, t) == Some((s.txns[t].phase.user, s.txns[t].phase.entry)))
    else InsertedBy(h, base, labels, t) == []
  }

  ghost predicate Says(h: Hashing, base: seq<Row>, labels: seq<Label>, s: State) {
    && |base| <= |s.table| && s.table[..|base|] == base
    && RecordsAll(s.table[|base|..], Published(h, base, labels))
    && forall t: nat :: TxnSays(h, base, labels, s, t)
  }

  /** A label that did not happen adds nothing. */
  lemma NothingHappened(h: Hashing, base: seq<Row>, labels: seq<Label>, t: nat)
    requires labels != [] && !Happened(h, base, labels)
    ensures var front := labels[..|labels| - 1];
            && CallOf(h, base, labels, t) == CallOf(h, base, front, t)
            && InsertedBy(h, base, labels, t) == InsertedBy(h, base, front, t)
            && Published(h, base, labels) == Published(h, base, front)
  {
    hide Happened;
  }

  lemma StepSaysTxn(h: Hashing, base: seq<Row>, labels: seq<Label>, t: nat)
    requires labels != [] && Happened(h, base, labels)
    requires TxnSays(h, base, labels[..|labels| - 1], Exec(h, Init(base), labels[..|labels| - 1]), t)
    ensures TxnSays(h, base, labels, Exec(h, Init(base), labels), t)
  {
    hide Exec, Records, Happened;
    ExecLast(h, base, labels);
    var front, l := labels[..|labels| - 1], labels[|labels| - 1];
    var s := Exec(h, Init(base), front);
    if l.Insert? && l.t == t {
      InsertSays(h, s, l, CallOf(h, base, front, t), InsertedBy(h, base, front, t));
    }
  }

  lemma ExecLast(h: Hashing, base: seq<Row>, labels: seq<Label>)
    requires labels != []
    ensures var s, l := Exec(h, Init(base), labels[..|labels| - 1]), labels[|labels| - 1];
            Exec(h, Init(base), labels) == Do(h, s, l) && (Happened(h, base, labels) <==> Enabled(s, l))
  {
  }

  /** The inserted row says what the call said. */
  lemma InsertSays(h: Hashing, s: State, l: Label, call: Option<(string, Entry)>, items: seq<Item>)
    requires l.Insert? && Enabled(s, l) && RecordsAll(s.txns[l.t].own, items)
    requires call == Some((s.txns[l.t].phase.user, s.txns[l.t].phase.entry))
    ensures RecordsAll(Do(h, s, l).txns[l.t].own,
                       items + [Item(l.t, call.value.0, call.value.1, l.id, l.timestamp)])
  {
    var x := s.txns[l.t];
    var row := NewRow(h, x.phase.user, x.phase.entry, x.phase.head, l.id, l.timestamp);
    assert Records(row, Item(l.t, call.value.0, call.value.1, l.id, l.timestamp));
    hide Records;
    RecordsConcat(x.own, items, [row], [Item(l.t, call.value.0, call.value.1, l.id, l.timestamp)]);
  }

  lemma StepSaysTable(h: Hashing, base: seq<Row>, labels: seq<Label>)
    requires labels != [] && Happened(h, base, labels)
    requires Says(h, base, labels[..|labels| - 1], Exec(h, Init(base), labels[..|labels| - 1]))
    ensures var s := Exec(h, Init(base), labels);
            && |base| <= |s.table| && s.table[..|base|] == base
            && RecordsAll(s.table[|base|..], Published(h, base, labels))
  {
    hide Exec, Records, Happened, NewRow, InsertedBy, CallOf;
    ExecLast(h, base, labels);
    var front, l := labels[..|labels| - 1], labels[|labels| - 1];
    var s := Exec(h, Init(base), front);
    if l.Commit? {
      assert TxnSays(h, base, front, s, l.t);
      var own := s.txns[l.t].own;
      RecordsConcat(s.table[|base|..], Published(h, base, front), own, InsertedBy(h, base, front, l.t));
      assert (s.table + own)[|base|..] == s.table[|base|..] + own;
    }
  }

  lemma {:induction false} RunSays(h: Hashing, base: seq<Row>, labels: seq<Label>)
    ensures Says(h, base, labels, Exec(h, Init(base), labels))
  {
    if labels == [] {
      assert base[|base|..] == [];
    } else {
      var front := labels[..|labels| - 1];
      RunSays(h, base, front);
      hide Enabled, Do, TxnSays, RecordsAll;
      ExecLast(h, base, labels);
      if Happened(h, base, labels) {
        StepSaysTable(h, base, labels);
        forall t: nat ensures TxnSays(h, base, labels, Exec(h, Init(base), labels), t) {
          StepSaysTxn(h, base, labels, t);
        }
      } else {
        StandsStill(h, base, labels);
      }
    }
  }

  lemma StandsStill(h: Hashing, base: seq<Row>, labels: seq<Label>)
    requires labels != [] && !Happened(h, base, labels)
    requires Says(h, base, labels[..|labels| - 1], Exec(h, Init(base), labels[..|labels| - 1]))
    ensures Says(h, base, labels, Exec(h, Init(base), labels))
  {
    hide Enabled, RecordsAll, CallOf, InsertedBy, Published;
    ExecLast(h, base, labels);
    var front := labels[..|labels| - 1];
    var s := Exec(h, Init(base), front);
    assert Exec(h, Init(base), labels) == s;
    hide Exec, Happened;
    forall t: nat ensures TxnSays(h, base, labels, s, t) {
      assert TxnSays(h, base, front, s, t);
      NothingHappened(h, base, labels, t);
    }
    NothingHappened(h, base, labels, 0);
  }

  // ---- the committed rows --------------------------------------------------------------------

  /** After every run the table is the base and then, row by row, what the committed transactions
      were called with, in commit order and each transaction's appends in call order. */
  lemma CommittedRowsAreTheAppends(h: Hashing, base: seq<Row>, labels: seq<Label>)
    ensures var table := Exec(h, Init(base), labels).table;
            && |base| <= |table| && table[..|base|] == base
            && RecordsAll(table[|base|..], Published(h, base, labels))
  {
    hide Exec, RecordsAll;
    RunSays(h, base, labels);
  }

  function ItemsOf(items: seq<Item>, user: string): seq<Item> {
    if items == [] then []
    else ItemsOf(items[..|items| - 1], user) + if items[|items| - 1].user == user then [items[|items| - 1]] else []
  }

  lemma {:induction false} RecordsOfUser(rows: seq<Row>, items: seq<Item>, user: string)
    requires RecordsAll(rows, items)
    ensures RecordsAll(OfUser(rows, user), ItemsOf(items, user))
  {
    if rows != [] {
      var n := |rows| - 1;
      assert Records(rows[n], items[n]);
      RecordsOfUser(rows[..n], items[..n], user);
    }
  }

  /** For each user: the legacy rows, and then exactly that user's committed appends. */
  lemma UserRowsAreTheAppends(h: Hashing, base: seq<Row>, labels: seq<Label>, user: string)
    requires LegacyBase(h, base)
    ensures var s := Exec(h, Init(base), labels);
            && |OfUser(s.base, user)| <= |OfUser(s.table, user)|
            && RecordsAll(Numbered(s, user), ItemsOf(Published(h, base, labels), user))
  {
    hide Exec, RecordsAll, Published, ItemsOf, OfUser;
    CommittedRowsAreTheAppends(h, base, labels);
    RunKeepsInv(h, base, labels);
    var s := Exec(h, Init(base), labels);
    var added := s.table[|base|..];
    assert s.table == base + added;
    OfUserAppend(base, added, user);
    RecordsOfUser(added, Published(h, base, labels), user);
    assert (OfUser(base, user) + OfUser(added, user))[|OfUser(base, user)|..] == OfUser(added, user);
  }

  // ---- all of a committed transaction, nothing of another one ------------------------------------

  function ByTxn(items: seq<Item>, t: nat): seq<Item> {
    if items == [] then []
    else ByTxn(items[..|items| - 1], t) + if items[|items| - 1].t == t then [items[|items| - 1]] else []
  }

  lemma {:induction false} ByTxnConcat(a: seq<Item>, b: seq<Item>, t: nat)
    ensures ByTxn(a + b, t) == ByTxn(a, t) + ByTxn(b, t)
    decreases |b|
  {
    if b == [] {
      assert a + b == a;
    } else {
      assert (a + b)[..|a + b| - 1] == a + b[..|b| - 1];
      ByTxnConcat(a, b[..|b| - 1], t);
    }
  }

  lemma {:induction false} InsertsAreOwn(h: Hashing, base: seq<Row>, labels: seq<Label>, t: nat, u: nat)
    ensures ByTxn(InsertedBy(h, base, labels, t), u) == if t == u then InsertedBy(h, base, labels, t) else []
  {
    hide Happened, CallOf;
    if labels != [] {
      var front := labels[..|labels| - 1];
      InsertsAreOwn(h, base, front, t, u);
      var before, after := InsertedBy(h, base, front, t), InsertedBy(h, base, labels, t);
      if |after| > |before| {
        assert after == before + [after[|before|]] && after[..|after| - 1] == before;
      }
    }
  }

  /** A transaction that committed or rolled back has ended, one way only. */
  lemma {:induction false} EndsOnce(h: Hashing, base: seq<Row>, labels: seq<Label>, t: nat)
    ensures CommittedIn(h, base, labels, t) || RolledBackIn(h, base, labels, t) ==>
              t < |Exec(h, Init(base), labels).txns| && Exec(h, Init(base), labels).txns[t].phase.Ended?
    ensures !(CommittedIn(h, base, labels, t) && RolledBackIn(h, base, labels, t))
  {
    if labels != [] {
      var front, l := labels[..|labels| - 1], labels[|labels| - 1];
      EndsOnce(h, base, front, t);
      ExecLast(h, base, labels);
      if Enabled(Exec(h, Init(base), front), l) {
        EndedStep(h, Exec(h, Init(base), front), l, t);
      }
      StandStill(h, Exec(h, Init(base), front), l);
      hide Exec, Happened, Enabled, Do;
    }
  }

  lemma EndedStep(h: Hashing, s: State, l: Label, t: nat)
    requires Enabled(s, l)
    ensures t < |s.txns| && s.txns[t].phase.Ended? ==>
              t < |Do(h, s, l).txns| && Do(h, s, l).txns[t].phase.Ended? && l != Commit(t) && l != Rollback(t)
    ensures l == Commit(t) || l == Rollback(t) ==> t < |Do(h, s, l).txns| && Do(h, s, l).txns[t].phase.Ended?
  {
    hide IsHead, NewRow, Visible;
  }

  lemma StandStill(h: Hashing, s: State, l: Label)
    ensures !Enabled(s, l) ==> Do(h, s, l) == s
  {
  }

  /** Everything a committed transaction inserted is published, and nothing of any other. */
  lemma {:induction false} AllOrNothing(h: Hashing, base: seq<Row>, labels: seq<Label>, t: nat)
    ensures ByTxn(Published(h, base, labels), t)
            == if CommittedIn(h, base, labels, t) then InsertedBy(h, base, labels, t) else []
    ensures RolledBackIn(h, base, labels, t) ==> ByTxn(Published(h, base, labels), t) == []
  {
    EndsOnce(h, base, labels, t);
    if labels != [] {
      var front, l := labels[..|labels| - 1], labels[|labels| - 1];
      AllOrNothing(h, base, front, t);
      EndsOnce(h, base, front, t);
      ExecLast(h, base, labels);
      NoInsertAfterEnd(h, base, labels, t);
      hide Exec, Happened, Enabled, InsertedBy, ByTxn;
      if l.Commit? && Happened(h, base, labels) {
        ByTxnConcat(Published(h, base, front), InsertedBy(h, base, front, l.t), t);
        InsertsAreOwn(h, base, front, l.t, t);
        CommitsOnce(h, base, labels);
      }
    }
  }

  lemma NoInsertAfterEnd(h: Hashing, base: seq<Row>, labels: seq<Label>, t: nat)
    requires labels != []
    ensures CommittedIn(h, base, labels, t) ==>
              InsertedBy(h, base, labels, t) == InsertedBy(h, base, labels[..|labels| - 1], t)
  {
    hide CallOf;
    EndsOnce(h, base, labels[..|labels| - 1], t);
    hide Exec;
    ExecLast(h, base, labels);
  }

  lemma CommitsOnce(h: Hashing, base: seq<Row>, labels: seq<Label>)
    requires labels != [] && labels[|labels| - 1].Commit? && Happened(h, base, labels)
    ensures !CommittedIn(h, base, labels[..|labels| - 1], labels[|labels| - 1].t)
  {
    EndsOnce(h, base, labels[..|labels| - 1], labels[|labels| - 1].t);
    ExecLast(h, base, labels);
  }
}
