/** What a clean verification proves about a log, and that what the writer commits verifies
    clean. */
module AuditEvidence {
  import opened Options
  import opened AuditRows
  import opened AuditWriter
  import opened AuditVerifier
  import opened AuditDecomposition

  // ---- the writer's log verifies clean ------------------------------------------

  /** The committed table after a run of the writer. */
  function Committed(h: Hashing, base: seq<Row>, labels: seq<Label>): seq<Row> {
    Exec(h, Init(base), labels).table
  }

  /** On a chain the legacy rows classify as legacy and the numbered ones as hmac. */
  lemma ChainClasses(h: Hashing, user: string, legacy: seq<Row>, rows: seq<Row>, i: nat)
    requires Ideal(h) && LegacyLinked(h, legacy) && Chain(h, user, legacy, rows) && i < |rows|
    ensures ClassifyRow(h, rows[i]) == if i < |legacy| then Legacy else Hmac
  {
    if i < |legacy| {
      assert rows[i] == legacy[i];
    } else {
      assert LinkAt(h, user, |legacy|, rows, i);
    }
  }

  lemma ChainIsLinked(h: Hashing, user: string, legacy: seq<Row>, rows: seq<Row>)
    requires Ideal(h) && LegacyLinked(h, legacy) && Chain(h, user, legacy, rows)
    ensures LinkedAndOrdered(h, rows, false)
  {
    forall i | 0 <= i < |rows|
      ensures ClassifyRow(h, rows[i]).Hmac? || ClassifyRow(h, rows[i]).Legacy?
      ensures i > 0 ==> rows[i].previousHash == Some(rows[i - 1].integrityHash)
      ensures rows[i].number == if i < |legacy| then None else Some(i - |legacy| + 1)
    {
      ChainClasses(h, user, legacy, rows, i);
      if i < |legacy| {
        assert rows[i] == legacy[i] && (i > 0 ==> rows[i - 1] == legacy[i - 1]);
      } else {
        assert LinkAt(h, user, |legacy|, rows, i);
      }
    }
  }

  /** `merged` holds each user's committed rows in that user's own order. */
  ghost predicate KeepsUserOrder(merged: seq<Row>, table: seq<Row>) {
    forall u :: OfUser(merged, u) == OfUser(table, u)
  }

  /** Every log the writer can commit, after any run and in any merged order that keeps each
      user's order, verifies clean, and its legacy count is the rows from before the upgrade. */
  lemma CleanVerification(h: Hashing, base: seq<Row>, labels: seq<Label>, merged: seq<Row>)
    requires Ideal(h) && LegacyBase(h, base)
    requires KeepsUserOrder(merged, Committed(h, base, labels))
    ensures AllFailures(h, merged, false) == []
    ensures FullReport(h, merged, false) == VerifyReport(|merged|, |merged|, 0, |base|, false, [])
  {
    var table := Committed(h, base, labels);
    RunKeepsInv(h, base, labels);
    forall u ensures CleanFor(h, merged, u, false) {
      var rows := OfUser(merged, u);
      assert rows == OfUser(table, u);
      OfUserMembers(merged, u);
      ChainIsLinked(h, u, OfUser(base, u), rows);
      CleanIffLinked(h, rows, u, false);
    }
    CleanIffEachUserClean(h, merged, false);
    OkIffNoFailures(h, merged, false);
    LegacyTotal(h, base, table, merged);
  }

  function UsersOf(rows: seq<Row>): (users: seq<string>)
    ensures Distinct(users) && Covers(users, rows)
  {
    if rows == [] then []
    else
      var n := |rows| - 1;
      var users := UsersOf(rows[..n]);
      assert forall r :: r in rows ==> r in rows[..n] || r == rows[n];
      if rows[n].userId in users then users else users + [rows[n].userId]
  }

  lemma {:induction false} ChainLegacyCount(h: Hashing, user: string, legacy: seq<Row>, rows: seq<Row>)
    requires Ideal(h) && LegacyLinked(h, legacy) && Chain(h, user, legacy, rows)
    ensures LegacyCount(h, rows) == Count(row => true, legacy)
  {
    var n := |rows| - 1;
    if n + 1 > |legacy| {
      ChainClasses(h, user, legacy, rows, n);
      forall i | |legacy| <= i < n ensures LinkAt(h, user, |legacy|, rows[..n], i) {
        assert LinkAt(h, user, |legacy|, rows, i);
      }
      assert legacy <= rows[..n];
      ChainLegacyCount(h, user, legacy, rows[..n]);
    } else if rows != [] {
      assert rows == legacy;
      ChainClasses(h, user, legacy, rows, n);
      forall i | 0 <= i < n ensures rows[..n][i] == rows[i] {}
      ChainLegacyCount(h, user, legacy[..n], rows[..n]);
    }
  }

  lemma {:induction false} SumsAgree(h: Hashing, base: seq<Row>, merged: seq<Row>, users: seq<string>)
    requires forall u :: LegacyCount(h, OfUser(merged, u)) == Count(row => true, OfUser(base, u))
    ensures SumCount(row => ClassifyRow(h, row).Legacy?, merged, users) == SumCount(row => true, base, users)
  {
    if users != [] {
      SumsAgree(h, base, merged, users[..|users| - 1]);
      assert LegacyCount(h, OfUser(merged, users[|users| - 1])) == Count(row => true, OfUser(base, users[|users| - 1]));
    }
  }

  lemma {:induction false} CountAll(rows: seq<Row>)
    ensures Count(row => true, rows) == |rows|
  {
    if rows != [] {
      CountAll(rows[..|rows| - 1]);
    }
  }

  lemma LegacyTotal(h: Hashing, base: seq<Row>, table: seq<Row>, merged: seq<Row>)
    requires Ideal(h) && LegacyBase(h, base) && KeepsUserOrder(merged, table)
    requires forall u :: Chain(h, u, OfUser(base, u), OfUser(table, u))
    ensures LegacyCount(h, merged) == |base|
  {
    var users := UsersOf(merged + base);
    forall u ensures LegacyCount(h, OfUser(merged, u)) == Count(row => true, OfUser(base, u)) {
      assert OfUser(merged, u) == OfUser(table, u);
      ChainLegacyCount(h, u, OfUser(base, u), OfUser(table, u));
    }
    SumsAgree(h, base, merged, users);
    CountsAddUp(row => ClassifyRow(h, row).Legacy?, merged, users);
    CountsAddUp(row => true, base, users);
    CountAll(base);
  }

  // ---- the order the command line asks for --------------------------------------

  /** `a` may precede `b` under ORDER BY seq ASC NULLS FIRST, timestamp ASC. */
  predicate WalkOrder(a: Row, b: Row) {
    match (a.number, b.number)
    case (Some(m), Some(n)) => m < n || (m == n && a.timestamp <= b.timestamp)
    case (None, Some(_)) => true
    case (Some(_), None) => false
    case (None, None) => a.timestamp <= b.timestamp
  }

  ghost predicate Sorted(rows: seq<Row>) {
    forall i, j :: 0 <= i < j < |rows| ==> WalkOrder(rows[i], rows[j])
  }

  ghost predicate StrictlySorted(rows: seq<Row>) {
    forall i, j :: 0 <= i < j < |rows| ==> !WalkOrder(rows[j], rows[i])
  }

  lemma SameLast(x: seq<Row>, y: seq<Row>)
    requires multiset(x) == multiset(y) && StrictlySorted(x) && Sorted(y) && |x| == |y| > 0
    ensures x[|x| - 1] == y[|y| - 1]
  {
    var n := |y| - 1;
    assert y[n] in multiset(x) && x[n] in multiset(y);
    var i :| 0 <= i < |x| && x[i] == y[n];
    var j :| 0 <= j < |y| && y[j] == x[n];
  }

  lemma WithoutLast(x: seq<Row>)
    requires x != []
    ensures x == x[..|x| - 1] + [x[|x| - 1]]
    ensures multiset(x[..|x| - 1]) == multiset(x) - multiset{x[|x| - 1]}
  {
    assert x == x[..|x| - 1] + [x[|x| - 1]];
  }

  /** Sorting rows that no tie can reorder has one result. */
  lemma {:induction false} OneSortedOrder(x: seq<Row>, y: seq<Row>)
    requires multiset(x) == multiset(y) && StrictlySorted(x) && Sorted(y)
    ensures x == y
    decreases |x|
  {
    hide WalkOrder;
    assert |x| == |multiset(x)| == |multiset(y)| == |y|;
    if x != [] {
      SameLast(x, y);
      WithoutLast(x);
      WithoutLast(y);
      OneSortedOrder(x[..|x| - 1], y[..|y| - 1]);
    }
  }

  lemma {:induction false} OfUserSorted(rows: seq<Row>, user: string)
    requires Sorted(rows)
    ensures Sorted(OfUser(rows, user))
  {
    if rows != [] {
      OfUserSorted(rows[..|rows| - 1], user);
      OfUserMembers(rows[..|rows| - 1], user);
    }
  }

  lemma {:induction false} OfUserMultiset(rows: seq<Row>, user: string, row: Row)
    ensures multiset(OfUser(rows, user))[row] == if row.userId == user then multiset(rows)[row] else 0
  {
    if rows != [] {
      var n := |rows| - 1;
      OfUserMultiset(rows[..n], user, row);
      assert rows == rows[..n] + [rows[n]];
      OfUserSplit(rows, user);
    }
  }

  lemma ChainStrictlySorted(h: Hashing, user: string, legacy: seq<Row>, rows: seq<Row>)
    requires LegacyLinked(h, legacy) && Chain(h, user, legacy, rows)
    ensures StrictlySorted(rows)
  {
    forall i, j | 0 <= i < j < |rows| ensures !WalkOrder(rows[j], rows[i]) {
      if j < |legacy| {
        TimestampsIncrease(h, legacy, i, j);
      } else if i < |legacy| {
        assert rows[i] == legacy[i] && LinkAt(h, user, |legacy|, rows, j);
      } else {
        assert LinkAt(h, user, |legacy|, rows, i) && LinkAt(h, user, |legacy|, rows, j);
      }
    }
  }

  /** The query of the command line, over all users at once, keeps each user's order; so its
      walk reports clean however the database breaks ties between users. */
  lemma QueryOrderIsClean(h: Hashing, base: seq<Row>, labels: seq<Label>, rows: seq<Row>)
    requires Ideal(h) && LegacyBase(h, base)
    requires Sorted(rows) && multiset(rows) == multiset(Committed(h, base, labels))
    ensures KeepsUserOrder(rows, Committed(h, base, labels))
    ensures FullReport(h, rows, false) == VerifyReport(|rows|, |rows|, 0, |base|, false, [])
  {
    var table := Committed(h, base, labels);
    RunKeepsInv(h, base, labels);
    forall u ensures OfUser(rows, u) == OfUser(table, u) {
      ChainStrictlySorted(h, u, OfUser(base, u), OfUser(table, u));
      OfUserSorted(rows, u);
      forall row ensures multiset(OfUser(table, u))[row] == multiset(OfUser(rows, u))[row] {
        OfUserMultiset(rows, u, row);
        OfUserMultiset(table, u, row);
      }
      OneSortedOrder(OfUser(table, u), OfUser(rows, u));
    }
    CleanVerification(h, base, labels, rows);
  }

  // ---- tamper evidence ----------------------------------------------------------

  /** Everything the hash covers, and the hash itself, are the same. */
  predicate Same(a: Row, b: Row) {
    PayloadOf(a) == PayloadOf(b) && a.integrityHash == b.integrityHash
  }

  /** `rows` is `chain[from..from + |rows|]` up to what no hash covers. */
  ghost predicate RunFrom(rows: seq<Row>, chain: seq<Row>, from: nat) {
    && from + |rows| <= |chain|
    && forall i :: 0 <= i < |rows| ==> Same(rows[i], chain[from + i])
  }

  ghost predicate ContiguousRun(rows: seq<Row>, chain: seq<Row>) {
    exists from: nat :: RunFrom(rows, chain, from)
  }

  /** The writer committed a row with this hash. */
  ghost predicate IsCommitted(r: Row, table: seq<Row>) {
    exists x :: x in table && x.number.Some? && x.integrityHash == r.integrityHash
  }

  /** No row carries a keyed hash the writer did not commit. */
  ghost predicate NothingForged(h: Hashing, rows: seq<Row>, table: seq<Row>) {
    forall r :: r in rows && Keyed(h, r) ==> IsCommitted(r, table)
  }

  lemma LegacyUnnumbered(h: Hashing, user: string, legacy: seq<Row>, chain: seq<Row>, i: nat)
    requires LegacyLinked(h, legacy) && Chain(h, user, legacy, chain) && i < |chain|
    ensures i < |legacy| <==> chain[i].number.None?
  {
    if i < |legacy| {
      assert chain[i] == legacy[i];
    } else {
      assert LinkAt(h, user, |legacy|, chain, i);
    }
  }

  /** The keyed row with this hash sits in its user's chain. */
  lemma FindIssued(h: Hashing, s: State, r: Row) returns (i: nat)
    requires Ideal(h) && Inv(h, s)
    requires Keyed(h, r) && IsCommitted(r, s.table)
    ensures |OfUser(s.base, r.userId)| <= i < |OfUser(s.table, r.userId)|
    ensures Same(r, OfUser(s.table, r.userId)[i])
  {
    var x :| x in s.table && x.number.Some? && x.integrityHash == r.integrityHash;
    var legacy, chain := OfUser(s.base, x.userId), OfUser(s.table, x.userId);
    OfUserMembers(s.table, x.userId);
    i :| 0 <= i < |chain| && chain[i] == x;
    assert Chain(h, x.userId, legacy, chain) && LegacyLinked(h, legacy);
    LegacyUnnumbered(h, x.userId, legacy, chain, i);
    assert LinkAt(h, x.userId, |legacy|, chain, i);
    assert PayloadOf(x) == PayloadOf(r);
  }

  /** One link pins the successor: a row whose previous_hash is the hash of position `i` can
      only be position `i + 1`. */
  lemma SuccessorIsNext(h: Hashing, user: string, legacy: seq<Row>, chain: seq<Row>, i: nat, j: nat)
    requires Ideal(h) && LegacyLinked(h, legacy) && Chain(h, user, legacy, chain)
    requires |legacy| <= i < |chain| && |legacy| <= j < |chain|
    ensures chain[j].previousHash == Some(chain[i].integrityHash) <==> j == i + 1
  {
    assert LinkAt(h, user, |legacy|, chain, j) && LinkAt(h, user, |legacy|, chain, i);
    if j == |legacy| {
      assert j > 0 ==> chain[j - 1] == legacy[j - 1];
    } else if j - 1 < i {
      HashesNeverRepeat(h, user, legacy, chain, j - 1, i);
    } else if i < j - 1 {
      HashesNeverRepeat(h, user, legacy, chain, i, j - 1);
    }
  }

  lemma LinkedPrefix(h: Hashing, rows: seq<Row>, requireHmac: bool)
    requires rows != [] && LinkedAndOrdered(h, rows, requireHmac)
    ensures LinkedAndOrdered(h, rows[..|rows| - 1], requireHmac)
  {
  }

  /** The last row of a linked list names the row before it. */
  lemma LastLink(h: Hashing, rows: seq<Row>)
    requires |rows| > 1 && LinkedAndOrdered(h, rows, true)
    ensures var n := |rows| - 1;
            PayloadOf(rows[n]).previousHash == rows[n].previousHash == Some(rows[n - 1].integrityHash)
  {
  }

  lemma RunGrows(rows: seq<Row>, chain: seq<Row>, from: nat, j: nat)
    requires rows != [] && RunFrom(rows[..|rows| - 1], chain, from) && j == from + |rows| - 1 < |chain|
    requires Same(rows[|rows| - 1], chain[j])
    ensures RunFrom(rows, chain, from)
  {
    var n := |rows| - 1;
    forall i | 0 <= i <= n ensures Same(rows[i], chain[from + i]) {
      if i < n { assert Same(rows[..n][i], chain[from + i]); }
    }
  }

  lemma {:induction false} LinkedIsRun(h: Hashing, s: State, user: string, rows: seq<Row>) returns (from: nat)
    requires Ideal(h) && Inv(h, s) && NothingForged(h, rows, s.table)
    requires forall r :: r in rows ==> r.userId == user
    requires LinkedAndOrdered(h, rows, true)
    requires rows != []
    ensures |OfUser(s.base, user)| <= from && RunFrom(rows, OfUser(s.table, user), from)
  {
    var n := |rows| - 1;
    assert rows[n] in rows && ClassifyRow(h, rows[n]).Hmac?;
    var j := FindIssued(h, s, rows[n]);
    if n == 0 {
      from := j;
    } else {
      LinkedPrefix(h, rows, true);
      from := LinkedIsRun(h, s, user, rows[..n]);
      LinkedIsRunStep(h, s, user, rows, from, j);
    }
  }

  lemma LinkedIsRunStep(h: Hashing, s: State, user: string, rows: seq<Row>, from: nat, j: nat)
    requires Ideal(h) && Inv(h, s) && |rows| > 1 && LinkedAndOrdered(h, rows, true)
    requires |OfUser(s.base, user)| <= from && RunFrom(rows[..|rows| - 1], OfUser(s.table, user), from)
    requires |OfUser(s.base, user)| <= j < |OfUser(s.table, user)|
    requires Same(rows[|rows| - 1], OfUser(s.table, user)[j])
    ensures RunFrom(rows, OfUser(s.table, user), from)
  {
    var n := |rows| - 1;
    var chain := OfUser(s.table, user);
    LastLink(h, rows);
    assert Same(rows[..n][n - 1], chain[from + (n - 1)]);
    assert chain[j].previousHash == PayloadOf(chain[j]).previousHash;
    SuccessorIsNext(h, user, OfUser(s.base, user), chain, from + (n - 1), j);
    RunGrows(rows, chain, from, j);
  }

  lemma RunIsLinked(h: Hashing, user: string, legacy: seq<Row>, chain: seq<Row>, rows: seq<Row>, from: nat)
    requires LegacyLinked(h, legacy) && Chain(h, user, legacy, chain)
    requires |legacy| <= from && RunFrom(rows, chain, from) && SeqsIncrease(rows)
    ensures LinkedAndOrdered(h, rows, true)
  {
    forall i | 0 <= i < |rows|
      ensures ClassifyRow(h, rows[i]).Hmac?
      ensures i > 0 ==> rows[i].previousHash == Some(rows[i - 1].integrityHash)
    {
      assert Same(rows[i], chain[from + i]) && LinkAt(h, user, |legacy|, chain, from + i);
      assert rows[i].previousHash == PayloadOf(rows[i]).previousHash;
      if i > 0 { assert Same(rows[i - 1], chain[from + i - 1]); }
    }
  }

  /** Tamper evidence. Whatever was done to ids, timestamps, seqs and order, and whatever was
      deleted, copied or moved: rows without forged keyed hashes pass under require_hmac if
      and only if each user's rows are one contiguous run of what the writer committed for
      that user since the upgrade, in committed order, with seqs (where present) increasing. */
  lemma TamperEvidence(h: Hashing, base: seq<Row>, labels: seq<Label>, rows: seq<Row>)
    requires Ideal(h) && LegacyBase(h, base)
    requires NothingForged(h, rows, Committed(h, base, labels))
    ensures FullReport(h, rows, true).Ok() <==>
            forall u :: var s := Exec(h, Init(base), labels);
                        |OfUser(s.base, u)| <= |OfUser(s.table, u)|
                        && ContiguousRun(OfUser(rows, u), Numbered(s, u)) && SeqsIncrease(OfUser(rows, u))
  {
    RunKeepsInv(h, base, labels);
    var s := Exec(h, Init(base), labels);
    OkIffNoFailures(h, rows, true);
    CleanIffEachUserClean(h, rows, true);
    forall u
      ensures |OfUser(s.base, u)| <= |OfUser(s.table, u)|
      ensures CleanFor(h, rows, u, true) <==>
              ContiguousRun(OfUser(rows, u), Numbered(s, u)) && SeqsIncrease(OfUser(rows, u))
    {
      TamperEvidenceFor(h, s, rows, u);
    }
  }

  lemma TamperEvidenceFor(h: Hashing, s: State, rows: seq<Row>, u: string)
    requires Ideal(h) && Inv(h, s) && NothingForged(h, rows, s.table)
    ensures |OfUser(s.base, u)| <= |OfUser(s.table, u)|
    ensures CleanFor(h, rows, u, true) <==>
            ContiguousRun(OfUser(rows, u), Numbered(s, u)) && SeqsIncrease(OfUser(rows, u))
  {
    var own := OfUser(rows, u);
    OfUserMembers(rows, u);
    CleanIffLinked(h, own, u, true);
    assert Chain(h, u, OfUser(s.base, u), OfUser(s.table, u));
    if LinkedAndOrdered(h, own, true) {
      CleanIsRun(h, s, own, u);
    }
    if ContiguousRun(own, Numbered(s, u)) && SeqsIncrease(own) {
      var from: nat :| RunFrom(own, Numbered(s, u), from);
      RunShift(s, u, own, from);
      RunIsLinked(h, u, OfUser(s.base, u), OfUser(s.table, u), own, |OfUser(s.base, u)| + from);
    }
  }

  lemma RunShift(s: State, u: string, own: seq<Row>, from: nat)
    requires |OfUser(s.base, u)| <= |OfUser(s.table, u)|
    ensures RunFrom(own, Numbered(s, u), from) <==> RunFrom(own, OfUser(s.table, u), |OfUser(s.base, u)| + from)
  {
    var k, chain := |OfUser(s.base, u)|, OfUser(s.table, u);
    var numbered := Numbered(s, u);
    assert numbered == chain[k..];
    if RunFrom(own, numbered, from) {
      forall i | 0 <= i < |own| ensures Same(own[i], chain[k + from + i]) {
        assert Same(own[i], numbered[from + i]);
      }
    }
    if RunFrom(own, chain, k + from) {
      forall i | 0 <= i < |own| ensures Same(own[i], numbered[from + i]) {
        assert Same(own[i], chain[k + from + i]);
      }
    }
  }

  lemma CleanIsRun(h: Hashing, s: State, own: seq<Row>, u: string)
    requires Ideal(h) && Inv(h, s) && NothingForged(h, own, s.table)
    requires forall r :: r in own ==> r.userId == u
    requires LinkedAndOrdered(h, own, true)
    requires |OfUser(s.base, u)| <= |OfUser(s.table, u)|
    ensures ContiguousRun(own, Numbered(s, u)) && SeqsIncrease(own)
  {
    if own == [] {
      assert RunFrom(own, Numbered(s, u), 0);
    } else {
      var from := LinkedIsRun(h, s, u, own);
      RunShift(s, u, own, from - |OfUser(s.base, u)|);
    }
  }

  // ---- rows that were never committed -------------------------------------------

  /** What comes before a committed row in a linked list was committed too. */
  lemma PredecessorCommitted(h: Hashing, s: State, user: string, rows: seq<Row>, i: nat)
    requires Ideal(h) && Inv(h, s) && LinkedAndOrdered(h, rows, true)
    requires forall r :: r in rows ==> r.userId == user
    requires 0 < i < |rows| && IsCommitted(rows[i], s.table)
    ensures IsCommitted(rows[i - 1], s.table)
  {
    hide SeqsIncrease;
    assert rows[i] in rows && ClassifyRow(h, rows[i]).Hmac? && ClassifyRow(h, rows[i - 1]).Hmac?;
    var j := FindIssued(h, s, rows[i]);
    var legacy, chain := OfUser(s.base, user), OfUser(s.table, user);
    assert Chain(h, user, legacy, chain) && LegacyLinked(h, legacy);
    assert LinkAt(h, user, |legacy|, chain, j);
    assert PayloadOf(rows[i]).previousHash == PayloadOf(chain[j]).previousHash;
    assert rows[i].previousHash == Some(rows[i - 1].integrityHash);
    if j - 1 < |legacy| {
      assert false;
    }
    LegacyUnnumbered(h, user, legacy, chain, j - 1);
    OfUserMembers(s.table, user);
    assert chain[j - 1] in s.table;
  }

  lemma {:induction false} CommittedPrefix(h: Hashing, s: State, user: string, rows: seq<Row>) returns (n: nat)
    requires Ideal(h) && Inv(h, s) && LinkedAndOrdered(h, rows, true)
    requires forall r :: r in rows ==> r.userId == user
    ensures n <= |rows|
    ensures forall i :: 0 <= i < |rows| ==> (IsCommitted(rows[i], s.table) <==> i < n)
  {
    hide IsCommitted, Inv, Ideal;
    if rows == [] {
      n := 0;
    } else {
      var last := |rows| - 1;
      LinkedPrefix(h, rows, true);
      n := CommittedPrefix(h, s, user, rows[..last]);
      assert forall i :: 0 <= i < last ==> rows[..last][i] == rows[i];
      if IsCommitted(rows[last], s.table) {
        if last > 0 {
          PredecessorCommitted(h, s, user, rows, last);
        }
        n := |rows|;
      }
    }
  }

  /** Rows nobody committed (rolled back after they were issued, or forged) can only follow the
      committed ones: whatever passes under require_hmac is, for each user, a contiguous run of
      the committed chain and then rows that were never committed. */
  lemma CommittedRowsComeFirst(h: Hashing, base: seq<Row>, labels: seq<Label>, rows: seq<Row>, user: string)
    requires Ideal(h) && LegacyBase(h, base) && FullReport(h, rows, true).Ok()
    ensures var s := Exec(h, Init(base), labels);
            |OfUser(s.base, user)| <= |OfUser(s.table, user)|
            && CommittedFirst(OfUser(rows, user), Numbered(s, user), s.table)
  {
    hide FullReport, LegacyBase, LinkedAndOrdered;
    RunKeepsInv(h, base, labels);
    var s := Exec(h, Init(base), labels);
    var own := OfUser(rows, user);
    OkIffNoFailures(h, rows, true);
    CleanIffEachUserClean(h, rows, true);
    assert CleanFor(h, rows, user, true);
    OfUserMembers(rows, user);
    CleanIffLinked(h, own, user, true);
    assert Chain(h, user, OfUser(s.base, user), OfUser(s.table, user));
    LinkedCommittedFirst(h, s, own, user);
  }

  lemma LinkedCommittedFirst(h: Hashing, s: State, own: seq<Row>, user: string)
    requires Ideal(h) && Inv(h, s) && LinkedAndOrdered(h, own, true)
    requires forall r :: r in own ==> r.userId == user
    requires |OfUser(s.base, user)| <= |OfUser(s.table, user)|
    ensures CommittedFirst(own, Numbered(s, user), s.table)
  {
    hide Ideal, Inv, LinkedAndOrdered;
    var n := CommittedPrefix(h, s, user, own);
    LinkedFront(h, own, n);
    PrefixIsRun(h, s, own, n, user);
    assert CommittedThenNot(own, Numbered(s, user), s.table, n);
  }

  ghost predicate CommittedFirst(own: seq<Row>, chain: seq<Row>, table: seq<Row>) {
    exists n: nat :: CommittedThenNot(own, chain, table, n)
  }

  ghost predicate CommittedThenNot(own: seq<Row>, chain: seq<Row>, table: seq<Row>, n: nat) {
    && n <= |own| && ContiguousRun(own[..n], chain)
    && forall i :: n <= i < |own| ==> !IsCommitted(own[i], table)
  }

  lemma LinkedFront(h: Hashing, rows: seq<Row>, n: nat)
    requires n <= |rows| && LinkedAndOrdered(h, rows, true)
    ensures LinkedAndOrdered(h, rows[..n], true)
  {
  }

  lemma PrefixIsRun(h: Hashing, s: State, own: seq<Row>, n: nat, user: string)
    requires Ideal(h) && Inv(h, s) && n <= |own| && LinkedAndOrdered(h, own[..n], true)
    requires forall r :: r in own ==> r.userId == user
    requires forall i :: 0 <= i < n ==> IsCommitted(own[i], s.table)
    requires |OfUser(s.base, user)| <= |OfUser(s.table, user)|
    ensures ContiguousRun(own[..n], Numbered(s, user))
  {
    hide Ideal, Inv, LinkedAndOrdered;
    forall r | r in own[..n] ensures IsCommitted(r, s.table) {
      var i :| 0 <= i < n && own[i] == r;
    }
    CleanIsRun(h, s, own[..n], user);
  }

  // ---- anchored history ---------------------------------------------------------

  /** Two single-user logs that verify clean under require_hmac and end in the same hash
      agree row by row going back; if both start a chain they have the same length. The last
      hash alone therefore fixes everything before it. */
  lemma {:induction false} AnchoredHistory(h: Hashing, a: seq<Row>, b: seq<Row>, user: string, user': string)
    requires Ideal(h)
    requires (forall r :: r in a ==> r.userId == user) && (forall r :: r in b ==> r.userId == user')
    requires a != [] && b != [] && |a| <= |b|
    requires AllFailures(h, a, true) == [] && AllFailures(h, b, true) == []
    requires a[|a| - 1].integrityHash == b[|b| - 1].integrityHash
    ensures RunFrom(a, b, |b| - |a|)
    ensures a[0].previousHash == None ==> |a| == |b|
  {
    CleanIffLinked(h, a, user, true);
    CleanIffLinked(h, b, user', true);
    LinkedHistories(h, a, b);
  }

  lemma {:induction false} LinkedHistories(h: Hashing, a: seq<Row>, b: seq<Row>)
    requires Ideal(h) && a != [] && b != [] && |a| <= |b|
    requires LinkedAndOrdered(h, a, true) && LinkedAndOrdered(h, b, true)
    requires a[|a| - 1].integrityHash == b[|b| - 1].integrityHash
    ensures RunFrom(a, b, |b| - |a|)
    ensures a[0].previousHash == None ==> |a| == |b|
  {
    hide LinkedAndOrdered, Ideal;
    var m, n := |a| - 1, |b| - 1;
    SameEnds(h, a, b);
    if n > 0 { LastLink(h, b); }
    if m > 0 {
      LastLink(h, a);
      LinkedPrefix(h, a, true);
      LinkedPrefix(h, b, true);
      LinkedHistories(h, a[..m], b[..n]);
      RunToLast(a, b);
    }
  }

  lemma SameEnds(h: Hashing, a: seq<Row>, b: seq<Row>)
    requires Ideal(h) && a != [] && b != [] && a[|a| - 1].integrityHash == b[|b| - 1].integrityHash
    requires LinkedAndOrdered(h, a, true) && LinkedAndOrdered(h, b, true)
    ensures Same(a[|a| - 1], b[|b| - 1]) && a[|a| - 1].previousHash == b[|b| - 1].previousHash
  {
    var x, y := a[|a| - 1], b[|b| - 1];
    assert ClassifyRow(h, x).Hmac? && ClassifyRow(h, y).Hmac?;
    assert PayloadOf(x).previousHash == x.previousHash && PayloadOf(y).previousHash == y.previousHash;
  }

  lemma RunToLast(a: seq<Row>, b: seq<Row>)
    requires 0 < |a| <= |b| && RunFrom(a[..|a| - 1], b[..|b| - 1], |b| - |a|)
    requires Same(a[|a| - 1], b[|b| - 1])
    ensures RunFrom(a, b, |b| - |a|)
  {
    var m, n := |a| - 1, |b| - 1;
    forall i | 0 <= i <= m ensures Same(a[i], b[n - m + i]) {
      if i < m { assert Same(a[..m][i], b[..n][n - m + i]); }
    }
  }
}
