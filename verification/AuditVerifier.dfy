/** The chain walk of scripts/verify_audit_log.py.

    The reference definition says, row by row, what the walk reports about a row given the
    earlier rows of the same user; VerifyRows is the loop over two per-user dictionaries. */
module AuditVerifier {
  import opened Options
  import opened AuditRows

  datatype Scheme = Hmac | Legacy | Invalid

  datatype Kind = RowHash | ChainLink | SeqOrder | UnkeyedHash

  datatype RowFailure = RowFailure(
    id: string,
    timestamp: int,
    connectorName: string,
    action: string,
    kind: Kind,
    storedHash: Hash,
    expectedHash: Hash,
    storedPreviousHash: Option<Hash>,
    expectedPreviousHash: Option<Hash>,
    storedSeq: Option<int>,
    previousSeq: Option<int>)

  datatype VerifyReport = VerifyReport(
    total: int,
    valid: int,
    invalid: int,
    legacy: int,
    requireHmac: bool,
    failures: seq<RowFailure>)
  {
    predicate Ok() { invalid == 0 }
  }

  /** How a row's stored hash is explained; the unkeyed digest only for rows without a seq. */
  function ClassifyRow(h: Hashing, row: Row): Scheme {
    var payload := PayloadOf(row);
    if row.integrityHash == h.keyed(payload) then Hmac
    else if row.number.None? && row.integrityHash == h.unkeyed(payload) then Legacy
    else Invalid
  }

  function RowHashFailure(h: Hashing, row: Row): RowFailure {
    RowFailure(row.id, row.timestamp, row.connectorName, row.action, RowHash, row.integrityHash,
               h.keyed(PayloadOf(row)), None, None, None, None)
  }

  function ChainFailure(row: Row, expectedPrevious: Hash): RowFailure {
    RowFailure(row.id, row.timestamp, row.connectorName, row.action, ChainLink, row.integrityHash,
               row.integrityHash, row.previousHash, Some(expectedPrevious), None, None)
  }

  function SeqFailure(row: Row, previousSeq: int): RowFailure {
    RowFailure(row.id, row.timestamp, row.connectorName, row.action, SeqOrder, row.integrityHash,
               row.integrityHash, None, None, row.number, Some(previousSeq))
  }

  function UnkeyedFailure(h: Hashing, row: Row): RowFailure {
    RowFailure(row.id, row.timestamp, row.connectorName, row.action, UnkeyedHash, row.integrityHash,
               h.keyed(PayloadOf(row)), None, None, row.number, None)
  }

  // ---- reference definition -----------------------------------------------------

  /** The last seq assigned among `rows`. */
  function LastSeq(rows: seq<Row>): Option<int> {
    if rows == [] then None
    else if rows[|rows| - 1].number.Some? then rows[|rows| - 1].number
    else LastSeq(rows[..|rows| - 1])
  }

  predicate BrokenLink(earlier: seq<Row>, row: Row) {
    earlier != [] && row.previousHash != Some(earlier[|earlier| - 1].integrityHash)
  }

  predicate BrokenSeq(earlier: seq<Row>, row: Row) {
    row.number.Some? && LastSeq(earlier).Some? && row.number.value <= LastSeq(earlier).value
  }

  /** What the walk reports about `row`, given the earlier rows of its user. */
  function FailuresAt(h: Hashing, earlier: seq<Row>, row: Row, requireHmac: bool): seq<RowFailure> {
    (if requireHmac && ClassifyRow(h, row).Legacy? then [UnkeyedFailure(h, row)] else [])
    + KeyedFailuresAt(h, earlier, row)
  }

  function KeyedFailuresAt(h: Hashing, earlier: seq<Row>, row: Row): seq<RowFailure> {
    (if BrokenLink(earlier, row) then [ChainFailure(row, earlier[|earlier| - 1].integrityHash)] else [])
    + (if BrokenSeq(earlier, row) then [SeqFailure(row, LastSeq(earlier).value)] else [])
    + (if ClassifyRow(h, row).Invalid? then [RowHashFailure(h, row)] else [])
  }

  predicate Bad(h: Hashing, rows: seq<Row>, i: nat, requireHmac: bool)
    requires i < |rows|
  {
    FailuresAt(h, OfUser(rows[..i], rows[i].userId), rows[i], requireHmac) != []
  }

  function AllFailures(h: Hashing, rows: seq<Row>, requireHmac: bool): seq<RowFailure> {
    if rows == [] then []
    else
      var n := |rows| - 1;
      AllFailures(h, rows[..n], requireHmac)
      + FailuresAt(h, OfUser(rows[..n], rows[n].userId), rows[n], requireHmac)
  }

  function BadIds(h: Hashing, rows: seq<Row>, requireHmac: bool): set<string> {
    if rows == [] then {}
    else
      var n := |rows| - 1;
      BadIds(h, rows[..n], requireHmac) + if Bad(h, rows, n, requireHmac) then {rows[n].id} else {}
  }

  function Count(p: Row -> bool, rows: seq<Row>): nat {
    if rows == [] then 0
    else Count(p, rows[..|rows| - 1]) + if p(rows[|rows| - 1]) then 1 else 0
  }

  function LegacyCount(h: Hashing, rows: seq<Row>): nat {
    Count(row => ClassifyRow(h, row).Legacy?, rows)
  }

  function FullReport(h: Hashing, rows: seq<Row>, requireHmac: bool): VerifyReport {
    var invalid := |BadIds(h, rows, requireHmac)|;
    VerifyReport(|rows|, |rows| - invalid, invalid, LegacyCount(h, rows), requireHmac,
                 AllFailures(h, rows, requireHmac))
  }

  /** `n` is where a walk of `rows` stops: at the end, or under fail_fast just past the
      first bad row. */
  predicate StopsAt(h: Hashing, rows: seq<Row>, failFast: bool, requireHmac: bool, n: nat) {
    && n <= |rows|
    && (n < |rows| ==> failFast && n > 0 && Bad(h, rows, n - 1, requireHmac))
    && (failFast && n > 0 ==> NoneBad(h, rows, n - 1, requireHmac))
  }

  predicate NoneBad(h: Hashing, rows: seq<Row>, n: nat, requireHmac: bool)
    requires n <= |rows|
  {
    forall i :: 0 <= i < n ==> !Bad(h, rows, i, requireHmac)
  }

  // ---- the loop -----------------------------------------------------------------

  lemma BadIdsSnoc(h: Hashing, rows: seq<Row>, i: nat, requireHmac: bool)
    requires i < |rows|
    ensures BadIds(h, rows[..i + 1], requireHmac)
         == BadIds(h, rows[..i], requireHmac) + if Bad(h, rows, i, requireHmac) then {rows[i].id} else {}
  {
    assert rows[..i + 1][..i] == rows[..i];
  }

  lemma OfUserSnoc(rows: seq<Row>, i: nat, user: string)
    requires i < |rows|
    ensures OfUser(rows[..i + 1], user) ==
            if rows[i].userId == user then OfUser(rows[..i], user) + [rows[i]] else OfUser(rows[..i], user)
  {
    assert rows[..i + 1][..i] == rows[..i];
  }

  lemma AllFailuresSnoc(h: Hashing, rows: seq<Row>, i: nat, requireHmac: bool)
    requires i < |rows|
    ensures AllFailures(h, rows[..i + 1], requireHmac)
         == AllFailures(h, rows[..i], requireHmac)
            + FailuresAt(h, OfUser(rows[..i], rows[i].userId), rows[i], requireHmac)
    ensures LegacyCount(h, rows[..i + 1])
         == LegacyCount(h, rows[..i]) + if ClassifyRow(h, rows[i]).Legacy? then 1 else 0
  {
    assert rows[..i + 1][..i] == rows[..i];
  }

  /** What the two dictionaries hold for one user: the last hash and the last seq seen. */
  ghost predicate TracksUser(lastHash: map<string, Hash>, lastSeq: map<string, int>, seen: seq<Row>, u: string) {
    var rows := OfUser(seen, u);
    && (u in lastHash <==> rows != [])
    && (rows != [] ==> lastHash[u] == rows[|rows| - 1].integrityHash)
    && LastSeq(rows) == if u in lastSeq then Some(lastSeq[u]) else None
  }

  /** What the loop's variables hold after processing `seen`. */
  ghost predicate Walked(h: Hashing, seen: seq<Row>, requireHmac: bool, failures: seq<RowFailure>,
                         bad: set<string>, legacy: int, lastHash: map<string, Hash>, lastSeq: map<string, int>)
  {
    && failures == AllFailures(h, seen, requireHmac)
    && bad == BadIds(h, seen, requireHmac)
    && legacy == LegacyCount(h, seen)
    && forall u :: TracksUser(lastHash, lastSeq, seen, u)
  }

  lemma LastSeqSnoc(rows: seq<Row>, row: Row)
    ensures LastSeq(rows + [row]) == if row.number.Some? then row.number else LastSeq(rows)
  {
    assert (rows + [row])[..|rows + [row]| - 1] == rows;
  }

  /** The dictionaries after `row`. */
  function NextHashes(lastHash: map<string, Hash>, row: Row): map<string, Hash> {
    lastHash[row.userId := row.integrityHash]
  }

  function NextSeqs(lastSeq: map<string, int>, row: Row): map<string, int> {
    if row.number.Some? then lastSeq[row.userId := row.number.value] else lastSeq
  }

  lemma TracksStep(lastHash: map<string, Hash>, lastSeq: map<string, int>, rows: seq<Row>, i: nat, u: string)
    requires i < |rows| && TracksUser(lastHash, lastSeq, rows[..i], u)
    ensures TracksUser(NextHashes(lastHash, rows[i]), NextSeqs(lastSeq, rows[i]), rows[..i + 1], u)
  {
    OfUserSnoc(rows, i, u);
    LastSeqSnoc(OfUser(rows[..i], u), rows[i]);
  }

  lemma WalkStep(h: Hashing, rows: seq<Row>, i: nat, requireHmac: bool, failures: seq<RowFailure>,
                 bad: set<string>, legacy: int, lastHash: map<string, Hash>, lastSeq: map<string, int>,
                 found: seq<RowFailure>)
    requires i < |rows| && Walked(h, rows[..i], requireHmac, failures, bad, legacy, lastHash, lastSeq)
    requires found == FailuresAt(h, OfUser(rows[..i], rows[i].userId), rows[i], requireHmac)
    ensures Walked(h, rows[..i + 1], requireHmac, failures + found,
                   bad + (if found != [] then {rows[i].id} else {}),
                   legacy + (if ClassifyRow(h, rows[i]).Legacy? then 1 else 0),
                   NextHashes(lastHash, rows[i]), NextSeqs(lastSeq, rows[i]))
    ensures Bad(h, rows, i, requireHmac) <==> found != []
    ensures NoneBad(h, rows, i, requireHmac) && found == [] ==> NoneBad(h, rows, i + 1, requireHmac)
  {
    BadIdsSnoc(h, rows, i, requireHmac);
    AllFailuresSnoc(h, rows, i, requireHmac);
    var hashes, seqs := NextHashes(lastHash, rows[i]), NextSeqs(lastSeq, rows[i]);
    var seen := rows[..i + 1];
    forall u ensures TracksUser(hashes, seqs, seen, u) {
      TracksStep(lastHash, lastSeq, rows, i, u);
    }
  }

  lemma WalkedReport(h: Hashing, seen: seq<Row>, requireHmac: bool, failures: seq<RowFailure>, bad: set<string>,
                     legacy: int, lastHash: map<string, Hash>, lastSeq: map<string, int>)
    requires Walked(h, seen, requireHmac, failures, bad, legacy, lastHash, lastSeq)
    ensures VerifyReport(|seen|, |seen| - |bad|, |bad|, legacy, requireHmac, failures) == FullReport(h, seen, requireHmac)
  {
  }

  /** The walk: its report is the reference report of the rows it processed, and it
      processes all of them unless fail_fast stopped it just past the first bad one. */
  method VerifyRows(h: Hashing, rows: seq<Row>, failFast: bool, requireHmac: bool)
    returns (report: VerifyReport)
    ensures 0 <= report.total <= |rows|
    ensures StopsAt(h, rows, failFast, requireHmac, report.total)
    ensures report == FullReport(h, rows[..report.total], requireHmac)
  {
    hide FailuresAt, ClassifyRow, FullReport, Bad, NextHashes, NextSeqs;
    var failures: seq<RowFailure> := [];
    var badRowIds: set<string> := {};
    var processed := 0;
    var legacy := 0;
    var lastHashForUser: map<string, Hash> := map[];
    var lastSeqForUser: map<string, int> := map[];

    while processed < |rows|
      invariant 0 <= processed <= |rows|
      invariant Walked(h, rows[..processed], requireHmac, failures, badRowIds, legacy, lastHashForUser, lastSeqForUser)
      invariant failFast ==> NoneBad(h, rows, processed, requireHmac)
    {
      var row := rows[processed];
      ghost var seen := rows[..processed];
      var found, stop := CheckRow(h, row, requireHmac, lastHashForUser, lastSeqForUser, seen);
      WalkStep(h, rows, processed, requireHmac, failures, badRowIds, legacy, lastHashForUser, lastSeqForUser, found);
      processed := processed + 1;
      legacy := legacy + (if ClassifyRow(h, row).Legacy? then 1 else 0);
      failures := failures + found;
      badRowIds := badRowIds + (if found != [] then {row.id} else {});
      lastHashForUser := NextHashes(lastHashForUser, row);
      lastSeqForUser := NextSeqs(lastSeqForUser, row);
      if failFast && stop {
        break;
      }
    }

    WalkedReport(h, rows[..processed], requireHmac, failures, badRowIds, legacy, lastHashForUser, lastSeqForUser);
    var invalid := |badRowIds|;
    report := VerifyReport(processed, processed - invalid, invalid, legacy, requireHmac, failures);
  }

  /** The checks of one row against the two dictionaries; `stop` is the fail_fast condition. */
  method CheckRow(h: Hashing, row: Row, requireHmac: bool, lastHashForUser: map<string, Hash>,
                  lastSeqForUser: map<string, int>, ghost seen: seq<Row>)
    returns (found: seq<RowFailure>, stop: bool)
    requires TracksUser(lastHashForUser, lastSeqForUser, seen, row.userId)
    ensures found == FailuresAt(h, OfUser(seen, row.userId), row, requireHmac)
    ensures stop <==> found != []
  {
    var user := row.userId;
    var scheme := ClassifyRow(h, row);
    var unkeyedRejected := false;
    found := [];
    if scheme.Legacy? && requireHmac {
      unkeyedRejected := true;
      found := found + [UnkeyedFailure(h, row)];
    }
    var chainOk := true;
    if user in lastHashForUser {
      var expectedPrevious := lastHashForUser[user];
      if row.previousHash != Some(expectedPrevious) {
        chainOk := false;
        found := found + [ChainFailure(row, expectedPrevious)];
      }
      if row.number.Some? && user in lastSeqForUser && row.number.value <= lastSeqForUser[user] {
        chainOk := false;
        found := found + [SeqFailure(row, lastSeqForUser[user])];
      }
    }
    if scheme.Invalid? {
      found := found + [RowHashFailure(h, row)];
    }
    stop := scheme.Invalid? || !chainOk || unkeyedRejected;
  }

  // ---- what the reference definition says ---------------------------------------

  /** Clean, said without the walk: every row explained, linked to the one before it in its
      user's list, and seqs that only grow. */
  ghost predicate LinkedAndOrdered(h: Hashing, rows: seq<Row>, requireHmac: bool) {
    && (forall i :: 0 <= i < |rows| ==>
          ClassifyRow(h, rows[i]).Hmac? || (!requireHmac && ClassifyRow(h, rows[i]).Legacy?))
    && (forall i :: 0 < i < |rows| ==> rows[i].previousHash == Some(rows[i - 1].integrityHash))
    && SeqsIncrease(rows)
  }

  ghost predicate SeqsIncrease(rows: seq<Row>) {
    forall i, j :: 0 <= i < j < |rows| && rows[i].number.Some? && rows[j].number.Some? ==>
      rows[i].number.value < rows[j].number.value
  }

  lemma {:induction false} LastSeqIs(rows: seq<Row>)
    ensures LastSeq(rows).None? <==> forall i :: 0 <= i < |rows| ==> rows[i].number.None?
    ensures LastSeq(rows).Some? ==>
      exists i :: 0 <= i < |rows| && rows[i].number == LastSeq(rows)
                  && forall j :: i < j < |rows| ==> rows[j].number.None?
  {
    if rows != [] && rows[|rows| - 1].number.None? {
      LastSeqIs(rows[..|rows| - 1]);
    }
  }

  /** For rows of one user, no failure is reported exactly when the list is linked and
      ordered. */
  lemma {:induction false} CleanIffLinked(h: Hashing, rows: seq<Row>, user: string, requireHmac: bool)
    requires forall r :: r in rows ==> r.userId == user
    ensures AllFailures(h, rows, requireHmac) == [] <==> LinkedAndOrdered(h, rows, requireHmac)
  {
    if rows != [] {
      var init, last := rows[..|rows| - 1], rows[|rows| - 1];
      CleanIffLinked(h, init, user, requireHmac);
      OneUserOnly(init, user);
      LinkedStep(h, rows, requireHmac);
    }
  }

  lemma LinkedStep(h: Hashing, rows: seq<Row>, requireHmac: bool)
    requires rows != []
    ensures var init, last := rows[..|rows| - 1], rows[|rows| - 1];
            LinkedAndOrdered(h, rows, requireHmac) <==>
            LinkedAndOrdered(h, init, requireHmac) && FailuresAt(h, init, last, requireHmac) == []
  {
    hide ClassifyRow, BrokenSeq, SeqsIncrease, FailuresAt;
    var n := |rows| - 1;
    var init, last := rows[..n], rows[n];
    NoFailuresAt(h, init, last, requireHmac);
    SeqsIncreaseInit(rows);
    if SeqsIncrease(init) {
      SeqStep(rows);
    }
    assert rows == init + [last];
  }

  lemma NoFailuresAt(h: Hashing, earlier: seq<Row>, row: Row, requireHmac: bool)
    ensures FailuresAt(h, earlier, row, requireHmac) == [] <==>
            && !(requireHmac && ClassifyRow(h, row).Legacy?)
            && !BrokenLink(earlier, row) && !BrokenSeq(earlier, row) && !ClassifyRow(h, row).Invalid?
  {
    hide ClassifyRow, BrokenSeq, BrokenLink;
  }

  lemma SeqsIncreaseInit(rows: seq<Row>)
    requires rows != []
    ensures SeqsIncrease(rows) ==> SeqsIncrease(rows[..|rows| - 1])
  {
  }

  lemma SeqStep(rows: seq<Row>)
    requires rows != [] && SeqsIncrease(rows[..|rows| - 1])
    ensures SeqsIncrease(rows) <==> !BrokenSeq(rows[..|rows| - 1], rows[|rows| - 1])
  {
    var n := |rows| - 1;
    var init := rows[..n];
    LastSeqIs(init);
    if LastSeq(init).Some? {
      var i :| 0 <= i < n && init[i].number == LastSeq(init) && forall j :: i < j < n ==> init[j].number.None?;
      forall k | 0 <= k < n && init[k].number.Some? ensures init[k].number.value <= init[i].number.value {
        assert k <= i;
      }
    }
    assert rows == init + [rows[n]];
  }

  lemma {:induction false} OneUserOnly(rows: seq<Row>, user: string)
    requires forall r :: r in rows ==> r.userId == user
    ensures OfUser(rows, user) == rows
  {
    if rows != [] {
      OneUserOnly(rows[..|rows| - 1], user);
    }
  }
}
