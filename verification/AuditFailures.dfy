/** What each reported failure says, field by field, and that every defect is reported
    (scripts/verify_audit_log.py). */
module AuditFailures {
  import opened Options
  import opened AuditRows
  import opened AuditVerifier
  import opened AuditMeaning

  // ---- the row before, the seq before ------------------------------------------------

  /** Row j is the user's latest before position n. */
  ghost predicate LatestOf(rows: seq<Row>, n: nat, user: string, j: nat) {
    && j < n <= |rows| && rows[j].userId == user
    && forall k :: j < k < n ==> rows[k].userId != user
  }

  /** Row j is the user's latest with a seq before position n. */
  ghost predicate LatestNumbered(rows: seq<Row>, n: nat, user: string, j: nat) {
    && j < n <= |rows| && rows[j].userId == user && rows[j].number.Some?
    && forall k :: j < k < n && rows[k].userId == user ==> rows[k].number.None?
  }

  lemma {:induction false} EarlierIs(rows: seq<Row>, n: nat, user: string)
    requires n <= |rows|
    ensures var earlier := OfUser(rows[..n], user);
            && (earlier == [] ==> forall k :: 0 <= k < n ==> rows[k].userId != user)
            && (earlier != [] ==> exists j: nat :: LatestOf(rows, n, user, j) && rows[j] == earlier[|earlier| - 1])
  {
    if n > 0 {
      EarlierIs(rows, n - 1, user);
      OfUserSnoc(rows, n - 1, user);
      hide OfUser;
      if rows[n - 1].userId == user {
        assert LatestOf(rows, n, user, n - 1);
      } else if OfUser(rows[..n - 1], user) != [] {
        var j: nat :| LatestOf(rows, n - 1, user, j) && rows[j] == OfUser(rows[..n - 1], user)[|OfUser(rows[..n - 1], user)| - 1];
        assert LatestOf(rows, n, user, j);
      }
    }
  }

  lemma {:induction false} EarlierSeq(rows: seq<Row>, n: nat, user: string)
    requires n <= |rows|
    ensures var seq_ := LastSeq(OfUser(rows[..n], user));
            && (seq_.None? ==> forall k :: 0 <= k < n && rows[k].userId == user ==> rows[k].number.None?)
            && (seq_.Some? ==> exists j: nat :: LatestNumbered(rows, n, user, j) && rows[j].number == seq_)
  {
    if n > 0 {
      EarlierSeq(rows, n - 1, user);
      OfUserSnoc(rows, n - 1, user);
      LastSeqSnoc(OfUser(rows[..n - 1], user), rows[n - 1]);
      hide OfUser, LastSeq;
      if rows[n - 1].userId == user && rows[n - 1].number.Some? {
        assert LatestNumbered(rows, n, user, n - 1);
      } else if LastSeq(OfUser(rows[..n - 1], user)).Some? {
        var j: nat :| LatestNumbered(rows, n - 1, user, j) && rows[j].number == LastSeq(OfUser(rows[..n - 1], user));
        assert LatestNumbered(rows, n, user, j);
      }
    }
  }

  // ---- what a failure says --------------------------------------------------------------

  ghost predicate Describes(f: RowFailure, r: Row) {
    && f.id == r.id && f.timestamp == r.timestamp && f.connectorName == r.connectorName && f.action == r.action
    && f.storedHash == r.integrityHash
  }

  ghost predicate WrongHash(h: Hashing, r: Row, f: RowFailure) {
    && f.kind == RowHash && !Explained(h, r, false)
    && f.expectedHash == h.keyed(PayloadOf(r))
    && f.storedPreviousHash == None && f.expectedPreviousHash == None && f.storedSeq == None && f.previousSeq == None
  }

  ghost predicate RefusedUnkeyed(h: Hashing, r: Row, f: RowFailure) {
    && f.kind == UnkeyedHash && OnlyUnkeyed(h, r)
    && f.expectedHash == h.keyed(PayloadOf(r))
    && f.storedPreviousHash == None && f.expectedPreviousHash == None && f.storedSeq == None && f.previousSeq == None
  }

  /** The row does not name the hash of its user's row before it. */
  ghost predicate WrongLink(r: Row, before: Row, f: RowFailure) {
    && f.kind == ChainLink && r.previousHash != Some(before.integrityHash)
    && f.expectedHash == r.integrityHash
    && f.storedPreviousHash == r.previousHash && f.expectedPreviousHash == Some(before.integrityHash)
    && f.storedSeq == None && f.previousSeq == None
  }

  /** The row's seq is not above its user's seq before it. */
  ghost predicate WrongSeq(r: Row, before: Row, f: RowFailure) {
    && f.kind == SeqOrder && r.number.Some? && before.number.Some? && r.number.value <= before.number.value
    && f.expectedHash == r.integrityHash
    && f.storedPreviousHash == None && f.expectedPreviousHash == None
    && f.storedSeq == r.number && f.previousSeq == before.number
  }

  ghost predicate FailureOf(h: Hashing, rows: seq<Row>, i: nat, requireHmac: bool, f: RowFailure)
    requires i < |rows|
  {
    var r := rows[i];
    && Describes(f, r)
    && (|| WrongHash(h, r, f)
        || (requireHmac && RefusedUnkeyed(h, r, f))
        || (exists j: nat :: LatestOf(rows, i, r.userId, j) && WrongLink(r, rows[j], f))
        || (exists j: nat :: LatestNumbered(rows, i, r.userId, j) && WrongSeq(r, rows[j], f)))
  }

  /** The four failures as the builders make them. */
  lemma BuildersSay(h: Hashing, r: Row, before: Row, requireHmac: bool, f: RowFailure)
    ensures ClassifyRow(h, r).Invalid? && f == RowHashFailure(h, r) <==> Describes(f, r) && WrongHash(h, r, f)
    ensures ClassifyRow(h, r).Legacy? && f == UnkeyedFailure(h, r) <==> Describes(f, r) && RefusedUnkeyed(h, r, f)
    ensures r.previousHash != Some(before.integrityHash) && f == ChainFailure(r, before.integrityHash)
            <==> Describes(f, r) && WrongLink(r, before, f)
    ensures r.number.Some? && before.number.Some? && r.number.value <= before.number.value
              && f == SeqFailure(r, before.number.value)
            <==> Describes(f, r) && WrongSeq(r, before, f)
  {
    hide PayloadOf;
  }

  lemma LatestIsOne(rows: seq<Row>, n: nat, user: string, i: nat, j: nat)
    requires LatestOf(rows, n, user, i) && LatestOf(rows, n, user, j)
    ensures i == j
  {
  }

  lemma LatestNumberedIsOne(rows: seq<Row>, n: nat, user: string, i: nat, j: nat)
    requires LatestNumbered(rows, n, user, i) && LatestNumbered(rows, n, user, j)
    ensures i == j
  {
  }

  lemma LinkFailureMeans(rows: seq<Row>, i: nat, f: RowFailure)
    requires i < |rows|
    ensures var earlier, r := OfUser(rows[..i], rows[i].userId), rows[i];
            BrokenLink(earlier, r) && f == ChainFailure(r, earlier[|earlier| - 1].integrityHash)
            <==> Describes(f, r) && exists j: nat :: LatestOf(rows, i, r.userId, j) && WrongLink(r, rows[j], f)
  {
    hide OfUser, ChainFailure, Describes, WrongLink;
    var earlier, r := OfUser(rows[..i], rows[i].userId), rows[i];
    EarlierIs(rows, i, r.userId);
    if earlier != [] {
      var j: nat :| LatestOf(rows, i, r.userId, j) && rows[j] == earlier[|earlier| - 1];
      LinkSays(r, rows[j], f);
      forall l: nat | LatestOf(rows, i, r.userId, l) ensures l == j {
        LatestIsOne(rows, i, r.userId, l, j);
      }
    } else {
      forall l: nat ensures !LatestOf(rows, i, r.userId, l) {
        NoLatest(rows, i, r.userId, l);
      }
    }
  }

  lemma NoLatest(rows: seq<Row>, n: nat, user: string, j: nat)
    requires n <= |rows| && forall k :: 0 <= k < n ==> rows[k].userId != user
    ensures !LatestOf(rows, n, user, j)
  {
  }

  lemma LinkSays(r: Row, before: Row, f: RowFailure)
    ensures r.previousHash != Some(before.integrityHash) && f == ChainFailure(r, before.integrityHash)
            <==> Describes(f, r) && WrongLink(r, before, f)
  {
  }

  lemma SeqFailureMeans(rows: seq<Row>, i: nat, f: RowFailure)
    requires i < |rows|
    ensures var earlier, r := OfUser(rows[..i], rows[i].userId), rows[i];
            BrokenSeq(earlier, r) && f == SeqFailure(r, LastSeq(earlier).value)
            <==> Describes(f, r) && exists j: nat :: LatestNumbered(rows, i, r.userId, j) && WrongSeq(r, rows[j], f)
  {
    hide OfUser, SeqFailure, Describes, WrongSeq, LastSeq;
    var earlier, r := OfUser(rows[..i], rows[i].userId), rows[i];
    EarlierSeq(rows, i, r.userId);
    if LastSeq(earlier).Some? {
      var j: nat :| LatestNumbered(rows, i, r.userId, j) && rows[j].number == LastSeq(earlier);
      SeqSays(r, rows[j], f);
      forall l: nat | LatestNumbered(rows, i, r.userId, l) ensures l == j {
        LatestNumberedIsOne(rows, i, r.userId, l, j);
      }
    } else {
      forall l: nat ensures !LatestNumbered(rows, i, r.userId, l) {
        NoLatestNumbered(rows, i, r.userId, l);
      }
    }
  }

  lemma NoLatestNumbered(rows: seq<Row>, n: nat, user: string, j: nat)
    requires n <= |rows| && forall k :: 0 <= k < n && rows[k].userId == user ==> rows[k].number.None?
    ensures !LatestNumbered(rows, n, user, j)
  {
  }

  lemma SeqSays(r: Row, before: Row, f: RowFailure)
    requires before.number.Some?
    ensures r.number.Some? && r.number.value <= before.number.value && f == SeqFailure(r, before.number.value)
            <==> Describes(f, r) && WrongSeq(r, before, f)
  {
  }

  /** The walk reports about row i exactly its failures. */
  lemma FailuresAtMean(h: Hashing, rows: seq<Row>, i: nat, requireHmac: bool, f: RowFailure)
    requires i < |rows|
    ensures f in FailuresAt(h, OfUser(rows[..i], rows[i].userId), rows[i], requireHmac)
            <==> FailureOf(h, rows, i, requireHmac, f)
  {
    LinkFailureMeans(rows, i, f);
    SeqFailureMeans(rows, i, f);
    BuildersSay(h, rows[i], rows[i], requireHmac, f);
    hide OfUser, ChainFailure, SeqFailure, RowHashFailure, UnkeyedFailure, ClassifyRow, BrokenLink, BrokenSeq;
    hide Describes, WrongHash, RefusedUnkeyed, WrongLink, WrongSeq, LatestOf, LatestNumbered, LastSeq;
    InFailuresAt(h, OfUser(rows[..i], rows[i].userId), rows[i], requireHmac, f);
  }

  lemma InFailuresAt(h: Hashing, earlier: seq<Row>, r: Row, requireHmac: bool, f: RowFailure)
    ensures f in FailuresAt(h, earlier, r, requireHmac) <==>
            || (requireHmac && ClassifyRow(h, r).Legacy? && f == UnkeyedFailure(h, r))
            || (BrokenLink(earlier, r) && f == ChainFailure(r, earlier[|earlier| - 1].integrityHash))
            || (BrokenSeq(earlier, r) && f == SeqFailure(r, LastSeq(earlier).value))
            || (ClassifyRow(h, r).Invalid? && f == RowHashFailure(h, r))
  {
    hide ChainFailure, SeqFailure, RowHashFailure, UnkeyedFailure, ClassifyRow;
  }

  lemma LatestPrefix(rows: seq<Row>, n: nat, i: nat, user: string, j: nat)
    requires i < n <= |rows|
    ensures LatestOf(rows[..n], i, user, j) <==> LatestOf(rows, i, user, j)
    ensures LatestNumbered(rows[..n], i, user, j) <==> LatestNumbered(rows, i, user, j)
    ensures LatestOf(rows, i, user, j) || LatestNumbered(rows, i, user, j) ==> j < i
  {
  }

  lemma FailureOfPrefix(h: Hashing, rows: seq<Row>, n: nat, i: nat, requireHmac: bool, f: RowFailure)
    requires i < n <= |rows|
    ensures FailureOf(h, rows[..n], i, requireHmac, f) <==> FailureOf(h, rows, i, requireHmac, f)
  {
    hide Describes, WrongHash, RefusedUnkeyed, WrongLink, WrongSeq;
    var user := rows[i].userId;
    if j: nat :| LatestOf(rows, i, user, j) && WrongLink(rows[i], rows[j], f) {
      LatestPrefix(rows, n, i, user, j);
      assert rows[..n][j] == rows[j];
    }
    if j: nat :| LatestOf(rows[..n], i, user, j) && WrongLink(rows[i], rows[..n][j], f) {
      LatestPrefix(rows, n, i, user, j);
      assert rows[..n][j] == rows[j];
    }
    if j: nat :| LatestNumbered(rows, i, user, j) && WrongSeq(rows[i], rows[j], f) {
      LatestPrefix(rows, n, i, user, j);
      assert rows[..n][j] == rows[j];
    }
    if j: nat :| LatestNumbered(rows[..n], i, user, j) && WrongSeq(rows[i], rows[..n][j], f) {
      LatestPrefix(rows, n, i, user, j);
      assert rows[..n][j] == rows[j];
    }
    hide LatestOf, LatestNumbered;
  }

  /** The report lists exactly the failures of its rows: each names its row and says what was
      stored and what was expected, and no defect goes unreported. */
  lemma {:induction false} FailuresMean(h: Hashing, rows: seq<Row>, requireHmac: bool, f: RowFailure)
    ensures f in AllFailures(h, rows, requireHmac) <==>
            exists i: nat :: i < |rows| && FailureOf(h, rows, i, requireHmac, f)
  {
    if rows != [] {
      var n := |rows| - 1;
      FailuresMean(h, rows[..n], requireHmac, f);
      FailuresAtMean(h, rows, n, requireHmac, f);
      AllFailuresLast(h, rows, requireHmac, f);
      hide FailureOf, FailuresAt, OfUser, AllFailures;
      forall i: nat | i < n ensures FailureOf(h, rows[..n], i, requireHmac, f) <==> FailureOf(h, rows, i, requireHmac, f) {
        FailureOfPrefix(h, rows, n, i, requireHmac, f);
      }
    }
  }

  lemma AllFailuresLast(h: Hashing, rows: seq<Row>, requireHmac: bool, f: RowFailure)
    requires rows != []
    ensures var n := |rows| - 1;
            f in AllFailures(h, rows, requireHmac) <==>
            f in AllFailures(h, rows[..n], requireHmac) || f in FailuresAt(h, OfUser(rows[..n], rows[n].userId), rows[n], requireHmac)
  {
    hide FailuresAt, OfUser;
  }
}
