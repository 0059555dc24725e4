/** What the verifier's report says, row by row and without the walk's own functions
    (scripts/verify_audit_log.py). */
module AuditMeaning {
  import opened Options
  import opened AuditRows
  import opened AuditVerifier
  import opened AuditDecomposition

  /** The hash covers these thirteen fields of a row and no others. */
  lemma HashCovers(a: Row, b: Row)
    ensures PayloadOf(a) == PayloadOf(b) <==>
            && a.userId == b.userId
            && a.connectorName == b.connectorName
            && a.action == b.action
            && a.endpoint == b.endpoint
            && a.scopeUsed == b.scopeUsed
            && a.status == b.status
            && a.requestId == b.requestId
            && a.requestData == b.requestData
            && a.responseSummary == b.responseSummary
            && a.reasoningChain == b.reasoningChain
            && a.detectionMethod == b.detectionMethod
            && a.confidenceScore == b.confidenceScore
            && a.previousHash == b.previousHash
  {
  }

  // ---- one row -------------------------------------------------------------------------

  /** The row carries the unkeyed digest of its payload, has no seq, and not the keyed one. */
  predicate OnlyUnkeyed(h: Hashing, r: Row) {
    && r.number.None? && r.integrityHash == h.unkeyed(PayloadOf(r))
    && r.integrityHash != h.keyed(PayloadOf(r))
  }

  /** A row with a seq carries the keyed digest; one without may carry the unkeyed one, unless
      that is refused. */
  predicate Explained(h: Hashing, r: Row, requireHmac: bool) {
    || r.integrityHash == h.keyed(PayloadOf(r))
    || (!requireHmac && r.number.None? && r.integrityHash == h.unkeyed(PayloadOf(r)))
  }

  lemma SchemeMeans(h: Hashing, r: Row, requireHmac: bool)
    ensures ClassifyRow(h, r).Legacy? <==> OnlyUnkeyed(h, r)
    ensures ClassifyRow(h, r).Hmac? || (!requireHmac && ClassifyRow(h, r).Legacy?) <==> Explained(h, r, requireHmac)
  {
  }

  // ---- where a user's rows are -----------------------------------------------------------

  function Positions(rows: seq<Row>, user: string): seq<nat> {
    if rows == [] then []
    else
      var n := |rows| - 1;
      Positions(rows[..n], user) + if rows[n].userId == user then [n] else []
  }

  lemma {:induction false} PositionsAre(rows: seq<Row>, user: string)
    ensures |Positions(rows, user)| == |OfUser(rows, user)|
    ensures forall k :: 0 <= k < |Positions(rows, user)| ==>
              Positions(rows, user)[k] < |rows| && rows[Positions(rows, user)[k]] == OfUser(rows, user)[k]
    ensures forall k, l :: 0 <= k < l < |Positions(rows, user)| ==> Positions(rows, user)[k] < Positions(rows, user)[l]
    ensures forall i: nat :: i < |rows| && rows[i].userId == user ==> i in Positions(rows, user)
    ensures forall i :: i in Positions(rows, user) ==> i < |rows| && rows[i].userId == user
  {
    if rows != [] {
      PositionsAre(rows[..|rows| - 1], user);
    }
  }

  /** Rows i and j are one after the other in their user's own list. */
  ghost predicate Follows(rows: seq<Row>, i: nat, j: nat) {
    && i < j < |rows| && rows[i].userId == rows[j].userId
    && forall k :: i < k < j ==> rows[k].userId != rows[j].userId
  }

  ghost predicate Linked(rows: seq<Row>, i: nat, j: nat) {
    Follows(rows, i, j) ==> rows[j].previousHash == Some(rows[i].integrityHash)
  }

  ghost predicate Ordered(rows: seq<Row>, i: nat, j: nat) {
    i < j < |rows| && rows[i].userId == rows[j].userId && rows[i].number.Some? && rows[j].number.Some? ==>
      rows[i].number.value < rows[j].number.value
  }

  /** Neighbours in the user's list are rows that follow each other. */
  lemma NeighboursFollow(rows: seq<Row>, user: string, k: nat)
    requires 0 < k < |OfUser(rows, user)|
    ensures |Positions(rows, user)| == |OfUser(rows, user)|
    ensures var p := Positions(rows, user);
            && p[k - 1] < |rows| && p[k] < |rows| && Follows(rows, p[k - 1], p[k])
            && rows[p[k - 1]] == OfUser(rows, user)[k - 1] && rows[p[k]] == OfUser(rows, user)[k]
  {
    PositionsAre(rows, user);
    hide Positions, OfUser;
    var p := Positions(rows, user);
    NotInside(p, k);
    assert forall m: nat :: m < |rows| && rows[m].userId == user ==> m in p;
    assert p[k] in p && p[k - 1] in p;
  }

  lemma NotInside(p: seq<nat>, k: nat)
    requires 0 < k < |p| && forall l, m :: 0 <= l < m < |p| ==> p[l] < p[m]
    ensures forall m: nat :: p[k - 1] < m < p[k] ==> m !in p
  {
    forall l | 0 <= l < |p| ensures p[l] <= p[k - 1] || p[k] <= p[l] {
      assert l < k - 1 || l == k - 1 || l == k || k < l;
    }
  }

  /** And rows that follow each other are neighbours there. */
  lemma FollowersAreNeighbours(rows: seq<Row>, i: nat, j: nat) returns (k: nat)
    requires Follows(rows, i, j)
    ensures var own := OfUser(rows, rows[j].userId); 0 < k < |own| && own[k - 1] == rows[i] && own[k] == rows[j]
  {
    var user := rows[j].userId;
    PositionsAre(rows, user);
    hide Positions, OfUser;
    var p := Positions(rows, user);
    assert i in p && j in p;
    var a :| 0 <= a < |p| && p[a] == i;
    k :| 0 <= k < |p| && p[k] == j;
    assert a < k;
    NoneBetween(rows, i, j, p, a, k);
  }

  lemma NoneBetween(rows: seq<Row>, i: nat, j: nat, p: seq<nat>, a: nat, k: nat)
    requires Follows(rows, i, j) && a < k < |p| && p[a] == i && p[k] == j
    requires forall l, m :: 0 <= l < m < |p| ==> p[l] < p[m]
    requires forall m :: m in p ==> m < |rows| && rows[m].userId == rows[j].userId
    ensures a == k - 1
  {
    assert p[k - 1] in p && p[k - 1] < p[k];
  }

  lemma LinksMean(rows: seq<Row>, user: string)
    ensures (forall k :: 0 < k < |OfUser(rows, user)| ==>
               OfUser(rows, user)[k].previousHash == Some(OfUser(rows, user)[k - 1].integrityHash))
            <==> forall i: nat, j: nat :: Follows(rows, i, j) && rows[j].userId == user ==> Linked(rows, i, j)
  {
    hide OfUser;
    var own := OfUser(rows, user);
    if forall k :: 0 < k < |own| ==> own[k].previousHash == Some(own[k - 1].integrityHash) {
      forall i: nat, j: nat | Follows(rows, i, j) && rows[j].userId == user ensures Linked(rows, i, j) {
        var k := FollowersAreNeighbours(rows, i, j);
      }
    }
    if forall i: nat, j: nat :: Follows(rows, i, j) && rows[j].userId == user ==> Linked(rows, i, j) {
      forall k | 0 < k < |own| ensures own[k].previousHash == Some(own[k - 1].integrityHash) {
        NeighboursFollow(rows, user, k);
        var p := Positions(rows, user);
        UserAt(rows, user, k);
        assert Linked(rows, p[k - 1], p[k]);
      }
    }
  }

  lemma UserAt(rows: seq<Row>, user: string, k: nat)
    requires k < |OfUser(rows, user)|
    ensures |Positions(rows, user)| == |OfUser(rows, user)|
    ensures Positions(rows, user)[k] < |rows| && rows[Positions(rows, user)[k]].userId == user
  {
    PositionsAre(rows, user);
    hide OfUser, Positions;
    assert Positions(rows, user)[k] in Positions(rows, user);
  }

  lemma OrderMeans(rows: seq<Row>, user: string)
    ensures SeqsIncrease(OfUser(rows, user)) <==>
            forall i: nat, j: nat :: i < j < |rows| && rows[j].userId == user ==> Ordered(rows, i, j)
  {
    PositionsAre(rows, user);
    hide OfUser, Positions;
    var own, p := OfUser(rows, user), Positions(rows, user);
    if SeqsIncrease(own) {
      forall i: nat, j: nat | i < j < |rows| && rows[j].userId == user ensures Ordered(rows, i, j) {
        if rows[i].userId == user {
          assert i in p && j in p;
          var a :| 0 <= a < |p| && p[a] == i;
          var b :| 0 <= b < |p| && p[b] == j;
          assert a < b;
          assert own[a] == rows[i] && own[b] == rows[j];
        }
      }
    }
    if forall i: nat, j: nat :: i < j < |rows| && rows[j].userId == user ==> Ordered(rows, i, j) {
      forall a, b | 0 <= a < b < |own| && own[a].number.Some? && own[b].number.Some?
        ensures own[a].number.value < own[b].number.value
      {
        assert p[a] in p && p[b] in p && p[a] < p[b];
        assert own[a] == rows[p[a]] && own[b] == rows[p[b]];
        assert Ordered(rows, p[a], p[b]);
      }
    }
  }

  lemma ExplainedMeans(h: Hashing, rows: seq<Row>, own: seq<Row>, user: string, requireHmac: bool)
    requires forall r :: r in own <==> r in rows && r.userId == user
    ensures (forall k :: 0 <= k < |own| ==> ClassifyRow(h, own[k]).Hmac? || (!requireHmac && ClassifyRow(h, own[k]).Legacy?))
            <==> forall r :: r in rows && r.userId == user ==> Explained(h, r, requireHmac)
  {
    hide ClassifyRow, Explained;
    forall r ensures ClassifyRow(h, r).Hmac? || (!requireHmac && ClassifyRow(h, r).Legacy?) <==> Explained(h, r, requireHmac) {
      SchemeMeans(h, r, requireHmac);
    }
    if forall k :: 0 <= k < |own| ==> Explained(h, own[k], requireHmac) {
      forall r | r in rows && r.userId == user ensures Explained(h, r, requireHmac) {
        var k :| 0 <= k < |own| && own[k] == r;
      }
    }
    assert forall k :: 0 <= k < |own| ==> own[k] in own;
  }

  // ---- the verdict ------------------------------------------------------------------------

  /** What a row, and two rows, must satisfy for a clean report. */
  ghost predicate AllSound(h: Hashing, rows: seq<Row>, requireHmac: bool) {
    && (forall r :: r in rows ==> Explained(h, r, requireHmac))
    && (forall i: nat, j: nat :: Follows(rows, i, j) ==> Linked(rows, i, j))
    && (forall i: nat, j: nat :: i < j < |rows| ==> Ordered(rows, i, j))
  }

  /** A report is ok exactly when every row with a seq carries the keyed digest of its payload and
      every other row that or, if allowed, the unkeyed one; every row names the hash of its user's
      row before it; and each user's seqs increase. */
  lemma OkExactlyWhen(h: Hashing, rows: seq<Row>, requireHmac: bool)
    ensures FullReport(h, rows, requireHmac).Ok() <==> AllSound(h, rows, requireHmac)
  {
    OkIffNoFailures(h, rows, requireHmac);
    CleanIffEachUserClean(h, rows, requireHmac);
    hide FullReport, AllFailures, Explained, Linked, Ordered, Follows, CleanFor;
    forall user ensures CleanFor(h, rows, user, requireHmac) <==> SoundFor(h, rows, user, requireHmac) {
      UserSound(h, rows, user, requireHmac);
    }
    SoundEachUser(h, rows, requireHmac);
  }

  ghost predicate SoundFor(h: Hashing, rows: seq<Row>, user: string, requireHmac: bool) {
    && (forall r :: r in rows && r.userId == user ==> Explained(h, r, requireHmac))
    && (forall i: nat, j: nat :: Follows(rows, i, j) && rows[j].userId == user ==> Linked(rows, i, j))
    && (forall i: nat, j: nat :: i < j < |rows| && rows[j].userId == user ==> Ordered(rows, i, j))
  }

  lemma SoundEachUser(h: Hashing, rows: seq<Row>, requireHmac: bool)
    ensures (forall user :: SoundFor(h, rows, user, requireHmac)) <==> AllSound(h, rows, requireHmac)
  {
    hide Explained, Linked, Ordered;
    if forall user :: SoundFor(h, rows, user, requireHmac) {
      forall r | r in rows ensures Explained(h, r, requireHmac) {
        assert SoundFor(h, rows, r.userId, requireHmac);
      }
      forall i: nat, j: nat | i < j < |rows| ensures Ordered(rows, i, j) && (Follows(rows, i, j) ==> Linked(rows, i, j)) {
        assert SoundFor(h, rows, rows[j].userId, requireHmac);
      }
    }
  }

  lemma UserSound(h: Hashing, rows: seq<Row>, user: string, requireHmac: bool)
    ensures CleanFor(h, rows, user, requireHmac) <==> SoundFor(h, rows, user, requireHmac)
  {
    OfUserMembers(rows, user);
    CleanIffLinked(h, OfUser(rows, user), user, requireHmac);
    hide OfUser, AllFailures, Explained, Linked, Ordered, Follows, SeqsIncrease, ClassifyRow;
    ExplainedMeans(h, rows, OfUser(rows, user), user, requireHmac);
    LinksMean(rows, user);
    OrderMeans(rows, user);
  }

  /** The same for the walk itself, stopped early or not. */
  lemma ReportOkExactlyWhen(h: Hashing, rows: seq<Row>, failFast: bool, requireHmac: bool, report: VerifyReport)
    requires 0 <= report.total <= |rows| && StopsAt(h, rows, failFast, requireHmac, report.total)
    requires report == FullReport(h, rows[..report.total], requireHmac)
    ensures report.Ok() <==> AllSound(h, rows, requireHmac)
    ensures report.legacy == |UnkeyedRows(h, rows[..report.total])|
  {
    hide AllSound, OnlyUnkeyed, Bad, NoneBad;
    OkExactlyWhen(h, rows, requireHmac);
    if failFast {
      FailFastIsShortestBadPrefix(h, rows, requireHmac, report.total);
    } else {
      assert rows[..report.total] == rows;
    }
    LegacyCountIs(h, rows[..report.total]);
  }

  // ---- the legacy count -----------------------------------------------------------------------

  ghost function Where(p: Row -> bool, rows: seq<Row>): set<nat> {
    set i: nat | i < |rows| && p(rows[i])
  }

  lemma {:induction false} CountIs(p: Row -> bool, rows: seq<Row>)
    ensures Count(p, rows) == |Where(p, rows)|
  {
    if rows != [] {
      var n := |rows| - 1;
      CountIs(p, rows[..n]);
      WhereSnoc(p, rows);
    }
  }

  lemma WhereSnoc(p: Row -> bool, rows: seq<Row>)
    requires rows != []
    ensures var n := |rows| - 1;
            n !in Where(p, rows[..n]) && Where(p, rows) == Where(p, rows[..n]) + if p(rows[n]) then {n} else {}
  {
  }

  /** Where the rows are that carry the unkeyed digest only. */
  ghost function UnkeyedRows(h: Hashing, rows: seq<Row>): set<nat> {
    set i: nat | i < |rows| && OnlyUnkeyed(h, rows[i])
  }

  /** The legacy count is how many rows without a seq carry the unkeyed digest and not the keyed
      one. */
  lemma LegacyCountIs(h: Hashing, rows: seq<Row>)
    ensures LegacyCount(h, rows) == |UnkeyedRows(h, rows)|
  {
    var p := (row: Row) => ClassifyRow(h, row).Legacy?;
    assert LegacyCount(h, rows) == Count(p, rows);
    CountIs(p, rows);
    forall i: nat | i < |rows| ensures p(rows[i]) <==> OnlyUnkeyed(h, rows[i]) {
      SchemeMeans(h, rows[i], false);
    }
    assert Where(p, rows) == UnkeyedRows(h, rows);
  }
}
