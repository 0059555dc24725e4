/** What passes the verifier in its permissive mode, where rows without a seq may carry the
    unkeyed digest (scripts/verify_audit_log.py). */
module AuditPermissive {
  import opened Options
  import opened AuditRows
  import opened AuditWriter
  import opened AuditVerifier
  import opened AuditDecomposition
  import opened AuditEvidence
  import opened AuditMeaning

  /** Each user's legacy rows begin a chain. */
  ghost predicate Rooted(base: seq<Row>) {
    forall u :: OfUser(base, u) != [] ==> OfUser(base, u)[0].previousHash == None
  }

  /** The row before position p of a user's committed rows, by its hash. */
  lemma ChainNames(h: Hashing, user: string, legacy: seq<Row>, chain: seq<Row>, p: nat)
    requires LegacyLinked(h, legacy) && Chain(h, user, legacy, chain) && p < |chain|
    requires legacy != [] ==> legacy[0].previousHash == None
    ensures chain[p].previousHash == if p == 0 then None else Some(chain[p - 1].integrityHash)
    ensures chain[p].integrityHash == h.keyed(PayloadOf(chain[p])) || chain[p].integrityHash == h.unkeyed(PayloadOf(chain[p]))
  {
    hide PayloadOf;
    if p < |legacy| {
      assert chain[p] == legacy[p];
      assert p > 0 ==> chain[p - 1] == legacy[p - 1];
    } else {
      assert LinkAt(h, user, |legacy|, chain, p);
    }
  }

  /** Equal digests of explained rows are digests of the same payload. */
  lemma SameByHash(h: Hashing, a: Row, b: Row)
    requires Ideal(h) && IdealUnkeyed(h) && a.integrityHash == b.integrityHash
    requires Explained(h, a, false)
    requires b.integrityHash == h.keyed(PayloadOf(b)) || b.integrityHash == h.unkeyed(PayloadOf(b))
    ensures Same(a, b)
  {
    hide PayloadOf;
  }

  lemma LinkedHere(h: Hashing, own: seq<Row>)
    requires own != [] && LinkedAndOrdered(h, own, false)
    ensures Explained(h, own[|own| - 1], false)
    ensures |own| > 1 ==> own[|own| - 1].previousHash == Some(own[|own| - 2].integrityHash)
    ensures |own| > 1 ==> Explained(h, own[|own| - 2], false)
  {
    hide SeqsIncrease;
    SchemeMeans(h, own[|own| - 1], false);
    if |own| > 1 {
      SchemeMeans(h, own[|own| - 2], false);
    }
  }

  /** From a row that is committed at position p, the linked rows before it are the committed ones
      before p. */
  lemma {:induction false} RunBack(h: Hashing, user: string, legacy: seq<Row>, chain: seq<Row>, own: seq<Row>, p: nat)
    requires Ideal(h) && IdealUnkeyed(h) && LegacyLinked(h, legacy) && Chain(h, user, legacy, chain)
    requires legacy != [] ==> legacy[0].previousHash == None
    requires own != [] && LinkedAndOrdered(h, own, false) && p < |chain| && Same(own[|own| - 1], chain[p])
    ensures |own| <= p + 1 && RunFrom(own, chain, p + 1 - |own|)
    decreases |own|
  {
    hide Ideal, IdealUnkeyed, LegacyLinked, Chain, LinkedAndOrdered, Explained;
    ChainNames(h, user, legacy, chain, p);
    LinkedHere(h, own);
    var n := |own| - 1;
    if n > 0 {
      SameNames(own[n], chain[p]);
      ChainNames(h, user, legacy, chain, p - 1);
      SameByHash(h, own[n - 1], chain[p - 1]);
      LinkedPrefix(h, own, false);
      RunBack(h, user, legacy, chain, own[..n], p - 1);
      RunGrows(own, chain, p - n, p);
    }
  }

  lemma SameNames(a: Row, b: Row)
    requires Same(a, b)
    ensures a.previousHash == b.previousHash
  {
    HashCovers(a, b);
  }

  /** Just past the last row with the keyed digest. */
  lemma {:induction false} LastKeyed(h: Hashing, own: seq<Row>) returns (b: nat)
    requires forall r :: r in own ==> Explained(h, r, false)
    ensures b <= |own| && (b > 0 ==> Keyed(h, own[b - 1]))
    ensures forall i :: b <= i < |own| ==> OnlyUnkeyed(h, own[i])
  {
    b := |own|;
    if own != [] {
      var n := |own| - 1;
      assert own[n] in own;
      if !Keyed(h, own[n]) {
        b := LastKeyed(h, own[..n]);
        assert forall i :: b <= i < n ==> own[..n][i] == own[i];
      }
    }
  }

  /** A contiguous run of committed rows, legacy ones included, and then only rows without a seq
      that carry the unkeyed digest. */
  ghost predicate RunThenUnkeyed(h: Hashing, own: seq<Row>, committed: seq<Row>, b: nat) {
    && b <= |own| && ContiguousRun(own[..b], committed)
    && forall i :: b <= i < |own| ==> OnlyUnkeyed(h, own[i])
  }

  /** Permissive tamper evidence: of rows without forged keyed hashes, whatever passes is for each
      user a contiguous run of the committed rows, in committed order, followed at most by rows
      without a seq. So the rows with a seq that pass are all in that run. */
  lemma PermissiveTamperEvidence(h: Hashing, base: seq<Row>, labels: seq<Label>, rows: seq<Row>, user: string)
    requires Ideal(h) && IdealUnkeyed(h) && LegacyBase(h, base) && Rooted(base)
    requires NothingForged(h, rows, Committed(h, base, labels)) && FullReport(h, rows, false).Ok()
    ensures exists b: nat :: RunThenUnkeyed(h, OfUser(rows, user), OfUser(Committed(h, base, labels), user), b)
  {
    hide FullReport, Exec, Ideal, IdealUnkeyed, LegacyBase, LinkedAndOrdered;
    RunKeepsInv(h, base, labels);
    var s := Exec(h, Init(base), labels);
    OkIffNoFailures(h, rows, false);
    CleanIffEachUserClean(h, rows, false);
    assert CleanFor(h, rows, user, false);
    OfUserMembers(rows, user);
    CleanIffLinked(h, OfUser(rows, user), user, false);
    OwnRunThenUnkeyed(h, s, OfUser(rows, user), user);
  }

  lemma OwnRunThenUnkeyed(h: Hashing, s: State, own: seq<Row>, user: string)
    requires Ideal(h) && IdealUnkeyed(h) && Inv(h, s) && Rooted(s.base)
    requires LinkedAndOrdered(h, own, false) && NothingForged(h, own, s.table)
    requires forall r :: r in own ==> r.userId == user
    ensures exists b: nat :: RunThenUnkeyed(h, own, OfUser(s.table, user), b)
  {
    LinkedExplained(h, own);
    assert Chain(h, user, OfUser(s.base, user), OfUser(s.table, user)) && LegacyLinked(h, OfUser(s.base, user));
    hide Ideal, IdealUnkeyed, Inv, LinkedAndOrdered, OnlyUnkeyed, Explained, Keyed;
    var b := LastKeyed(h, own);
    if b > 0 {
      assert own[b - 1] in own && IsCommitted(own[b - 1], s.table);
      var p := FindIssued(h, s, own[b - 1]);
      LinkedFrontPermissive(h, own, b);
      RunBack(h, user, OfUser(s.base, user), OfUser(s.table, user), own[..b], p);
      assert ContiguousRun(own[..b], OfUser(s.table, user));
    } else {
      assert RunFrom(own[..b], OfUser(s.table, user), 0);
    }
    assert RunThenUnkeyed(h, own, OfUser(s.table, user), b);
  }

  lemma LinkedFrontPermissive(h: Hashing, own: seq<Row>, b: nat)
    requires b <= |own| && LinkedAndOrdered(h, own, false)
    ensures LinkedAndOrdered(h, own[..b], false)
  {
  }

  lemma LinkedExplained(h: Hashing, own: seq<Row>)
    requires LinkedAndOrdered(h, own, false)
    ensures forall r :: r in own ==> Explained(h, r, false)
  {
    forall k | 0 <= k < |own| ensures Explained(h, own[k], false) {
      SchemeMeans(h, own[k], false);
    }
  }
}
