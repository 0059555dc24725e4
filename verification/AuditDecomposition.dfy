/** How the verifier's report on an interleaved log relates to its reports on each user's
    rows, and what fail_fast and require_hmac change. */
module AuditDecomposition {
  import opened AuditRows
  import opened AuditVerifier

  ghost predicate UniqueIds(rows: seq<Row>) {
    forall i, j :: 0 <= i < j < |rows| ==> rows[i].id != rows[j].id
  }

  function Ids(rows: seq<Row>): set<string> {
    set r | r in rows :: r.id
  }

  function FailureIds(failures: seq<RowFailure>): set<string> {
    set f | f in failures :: f.id
  }

  /** The failures about rows with these ids, in report order. */
  function Restrict(failures: seq<RowFailure>, ids: set<string>): seq<RowFailure> {
    if failures == [] then []
    else
      var n := |failures| - 1;
      Restrict(failures[..n], ids) + if failures[n].id in ids then [failures[n]] else []
  }

  lemma {:induction false} RestrictAppend(a: seq<RowFailure>, b: seq<RowFailure>, ids: set<string>)
    ensures Restrict(a + b, ids) == Restrict(a, ids) + Restrict(b, ids)
    decreases |b|
  {
    if b == [] {
      assert a + b == a;
    } else {
      assert (a + b)[..|a + b| - 1] == a + b[..|b| - 1];
      RestrictAppend(a, b[..|b| - 1], ids);
    }
  }

  lemma {:induction false} RestrictCongruent(failures: seq<RowFailure>, ids: set<string>, ids': set<string>)
    requires forall f :: f in failures ==> (f.id in ids <==> f.id in ids')
    ensures Restrict(failures, ids) == Restrict(failures, ids')
  {
    if failures != [] {
      RestrictCongruent(failures[..|failures| - 1], ids, ids');
    }
  }

  lemma {:induction false} RestrictWhole(failures: seq<RowFailure>, ids: set<string>, inside: bool)
    requires forall f :: f in failures ==> (f.id in ids <==> inside)
    ensures Restrict(failures, ids) == if inside then failures else []
  {
    if failures != [] {
      RestrictWhole(failures[..|failures| - 1], ids, inside);
      assert failures == failures[..|failures| - 1] + [failures[|failures| - 1]];
    }
  }

  lemma FailureIdsAppend(a: seq<RowFailure>, b: seq<RowFailure>)
    ensures FailureIds(a + b) == FailureIds(a) + FailureIds(b)
  {
    forall x | x in FailureIds(a) + FailureIds(b) ensures x in FailureIds(a + b) {
      var f :| (f in a || f in b) && f.id == x;
      assert f in a + b;
    }
  }

  lemma FailuresAtIds(h: Hashing, earlier: seq<Row>, row: Row, requireHmac: bool)
    ensures var found := FailuresAt(h, earlier, row, requireHmac);
            FailureIds(found) == if found != [] then {row.id} else {}
    ensures forall f :: f in FailuresAt(h, earlier, row, requireHmac) ==> f.id == row.id
  {
    var found := FailuresAt(h, earlier, row, requireHmac);
    assert found != [] ==> found[0] in found;
  }

  lemma {:induction false} FailuresNameRows(h: Hashing, rows: seq<Row>, requireHmac: bool)
    ensures FailureIds(AllFailures(h, rows, requireHmac)) <= Ids(rows)
  {
    if rows != [] {
      var n := |rows| - 1;
      var earlier := OfUser(rows[..n], rows[n].userId);
      FailuresNameRows(h, rows[..n], requireHmac);
      FailuresAtIds(h, earlier, rows[n], requireHmac);
      FailureIdsAppend(AllFailures(h, rows[..n], requireHmac), FailuresAt(h, earlier, rows[n], requireHmac));
      assert rows[n] in rows;
    }
  }

  /** The bad ids are exactly the ids the failures name. */
  lemma {:induction false} BadIdsAreFailureIds(h: Hashing, rows: seq<Row>, requireHmac: bool)
    ensures BadIds(h, rows, requireHmac) == FailureIds(AllFailures(h, rows, requireHmac))
  {
    if rows != [] {
      var n := |rows| - 1;
      var earlier := OfUser(rows[..n], rows[n].userId);
      BadIdsAreFailureIds(h, rows[..n], requireHmac);
      assert rows[..n + 1] == rows;
      BadIdsSnoc(h, rows, n, requireHmac);
      FailuresAtIds(h, earlier, rows[n], requireHmac);
      FailureIdsAppend(AllFailures(h, rows[..n], requireHmac), FailuresAt(h, earlier, rows[n], requireHmac));
    }
  }

  /** A report is ok exactly when it lists no failure, whatever the ids. */
  lemma OkIffNoFailures(h: Hashing, rows: seq<Row>, requireHmac: bool)
    ensures FullReport(h, rows, requireHmac).Ok() <==> AllFailures(h, rows, requireHmac) == []
  {
    BadIdsAreFailureIds(h, rows, requireHmac);
    var failures := AllFailures(h, rows, requireHmac);
    if failures != [] {
      assert failures[0].id in FailureIds(failures);
    }
  }

  lemma OfUserSplit(rows: seq<Row>, user: string)
    requires rows != []
    ensures var n := |rows| - 1;
            OfUser(rows, user) == if rows[n].userId == user then OfUser(rows[..n], user) + [rows[n]] else OfUser(rows[..n], user)
  {
  }

  /** Adding a row of the user to that user's own list reports what the interleaving does. */
  lemma OwnListStep(h: Hashing, rows: seq<Row>, requireHmac: bool)
    requires rows != []
    ensures var n := |rows| - 1;
            var own := OfUser(rows[..n], rows[n].userId);
            AllFailures(h, own + [rows[n]], requireHmac)
            == AllFailures(h, own, requireHmac) + FailuresAt(h, own, rows[n], requireHmac)
  {
    var n := |rows| - 1;
    var own := OfUser(rows[..n], rows[n].userId);
    OfUserMembers(rows[..n], rows[n].userId);
    OneUserOnly(own, rows[n].userId);
    assert (own + [rows[n]])[..|own|] == own;
  }

  /** Decomposition: with unique ids, what an interleaving reports about one user is what
      that user's rows report alone. */
  lemma {:induction false} PerUserFailures(h: Hashing, rows: seq<Row>, user: string, requireHmac: bool)
    requires UniqueIds(rows)
    ensures Restrict(AllFailures(h, rows, requireHmac), Ids(OfUser(rows, user)))
         == AllFailures(h, OfUser(rows, user), requireHmac)
  {
    if rows != [] {
      var n := |rows| - 1;
      PerUserFailures(h, rows[..n], user, requireHmac);
      PerUserStep(h, rows, user, requireHmac);
      OfUserSplit(rows, user);
      OwnListStep(h, rows, requireHmac);
    }
  }

  lemma PerUserStep(h: Hashing, rows: seq<Row>, user: string, requireHmac: bool)
    requires UniqueIds(rows) && rows != []
    ensures var init, row := rows[..|rows| - 1], rows[|rows| - 1];
            Restrict(AllFailures(h, rows, requireHmac), Ids(OfUser(rows, user)))
            == Restrict(AllFailures(h, init, requireHmac), Ids(OfUser(init, user)))
               + if row.userId == user then FailuresAt(h, OfUser(init, row.userId), row, requireHmac) else []
  {
    var init, row := rows[..|rows| - 1], rows[|rows| - 1];
    var before := AllFailures(h, init, requireHmac);
    var found := FailuresAt(h, OfUser(init, row.userId), row, requireHmac);
    var own, own' := Ids(OfUser(init, user)), Ids(OfUser(rows, user));
    IdsOfUserStep(rows, user);
    FailuresNameRows(h, init, requireHmac);
    FailuresAtIds(h, OfUser(init, row.userId), row, requireHmac);
    RestrictAppend(before, found, own');
    forall f | f in before ensures f.id in own <==> f.id in own' {
      assert f.id in FailureIds(before);
    }
    RestrictCongruent(before, own, own');
    RestrictWhole(found, own', row.userId == user);
  }

  lemma IdsOfUserStep(rows: seq<Row>, user: string)
    requires UniqueIds(rows) && rows != []
    ensures var init, row := rows[..|rows| - 1], rows[|rows| - 1];
            && row.id !in Ids(init) && Ids(OfUser(init, user)) <= Ids(init)
            && Ids(OfUser(rows, user)) == if row.userId == user then Ids(OfUser(init, user)) + {row.id} else Ids(OfUser(init, user))
  {
    var init, row := rows[..|rows| - 1], rows[|rows| - 1];
    OfUserMembers(init, user);
    OfUserMembers(rows, user);
    OfUserSplit(rows, user);
    assert row in [row];
  }

  ghost predicate CleanFor(h: Hashing, rows: seq<Row>, user: string, requireHmac: bool) {
    AllFailures(h, OfUser(rows, user), requireHmac) == []
  }

  lemma CleanForStep(h: Hashing, rows: seq<Row>, user: string, requireHmac: bool)
    requires rows != []
    ensures var n := |rows| - 1;
            CleanFor(h, rows, user, requireHmac) <==>
            CleanFor(h, rows[..n], user, requireHmac)
            && (rows[n].userId == user ==> !Bad(h, rows, n, requireHmac))
  {
    OfUserSplit(rows, user);
    OwnListStep(h, rows, requireHmac);
  }

  /** No failure anywhere exactly when no user's own list has one; ids do not matter. */
  lemma {:induction false} CleanIffEachUserClean(h: Hashing, rows: seq<Row>, requireHmac: bool)
    ensures AllFailures(h, rows, requireHmac) == [] <==> forall u :: CleanFor(h, rows, u, requireHmac)
  {
    if rows != [] {
      var n := |rows| - 1;
      CleanIffEachUserClean(h, rows[..n], requireHmac);
      assert rows[..n + 1] == rows;
      NoFailuresSnoc(h, rows, n, requireHmac);
      CleanForStep(h, rows, rows[n].userId, requireHmac);
      forall u ensures CleanFor(h, rows, u, requireHmac) ==> CleanFor(h, rows[..n], u, requireHmac) {
        CleanForStep(h, rows, u, requireHmac);
      }
      forall u ensures CleanFor(h, rows[..n], u, requireHmac) && !Bad(h, rows, n, requireHmac) ==>
                       CleanFor(h, rows, u, requireHmac) {
        CleanForStep(h, rows, u, requireHmac);
      }
    }
  }

  // ---- counts over users --------------------------------------------------------

  ghost predicate Distinct(users: seq<string>) {
    forall i, j :: 0 <= i < j < |users| ==> users[i] != users[j]
  }

  ghost predicate Covers(users: seq<string>, rows: seq<Row>) {
    forall r :: r in rows ==> r.userId in users
  }

  function SumCount(p: Row -> bool, rows: seq<Row>, users: seq<string>): nat {
    if users == [] then 0
    else SumCount(p, rows, users[..|users| - 1]) + Count(p, OfUser(rows, users[|users| - 1]))
  }

  function SumInvalid(h: Hashing, rows: seq<Row>, users: seq<string>, requireHmac: bool): nat {
    if users == [] then 0
    else SumInvalid(h, rows, users[..|users| - 1], requireHmac)
         + FullReport(h, OfUser(rows, users[|users| - 1]), requireHmac).invalid
  }

  lemma {:induction false} SumCountStep(p: Row -> bool, rows: seq<Row>, users: seq<string>)
    requires rows != [] && Distinct(users)
    ensures var row := rows[|rows| - 1];
            SumCount(p, rows, users)
            == SumCount(p, rows[..|rows| - 1], users) + if p(row) && row.userId in users then 1 else 0
  {
    hide OfUser, Count;
    if users != [] {
      var k := |users| - 1;
      SumCountStep(p, rows, users[..k]);
      OfUserSplit(rows, users[k]);
      CountSnoc(p, OfUser(rows[..|rows| - 1], users[k]), rows[|rows| - 1]);
      assert users == users[..k] + [users[k]];
    }
  }

  lemma CountSnoc(p: Row -> bool, rows: seq<Row>, row: Row)
    ensures Count(p, rows + [row]) == Count(p, rows) + if p(row) then 1 else 0
  {
    assert (rows + [row])[..|rows|] == rows;
  }

  /** Counting rows user by user counts every row once. */
  lemma {:induction false} CountsAddUp(p: Row -> bool, rows: seq<Row>, users: seq<string>)
    requires Distinct(users) && Covers(users, rows)
    ensures SumCount(p, rows, users) == Count(p, rows)
  {
    if rows == [] {
      SumOfNone(p, users);
    } else {
      assert rows[|rows| - 1] in rows;
      CountsAddUp(p, rows[..|rows| - 1], users);
      SumCountStep(p, rows, users);
    }
  }

  lemma {:induction false} SumOfNone(p: Row -> bool, users: seq<string>)
    ensures SumCount(p, [], users) == 0
  {
    if users != [] {
      SumOfNone(p, users[..|users| - 1]);
    }
  }

  /** The bad ids of the rows of some users. */
  function BadOf(rows: seq<Row>, users: seq<string>, bad: set<string>): set<string> {
    set r | r in rows && r.userId in users && r.id in bad :: r.id
  }

  lemma {:induction false} SumInvalidIs(h: Hashing, rows: seq<Row>, users: seq<string>, requireHmac: bool)
    requires UniqueIds(rows) && Distinct(users)
    ensures SumInvalid(h, rows, users, requireHmac) == |BadOf(rows, users, BadIds(h, rows, requireHmac))|
  {
    if users != [] {
      var k := |users| - 1;
      var bad := BadIds(h, rows, requireHmac);
      SumInvalidIs(h, rows, users[..k], requireHmac);
      BadIdsOfUser(h, rows, users[k], requireHmac);
      BadOfSplit(rows, users, bad);
    }
  }

  /** Unique ids: no id of the last user is an id of another one. */
  lemma BadOfSplit(rows: seq<Row>, users: seq<string>, bad: set<string>)
    requires UniqueIds(rows) && Distinct(users) && users != []
    ensures var k := |users| - 1;
            && BadOf(rows, users, bad) == BadOf(rows, users[..k], bad) + BadOf(rows, [users[k]], bad)
            && BadOf(rows, users[..k], bad) !! BadOf(rows, [users[k]], bad)
  {
    var k := |users| - 1;
    assert users == users[..k] + [users[k]];
    forall i, j | 0 <= i < |rows| && 0 <= j < |rows| && rows[i].userId in users[..k] && rows[j].userId == users[k]
      ensures rows[i].id != rows[j].id
    {
      assert i != j;
    }
  }

  lemma BadIdsOfUser(h: Hashing, rows: seq<Row>, user: string, requireHmac: bool)
    requires UniqueIds(rows)
    ensures BadIds(h, OfUser(rows, user), requireHmac) == BadOf(rows, [user], BadIds(h, rows, requireHmac))
  {
    BadIdsAreFailureIds(h, rows, requireHmac);
    BadIdsAreFailureIds(h, OfUser(rows, user), requireHmac);
    PerUserFailures(h, rows, user, requireHmac);
    RestrictIds(AllFailures(h, rows, requireHmac), Ids(OfUser(rows, user)));
    BadOfOne(rows, user, BadIds(h, rows, requireHmac));
  }

  lemma BadOfOne(rows: seq<Row>, user: string, bad: set<string>)
    ensures BadOf(rows, [user], bad) == bad * Ids(OfUser(rows, user))
  {
    OfUserMembers(rows, user);
  }

  lemma {:induction false} RestrictIds(failures: seq<RowFailure>, ids: set<string>)
    ensures FailureIds(Restrict(failures, ids)) == FailureIds(failures) * ids
  {
    if failures != [] {
      var n := |failures| - 1;
      RestrictIds(failures[..n], ids);
      var kept := if failures[n].id in ids then [failures[n]] else [];
      FailureIdsAppend(failures[..n], [failures[n]]);
      FailureIdsAppend(Restrict(failures[..n], ids), kept);
      assert failures == failures[..n] + [failures[n]];
      assert failures[n] in [failures[n]];
      assert FailureIds([failures[n]]) == {failures[n].id};
    }
  }

  /** With unique ids the invalid and legacy counts of an interleaving are the sums over its
      users, and valid is what is left. */
  lemma ReportsAddUp(h: Hashing, rows: seq<Row>, users: seq<string>, requireHmac: bool)
    requires UniqueIds(rows) && Distinct(users) && Covers(users, rows)
    ensures FullReport(h, rows, requireHmac).invalid == SumInvalid(h, rows, users, requireHmac)
    ensures FullReport(h, rows, requireHmac).legacy
         == SumCount(row => ClassifyRow(h, row).Legacy?, rows, users)
  {
    SumInvalidIs(h, rows, users, requireHmac);
    CountsAddUp(row => ClassifyRow(h, row).Legacy?, rows, users);
    var bad := BadIds(h, rows, requireHmac);
    BadIdsAreFailureIds(h, rows, requireHmac);
    FailuresNameRows(h, rows, requireHmac);
    assert bad == BadOf(rows, users, bad);
  }

  // ---- fail_fast and require_hmac -----------------------------------------------

  lemma {:induction false} PrefixFailures(h: Hashing, rows: seq<Row>, n: nat, requireHmac: bool)
    requires n <= |rows|
    ensures AllFailures(h, rows[..n], requireHmac) <= AllFailures(h, rows, requireHmac)
  {
    if n < |rows| {
      var m := |rows| - 1;
      PrefixFailures(h, rows[..m], n, requireHmac);
      assert rows[..m][..n] == rows[..n];
    } else {
      assert rows[..n] == rows;
    }
  }

  lemma NoFailuresSnoc(h: Hashing, rows: seq<Row>, i: nat, requireHmac: bool)
    requires i < |rows|
    ensures AllFailures(h, rows[..i + 1], requireHmac) == [] <==>
            AllFailures(h, rows[..i], requireHmac) == [] && !Bad(h, rows, i, requireHmac)
  {
    AllFailuresSnoc(h, rows, i, requireHmac);
  }

  lemma {:induction false} NoneBadNoFailures(h: Hashing, rows: seq<Row>, n: nat, requireHmac: bool)
    requires n <= |rows|
    ensures NoneBad(h, rows, n, requireHmac) <==> AllFailures(h, rows[..n], requireHmac) == []
  {
    hide Bad;
    if n > 0 {
      NoneBadNoFailures(h, rows, n - 1, requireHmac);
      NoFailuresSnoc(h, rows, n - 1, requireHmac);
      assert NoneBad(h, rows, n, requireHmac) <==>
             NoneBad(h, rows, n - 1, requireHmac) && !Bad(h, rows, n - 1, requireHmac);
    }
  }

  /** A NULL previous_hash anywhere but on a user's first row is a failure: the walk makes no
      exception for rows older than the chain. */
  lemma NullPreviousHashIsFlagged(h: Hashing, rows: seq<Row>, i: nat, requireHmac: bool)
    requires i < |rows| && OfUser(rows[..i], rows[i].userId) != [] && rows[i].previousHash.None?
    ensures !FullReport(h, rows, requireHmac).Ok()
  {
    var earlier := OfUser(rows[..i], rows[i].userId);
    assert BrokenLink(earlier, rows[i]);
    assert Bad(h, rows, i, requireHmac);
    NoneBadNoFailures(h, rows, |rows|, requireHmac);
    assert rows[..|rows|] == rows;
    OkIffNoFailures(h, rows, requireHmac);
  }

  /** fail_fast reports the shortest prefix that has a failure, its failures are the first
      ones of the full report, and the verdict is the same. */
  lemma FailFastIsShortestBadPrefix(h: Hashing, rows: seq<Row>, requireHmac: bool, n: nat)
    requires StopsAt(h, rows, true, requireHmac, n)
    ensures FullReport(h, rows[..n], requireHmac).Ok() <==> FullReport(h, rows, requireHmac).Ok()
    ensures AllFailures(h, rows[..n], requireHmac) <= AllFailures(h, rows, requireHmac)
    ensures forall m :: 0 <= m < n ==> AllFailures(h, rows[..m], requireHmac) == []
    ensures n < |rows| ==> AllFailures(h, rows[..n], requireHmac) != []
  {
    hide AllFailures, Bad, NoneBad, FullReport;
    PrefixFailures(h, rows, n, requireHmac);
    StopsBad(h, rows, requireHmac, n);
    OkIffNoFailures(h, rows, requireHmac);
    OkIffNoFailures(h, rows[..n], requireHmac);
    NoneBadNoFailures(h, rows, n, requireHmac);
    forall m | 0 <= m < n ensures AllFailures(h, rows[..m], requireHmac) == [] {
      NoneBadNoFailures(h, rows, m, requireHmac);
    }
    assert rows[..|rows|] == rows;
  }

  lemma StopsBad(h: Hashing, rows: seq<Row>, requireHmac: bool, n: nat)
    requires StopsAt(h, rows, true, requireHmac, n)
    ensures n < |rows| ==> !NoneBad(h, rows, n, requireHmac)
    ensures forall m :: 0 <= m < n ==> NoneBad(h, rows, m, requireHmac)
  {
    hide Bad;
  }

  function Keyless(failures: seq<RowFailure>): seq<RowFailure> {
    if failures == [] then []
    else
      var n := |failures| - 1;
      Keyless(failures[..n]) + if failures[n].kind.UnkeyedHash? then [] else [failures[n]]
  }

  lemma {:induction false} KeylessAppend(a: seq<RowFailure>, b: seq<RowFailure>)
    ensures Keyless(a + b) == Keyless(a) + Keyless(b)
    decreases |b|
  {
    if b == [] {
      assert a + b == a;
    } else {
      assert (a + b)[..|a + b| - 1] == a + b[..|b| - 1];
      KeylessAppend(a, b[..|b| - 1]);
    }
  }

  lemma KeylessOne(f: RowFailure)
    ensures Keyless([f]) == if f.kind.UnkeyedHash? then [] else [f]
  {
    assert [f][..0] == [];
  }

  lemma {:induction false} KeylessWhole(a: seq<RowFailure>)
    requires forall f :: f in a ==> !f.kind.UnkeyedHash?
    ensures Keyless(a) == a
  {
    if a != [] {
      hide Keyless;
      var front, last := a[..|a| - 1], a[|a| - 1];
      assert last in a && forall f :: f in front ==> f in a;
      assert a == front + [last];
      KeylessWhole(front);
      KeylessAppend(front, [last]);
      KeylessOne(last);
    }
  }

  lemma RequireHmacAt(h: Hashing, earlier: seq<Row>, row: Row)
    ensures Keyless(FailuresAt(h, earlier, row, true)) == FailuresAt(h, earlier, row, false)
  {
    var extra := if ClassifyRow(h, row).Legacy? then [UnkeyedFailure(h, row)] else [];
    var same := KeyedFailuresAt(h, earlier, row);
    KeyedKinds(h, earlier, row);
    hide KeyedFailuresAt, ClassifyRow;
    KeylessAppend(extra, same);
    KeylessWhole(same);
    KeylessUnkeyed(h, row);
    assert FailuresAt(h, earlier, row, false) == same;
  }

  lemma KeyedKinds(h: Hashing, earlier: seq<Row>, row: Row)
    ensures forall f :: f in KeyedFailuresAt(h, earlier, row) ==> !f.kind.UnkeyedHash?
  {
    hide ClassifyRow, BrokenLink, BrokenSeq;
  }

  lemma KeylessUnkeyed(h: Hashing, row: Row)
    ensures Keyless([UnkeyedFailure(h, row)]) == [] && Keyless([]) == []
  {
    KeylessOne(UnkeyedFailure(h, row));
  }

  /** require_hmac only adds failures: dropping the unkeyed_hash ones leaves the permissive
      report's failures, in order, and the legacy count is the same. */
  lemma {:induction false} RequireHmacOnlyAdds(h: Hashing, rows: seq<Row>)
    ensures Keyless(AllFailures(h, rows, true)) == AllFailures(h, rows, false)
    ensures FullReport(h, rows, true).legacy == FullReport(h, rows, false).legacy
    ensures FullReport(h, rows, true).Ok() ==> FullReport(h, rows, false).Ok()
  {
    OkIffNoFailures(h, rows, true);
    OkIffNoFailures(h, rows, false);
    if rows != [] {
      var n := |rows| - 1;
      var earlier := OfUser(rows[..n], rows[n].userId);
      RequireHmacOnlyAdds(h, rows[..n]);
      KeylessAppend(AllFailures(h, rows[..n], true), FailuresAt(h, earlier, rows[n], true));
      RequireHmacAt(h, earlier, rows[n]);
    }
  }
}
