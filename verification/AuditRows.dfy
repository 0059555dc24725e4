/** Rows of the `audit_logs` table, the payload a row's hash covers, and the two
    digests of core/security.py. */
module AuditRows {
  import opened Options

  // JSON values are kept as their canonical text (sorted keys), the form in which they are hashed.
  type Json = string

  /** A stored digest: of a payload under the deployment's key, of a payload without a key, or
      any other text somebody wrote into the column. */
  datatype Hash = KeyedDigest(payload: Payload) | UnkeyedDigest(payload: Payload) | OtherText(text: string)

  /** The thirteen fields a row's hash covers. */
  datatype Payload = Payload(
    userId: string,
    connectorName: string,
    action: string,
    endpoint: string,
    scopeUsed: string,
    status: string,
    requestId: string,
    requestData: Option<Json>,
    responseSummary: Option<string>,
    reasoningChain: Option<Json>,
    detectionMethod: Option<string>,
    confidenceScore: Option<Json>,
    previousHash: Option<Hash>)

  /** One stored row. `id`, `timestamp` and `number` (the `seq` column) are not hashed. */
  datatype Row = Row(
    id: string,
    userId: string,
    timestamp: int,
    number: Option<int>,
    connectorName: string,
    action: string,
    endpoint: string,
    scopeUsed: string,
    status: string,
    reasoningChain: Option<Json>,
    detectionMethod: Option<string>,
    confidenceScore: Option<Json>,
    requestData: Option<Json>,
    responseSummary: Option<string>,
    integrityHash: Hash,
    previousHash: Option<Hash>,
    requestId: string)

  /** The keyed digest (HMAC-SHA256 under the deployment's key) and the unkeyed one that
      rows written before the upgrade carry. */
  datatype Hashing = Hashing(keyed: Payload -> Hash, unkeyed: Payload -> Hash)

  /** What the digests are idealised to: no collisions within or across the two. */
  ghost predicate Ideal(h: Hashing) {
    && (forall p, q :: h.keyed(p) == h.keyed(q) ==> p == q)
    && (forall p, q :: h.keyed(p) != h.unkeyed(q))
  }

  /** The same for the unkeyed digest. */
  ghost predicate IdealUnkeyed(h: Hashing) {
    forall p, q :: h.unkeyed(p) == h.unkeyed(q) ==> p == q
  }

  /** Two digests that meet the idealisation. */
  lemma IdealExists()
    ensures exists h: Hashing :: Ideal(h) && IdealUnkeyed(h)
  {
    var h := Hashing(p => KeyedDigest(p), p => UnkeyedDigest(p));
    assert Ideal(h) && IdealUnkeyed(h);
  }

  /** The payload as the verifier rebuilds it from a stored row. */
  function PayloadOf(row: Row): Payload {
    Payload(row.userId, row.connectorName, row.action, row.endpoint, row.scopeUsed, row.status, row.requestId,
            row.requestData, row.responseSummary, row.reasoningChain, row.detectionMethod, row.confidenceScore,
            row.previousHash)
  }

  predicate Keyed(h: Hashing, row: Row) {
    row.integrityHash == h.keyed(PayloadOf(row))
  }

  /** The rows of one user, in the order they have in `rows`. */
  function OfUser(rows: seq<Row>, user: string): seq<Row> {
    if rows == [] then []
    else
      var init := OfUser(rows[..|rows| - 1], user);
      if rows[|rows| - 1].userId == user then init + [rows[|rows| - 1]] else init
  }

  lemma {:induction false} OfUserAppend(a: seq<Row>, b: seq<Row>, user: string)
    ensures OfUser(a + b, user) == OfUser(a, user) + OfUser(b, user)
    decreases |b|
  {
    if b == [] {
      assert a + b == a;
    } else {
      var n := |b| - 1;
      assert (a + b)[..|a + b| - 1] == a + b[..n];
      OfUserAppend(a, b[..n], user);
    }
  }

  lemma {:induction false} OfUserMembers(rows: seq<Row>, user: string)
    ensures forall r :: r in OfUser(rows, user) <==> r in rows && r.userId == user
  {
    if rows != [] {
      OfUserMembers(rows[..|rows| - 1], user);
      assert rows == rows[..|rows| - 1] + [rows[|rows| - 1]];
    }
  }
}
