/**
 What the review lists and says of each operation, in terms of the tables alone
 (apps/api/src/cli/gst-verification-reconciliation.ts:121-254).
 */
module ReviewRules {
  import opened Prelude
  import opened GstClaims
  import opened GstReview
  import opened ClaimRules

  predicate HeldOutcome(op: Operation) {
    op.outcome == Dispatched || op.outcome == Uncertain
  }

  predicate HasClaim(db: Db, id: OpId) {
    exists c <- db.claims :: c.operationId == id
  }

  /** The operation's recorded state contradicts itself in this way. */
  predicate Contradicts(f: Anomaly, db: Db, id: OpId)
    requires id in db.operations
  {
    var op := db.operations[id];
    match f
    case ClaimOnNonHeldOutcome => HasClaim(db, id) && !HeldOutcome(op)
    case ClaimKeyMismatch =>
      exists c <- db.claims ::
        c.operationId == id && c.key != (if op.mode == Demo then "DEMO:" else "LIVE:") + op.gstin + ":" + op.level
    case EvidencePresentOnHeld => HeldOutcome(op) && op.hasEvidence
    case HeldWithoutClaim => HeldOutcome(op) && !HasClaim(db, id) && !ReleasedEarlier(db, id)
    case UncertainWithoutCompletion => op.outcome == Uncertain && op.completedAt.None?
    case DispatchedWithoutDispatch => op.outcome == Dispatched && op.dispatchedAt.None?
  }

  lemma ClaimOfExactly(db: Db, id: OpId)
    requires KeysHold(db)
    ensures ClaimOf(db.claims, id).Some? <==> HasClaim(db, id)
    ensures forall c <- db.claims :: c.operationId == id ==> ClaimOf(db.claims, id) == Some(c)
  {
  }

  lemma FlagsExactly(db: Db, id: OpId, f: Anomaly)
    requires KeysHold(db) && id in db.operations
    ensures f in AnomalyFlags(db.operations[id], ClaimOf(db.claims, id), WasReleased(db.audit, id)) <==>
            Contradicts(f, db, id)
  {
    var op, claim := db.operations[id], ClaimOf(db.claims, id);
    ClaimOfExactly(db, id);
    WasReleasedMeans(db, id);
    AnomalyListed(f);
    assert "DEMO" + ":" == "DEMO:" && "LIVE" + ":" == "LIVE:";
    assert ClaimKeyFor(op) == (if op.mode == Demo then "DEMO:" else "LIVE:") + op.gstin + ":" + op.level;
  }

  /**
   Every row says of its operation what the tables hold: outcome, fingerprint, contradictions, and
   what can be done.
   */
  predicate RowTells(digest: string -> string, db: Db, now: int, r: Row) {
    && r.operationId in db.operations
    && var op := db.operations[r.operationId];
       && r.outcome == op.outcome
       && (r.fingerprint.Some? <==> HasClaim(db, r.operationId))
       && (forall c <- db.claims :: c.operationId == r.operationId ==> r.fingerprint == Some(digest(c.key)))
       && (forall f :: f in r.flags <==> Contradicts(f, db, r.operationId))
       && (r.readiness.Blocked? <==> r.flags != [])
       && (r.readiness.Resolved? <==> r.flags == [] && !HasClaim(db, r.operationId))
       && (r.readiness.EligibleForEvidence? <==>
             r.flags == [] && HasClaim(db, r.operationId) && op.outcome == Uncertain)
       && (r.readiness.StillYoung? <==>
             && r.flags == [] && HasClaim(db, r.operationId) && op.outcome != Uncertain
             && op.dispatchedAt.Some? && now - op.dispatchedAt.value < 900_000)
       && (r.readiness.StillYoung? ==>
             60_000 * r.readiness.age <= now - op.dispatchedAt.value < 60_000 * (r.readiness.age + 1))
  }

  lemma BuiltRowTells(digest: string -> string, db: Db, id: OpId, now: int)
    requires KeysHold(db) && id in db.operations
    ensures RowTells(digest, db, now, BuildRow(digest, db, id, now))
  {
    ClaimOfExactly(db, id);
    var r := BuildRow(digest, db, id, now);
    forall f ensures f in r.flags <==> Contradicts(f, db, id) {
      FlagsExactly(db, id, f);
    }
  }

  predicate Contradictory(db: Db, id: OpId)
    requires id in db.operations
  {
    exists f: Anomaly :: Contradicts(f, db, id)
  }

  lemma FlaggedExactly(digest: string -> string, db: Db, id: OpId, now: int)
    requires KeysHold(db) && id in db.operations
    ensures BuildRow(digest, db, id, now).flags != [] <==> Contradictory(db, id)
  {
    var r := BuildRow(digest, db, id, now);
    BuiltRowTells(digest, db, id, now);
    assert r.flags != [] ==> r.flags[0] in r.flags;
  }

  predicate Lists(rows: seq<Row>, id: OpId) {
    exists r <- rows :: r.operationId == id
  }

  lemma SelectedExactly(digest: string -> string, db: Db, ids: seq<OpId>, now: int, id: OpId, wanted: Row -> bool)
    requires (forall x <- ids :: x in db.operations) && id in db.operations
    ensures Lists(Select(Rows(digest, db, ids, now), wanted), id) <==>
            id in ids && wanted(BuildRow(digest, db, id, now))
  {
    var rows := Rows(digest, db, ids, now);
    if id in ids && wanted(BuildRow(digest, db, id, now)) {
      var n :| 0 <= n < |ids| && ids[n] == id;
      assert rows[n] in rows && rows[n] in Select(rows, wanted);
    }
    if r :| r in Select(rows, wanted) && r.operationId == id {
      var n :| 0 <= n < |rows| && rows[n] == r;
    }
  }

  /**
   Out of the operations reviewed, the review looks at those that are held or have a claim.
   It lists each of them in the one place its state puts it: contradictory ones as anomalies,
   of the others those with a claim as held and those without as released. The claims are
   counted over the whole table, and every row tells what the tables hold.
   */
  lemma ReviewExactly(digest: string -> string, db: Db, ids: seq<OpId>, now: int, id: OpId)
    requires KeysHold(db) && (forall x <- ids :: x in db.operations) && id in ids
    ensures var s, op := Review(digest, db, ids, now), db.operations[id];
            && s.activeClaims == |db.claims|
            && (Lists(s.anomalies, id) <==> (HeldOutcome(op) || HasClaim(db, id)) && Contradictory(db, id))
            && (Lists(s.held, id) <==> HeldOutcome(op) && HasClaim(db, id) && !Contradictory(db, id))
            && (Lists(s.released, id) <==> HeldOutcome(op) && !HasClaim(db, id) && !Contradictory(db, id))
            && forall r <- s.held + s.anomalies + s.released :: RowTells(digest, db, now, r)
  {
    FetchedAreListed(db, ids, true);
    FetchedAreListed(db, ids, false);
    var fetched := Fetched(db, ids, true) + Fetched(db, ids, false);
    ClaimOfExactly(db, id);
    SelectedExactly(digest, db, fetched, now, id, IsAnomaly);
    SelectedExactly(digest, db, fetched, now, id, IsHeld);
    SelectedExactly(digest, db, fetched, now, id, IsReleased);
    FlaggedExactly(digest, db, id, now);
    BuiltRowTells(digest, db, id, now);
    NonHeldClaimContradicts(db, id);
    var s := Review(digest, db, ids, now);
    forall r <- s.held + s.anomalies + s.released ensures RowTells(digest, db, now, r) {
      RowOrigin(digest, db, ids, now, r);
      BuiltRowTells(digest, db, r.operationId, now);
    }
  }

  lemma NonHeldClaimContradicts(db: Db, id: OpId)
    requires id in db.operations
    ensures HasClaim(db, id) && !HeldOutcome(db.operations[id]) ==> Contradictory(db, id)
  {
    if HasClaim(db, id) && !HeldOutcome(db.operations[id]) {
      assert Contradicts(ClaimOnNonHeldOutcome, db, id);
    }
  }

  /** No operation is listed twice. */
  lemma ListedOnce(digest: string -> string, db: Db, ids: seq<OpId>, now: int)
    requires (forall x <- ids :: x in db.operations) && NoDuplicates(ids)
    ensures var s := Review(digest, db, ids, now);
            |s.held| + |s.anomalies| + |s.released| == |Fetched(db, ids, true)| + |Fetched(db, ids, false)|
    ensures NoDuplicates(Fetched(db, ids, true) + Fetched(db, ids, false))
  {
    FetchedAreListed(db, ids, true);
    FetchedAreListed(db, ids, false);
    FetchedDistinct(db, ids, true);
    FetchedDistinct(db, ids, false);
    var a, b := Fetched(db, ids, true), Fetched(db, ids, false);
    forall i, j | 0 <= i < |a| && 0 <= j < |b| ensures a[i] != b[j] {
      assert a[i] in a && b[j] in b;
    }
    ThreeLists(Rows(digest, db, a + b, now));
  }

  lemma {:induction false} ThreeLists(rows: seq<Row>)
    ensures |Select(rows, IsHeld)| + |Select(rows, IsAnomaly)| + |Select(rows, IsReleased)| == |rows|
  {
    if rows != [] {
      ThreeLists(rows[1..]);
    }
  }
}
